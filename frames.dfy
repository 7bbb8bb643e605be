/** The (geo) data frames the evaluation scripts pass around.

    `Table` is a frame as a value: a coordinate reference system, one geometry per row and
    named numeric columns in order. The mesh pipeline only builds new frames from old ones, so
    it works on `Table`s. `GeoFrame` is a frame that is changed in place (`df[k] = v`,
    `reset_index(inplace=True)`), with cells that may also hold text, `None` or NaN. */
module Frames {
  import opened Common
  import opened Sorting

  datatype Point = Point(x: real, y: real)

  /** A shapely geometry: a GPS point, a mesh element or polygon, or a profile line. */
  datatype Geometry =
    | PointGeometry(point: Point)
    | PolygonGeometry(ring: seq<Point>)
    | LineGeometry(coords: seq<Point>)

  datatype Column = Column(name: string, values: seq<real>)

  datatype Table = Table(crs: int, geometry: seq<Geometry>, columns: seq<Column>) {
    /** Every column has one value per row. */
    ghost predicate WellFormed() {
      forall i :: 0 <= i < |columns| ==> |columns[i].values| == |geometry|
    }
  }

  function ColumnNames(columns: seq<Column>): (names: seq<string>)
    ensures |names| == |columns|
    ensures forall i :: 0 <= i < |columns| ==> names[i] == columns[i].name
  {
    if |columns| == 0 then [] else [columns[0].name] + ColumnNames(columns[1..])
  }

  /** The position of the first column called `name`. */
  function FindColumn(columns: seq<Column>, name: string): (r: Option<nat>)
    ensures r.Some? ==> r.value < |columns| && columns[r.value].name == name
    ensures r.Some? ==> forall i :: 0 <= i < r.value ==> columns[i].name != name
    ensures r.None? <==> name !in ColumnNames(columns)
  {
    if |columns| == 0 then None
    else if columns[0].name == name then Some(0)
    else match FindColumn(columns[1..], name)
      case None => None
      case Some(i) => Some(i + 1)
  }

  /** `df[name]`: the values of the first column of that name, or KeyError when the frame has
      no such column. */
  function Get(t: Table, name: string): (r: Result<seq<real>>)
    ensures r.Err? <==> name !in ColumnNames(t.columns)
    ensures r.Err? ==> r.error == KeyError(name)
    ensures r.Ok? ==> FindColumn(t.columns, name).Some? && r.value == t.columns[FindColumn(t.columns, name).value].values
    ensures r.Ok? && t.WellFormed() ==> |r.value| == |t.geometry|
  {
    match FindColumn(t.columns, name)
    case None => Err(KeyError(name))
    case Some(i) => Ok(t.columns[i].values)
  }

  /** No two columns share a name. */
  predicate DistinctNames(columns: seq<Column>) {
    forall i, j :: 0 <= i < j < |columns| ==> columns[i].name != columns[j].name
  }

  /** In a frame whose column names do not repeat, `df[name]` is the column of that name. */
  lemma GetDistinct(t: Table, k: nat)
    requires DistinctNames(t.columns) && k < |t.columns|
    ensures Get(t, t.columns[k].name) == Ok(t.columns[k].values)
  {
    var i := FindColumn(t.columns, t.columns[k].name);
    assert i.Some? by {
      assert ColumnNames(t.columns)[k] == t.columns[k].name;
    }
    assert !(i.value < k) && !(k < i.value);
  }

  function ReplaceColumn(columns: seq<Column>, name: string, values: seq<real>): (r: seq<Column>)
    ensures ColumnNames(r) == ColumnNames(columns)
    ensures forall i :: 0 <= i < |r| ==> r[i] == if columns[i].name == name then Column(name, values) else columns[i]
  {
    if |columns| == 0 then []
    else [if columns[0].name == name then Column(name, values) else columns[0]] + ReplaceColumn(columns[1..], name, values)
  }

  /** `df[name] = values`: an existing column is overwritten in place, a new one is added
      after the others. The result reads `values` under `name` and is unchanged under every
      other name. */
  function SetColumn(t: Table, name: string, values: seq<real>): (r: Table)
    ensures r.crs == t.crs && r.geometry == t.geometry
    ensures Get(r, name) == Ok(values)
    ensures forall n :: n != name ==> Get(r, n) == Get(t, n)
    ensures name in ColumnNames(t.columns) ==> ColumnNames(r.columns) == ColumnNames(t.columns)
    ensures name !in ColumnNames(t.columns) ==> ColumnNames(r.columns) == ColumnNames(t.columns) + [name]
    ensures t.WellFormed() && |values| == |t.geometry| ==> r.WellFormed()
  {
    if name in ColumnNames(t.columns) then
      ReplaceKeepsOthers(t, name, values);
      t.(columns := ReplaceColumn(t.columns, name, values))
    else
      AppendKeepsOthers(t, name, values);
      t.(columns := t.columns + [Column(name, values)])
  }

  lemma ReplaceKeepsOthers(t: Table, name: string, values: seq<real>)
    requires name in ColumnNames(t.columns)
    ensures var r := t.(columns := ReplaceColumn(t.columns, name, values));
      && Get(r, name) == Ok(values)
      && (forall n :: n != name ==> Get(r, n) == Get(t, n))
      && (t.WellFormed() && |values| == |t.geometry| ==> r.WellFormed())
  {
    var replaced := ReplaceColumn(t.columns, name, values);
    FindAfterReplace(t.columns, name, values);
    var i := FindColumn(t.columns, name).value;
    assert FindColumn(replaced, name) == Some(i);
    assert replaced[i] == Column(name, values);
  }

  lemma AppendKeepsOthers(t: Table, name: string, values: seq<real>)
    requires name !in ColumnNames(t.columns)
    ensures var r := t.(columns := t.columns + [Column(name, values)]);
      && Get(r, name) == Ok(values)
      && (forall n :: n != name ==> Get(r, n) == Get(t, n))
      && ColumnNames(r.columns) == ColumnNames(t.columns) + [name]
      && (t.WellFormed() && |values| == |t.geometry| ==> r.WellFormed())
  {
    FindAfterAppend(t.columns, name, values);
    var cs := t.columns + [Column(name, values)];
    assert ColumnNames(cs) == ColumnNames(t.columns) + [name];
  }

  lemma {:induction false} FindAfterReplace(columns: seq<Column>, name: string, values: seq<real>)
    ensures forall n :: FindColumn(ReplaceColumn(columns, name, values), n) == FindColumn(columns, n)
    decreases |columns|
  {
    if |columns| > 0 {
      FindAfterReplace(columns[1..], name, values);
      assert ReplaceColumn(columns, name, values)[1..] == ReplaceColumn(columns[1..], name, values);
    }
  }

  lemma {:induction false} FindAfterAppend(columns: seq<Column>, name: string, values: seq<real>)
    requires name !in ColumnNames(columns)
    ensures FindColumn(columns + [Column(name, values)], name) == Some(|columns|)
    ensures forall n :: n != name ==> FindColumn(columns + [Column(name, values)], n) == FindColumn(columns, n)
    decreases |columns|
  {
    var c := Column(name, values);
    if |columns| > 0 {
      assert (columns + [c])[0] == columns[0];
      assert (columns + [c])[1..] == columns[1..] + [c];
      assert name != columns[0].name;
      assert name !in ColumnNames(columns[1..]) by {
        assert ColumnNames(columns) == [columns[0].name] + ColumnNames(columns[1..]);
      }
      FindAfterAppend(columns[1..], name, values);
    } else {
      assert columns + [c] == [c];
    }
  }

  /** A column assignment can be carried out when its values were produced and there is one
      value per row. */
  predicate Fits(step: Result<Column>, rows: nat) {
    step.Ok? && |step.value.values| == rows
  }

  /** The exception raised by a step that does not fit: its own, or pandas' ValueError for a
      column of the wrong length. */
  function StepError(step: Result<Column>): Error {
    if step.Err? then step.error else ValueError("Length of values does not match length of index")
  }

  /** A sequence of `df[name] = values` assignments, each of whose values may instead have
      raised. The first step that does not fit raises; otherwise the rows stay as they were. */
  function ApplyAssignments(t: Table, steps: seq<Result<Column>>): (r: Result<Table>)
    ensures r.Ok? <==> forall i :: 0 <= i < |steps| ==> Fits(steps[i], |t.geometry|)
    ensures r.Ok? ==> r.value.crs == t.crs && r.value.geometry == t.geometry
    ensures r.Ok? && t.WellFormed() ==> r.value.WellFormed()
    decreases |steps|
  {
    if |steps| == 0 then Ok(t)
    else if !Fits(steps[0], |t.geometry|) then Err(StepError(steps[0]))
    else
      var r := ApplyAssignments(SetColumn(t, steps[0].value.name, steps[0].value.values), steps[1..]);
      assert forall i :: 1 <= i < |steps| ==> steps[i] == steps[1..][i - 1];
      r
  }

  /** The first step that does not fit decides the exception. */
  lemma {:induction false} AssignmentsFailAtFirstUnfit(t: Table, steps: seq<Result<Column>>, i: int)
    requires 0 <= i < |steps| && !Fits(steps[i], |t.geometry|)
    requires forall j :: 0 <= j < i ==> Fits(steps[j], |t.geometry|)
    ensures ApplyAssignments(t, steps) == Err(StepError(steps[i]))
    decreases |steps|
  {
    if i > 0 {
      var next := SetColumn(t, steps[0].value.name, steps[0].value.values);
      assert Fits(steps[0], |t.geometry|);
      assert ApplyAssignments(t, steps) == ApplyAssignments(next, steps[1..]);
      forall j | 0 <= j < i - 1 ensures Fits(steps[1..][j], |next.geometry|) {
        assert steps[1..][j] == steps[j + 1];
      }
      AssignmentsFailAtFirstUnfit(next, steps[1..], i - 1);
    }
  }

  /** A name that no step assigns keeps its column. */
  lemma {:induction false} AssignmentsKeepOthers(t: Table, steps: seq<Result<Column>>, n: string)
    requires ApplyAssignments(t, steps).Ok?
    requires forall i :: 0 <= i < |steps| ==> steps[i].value.name != n
    ensures Get(ApplyAssignments(t, steps).value, n) == Get(t, n)
    decreases |steps|
  {
    if |steps| > 0 {
      var next := SetColumn(t, steps[0].value.name, steps[0].value.values);
      assert forall i :: 0 <= i < |steps[1..]| ==> steps[1..][i] == steps[i + 1];
      AssignmentsKeepOthers(next, steps[1..], n);
    }
  }

  /** The last assignment to a name decides what the name reads. */
  lemma {:induction false} LastAssignmentWins(t: Table, steps: seq<Result<Column>>, i: int)
    requires ApplyAssignments(t, steps).Ok?
    requires 0 <= i < |steps|
    requires forall j :: i < j < |steps| ==> steps[j].value.name != steps[i].value.name
    ensures Get(ApplyAssignments(t, steps).value, steps[i].value.name) == Ok(steps[i].value.values)
    decreases |steps|
  {
    assert Fits(steps[0], |t.geometry|);
    var next := SetColumn(t, steps[0].value.name, steps[0].value.values);
    var rest := steps[1..];
    assert ApplyAssignments(t, steps) == ApplyAssignments(next, rest);
    if i == 0 {
      forall j | 0 <= j < |rest| ensures rest[j].value.name != steps[0].value.name {
        assert rest[j] == steps[j + 1];
      }
      AssignmentsKeepOthers(next, rest, steps[0].value.name);
    } else {
      assert rest[i - 1] == steps[i];
      forall j | i - 1 < j < |rest| ensures rest[j].value.name != rest[i - 1].value.name {
        assert rest[j] == steps[j + 1];
      }
      LastAssignmentWins(next, rest, i - 1);
    }
  }

  /** Carrying out `a` and then `b` is carrying out `a + b`; once a step raises, nothing
      after it runs. */
  lemma {:induction false} ApplyConcat(t: Table, a: seq<Result<Column>>, b: seq<Result<Column>>)
    ensures ApplyAssignments(t, a + b) ==
      match ApplyAssignments(t, a)
      case Ok(u) => ApplyAssignments(u, b)
      case Err(e) => Err(e)
    decreases |a|
  {
    if |a| > 0 {
      assert (a + b)[0] == a[0] && (a + b)[1..] == a[1..] + b;
      if Fits(a[0], |t.geometry|) {
        ApplyConcat(SetColumn(t, a[0].value.name, a[0].value.values), a[1..], b);
      }
    } else {
      assert a + b == b;
    }
  }

  /** When every assignment to `n` carries the same values `v` and there is one, `n` reads `v`. */
  lemma {:induction false} AssignedValue(t: Table, steps: seq<Result<Column>>, n: string, v: seq<real>)
    requires ApplyAssignments(t, steps).Ok?
    requires exists i :: 0 <= i < |steps| && steps[i].value.name == n
    requires forall i :: 0 <= i < |steps| && steps[i].value.name == n ==> steps[i].value.values == v
    ensures Get(ApplyAssignments(t, steps).value, n) == Ok(v)
    decreases |steps|
  {
    assert Fits(steps[0], |t.geometry|);
    var next := SetColumn(t, steps[0].value.name, steps[0].value.values);
    var rest := steps[1..];
    assert ApplyAssignments(t, steps) == ApplyAssignments(next, rest);
    if exists i :: 0 <= i < |rest| && rest[i].value.name == n {
      forall i | 0 <= i < |rest| && rest[i].value.name == n ensures rest[i].value.values == v {
        assert rest[i] == steps[i + 1];
      }
      AssignedValue(next, rest, n, v);
    } else {
      forall j | 1 <= j < |steps| ensures steps[j].value.name != n {
        assert steps[j] == rest[j - 1];
      }
      var i :| 0 <= i < |steps| && steps[i].value.name == n;
      assert i == 0;
      assert steps[0].value.values == v;
      AssignmentsKeepOthers(next, rest, n);
    }
  }

  /** `df.rename(columns=f)`: every column name is replaced by its image under `f`; the
      values, the geometry and the order of the columns stay as they were. */
  function RenameColumns(t: Table, f: string -> string): (r: Table)
    ensures r.crs == t.crs && r.geometry == t.geometry && |r.columns| == |t.columns|
    ensures forall i :: 0 <= i < |t.columns| ==> r.columns[i] == Column(f(t.columns[i].name), t.columns[i].values)
    ensures t.WellFormed() ==> r.WellFormed()
  {
    t.(columns := seq(|t.columns|, i requires 0 <= i < |t.columns| => Column(f(t.columns[i].name), t.columns[i].values)))
  }

  /** The row-wise difference of two columns (`a - b` on two Series of one frame). */
  function Minus(a: seq<real>, b: seq<real>): (r: seq<real>)
    requires |a| == |b|
    ensures |r| == |a|
    ensures forall i :: 0 <= i < |r| ==> r[i] + b[i] == a[i]
  {
    seq(|a|, i requires 0 <= i < |a| => a[i] - b[i])
  }

  /** The name `reset_index` gives the column that keeps the old row labels: `"index"`, or
      `"level_0"` when there already is a column `"index"`; ValueError when both exist. */
  function ResetIndexName(columns: set<string>): (r: Result<string>)
    ensures r.Err? <==> "index" in columns && "level_0" in columns
    ensures r.Err? ==> r.error == ValueError("cannot insert level_0, already exists")
    ensures r.Ok? ==> r.value !in columns && (r.value == "index" || r.value == "level_0")
    ensures "index" !in columns ==> r == Ok("index")
  {
    if "index" !in columns then Ok("index")
    else if "level_0" !in columns then Ok("level_0")
    else Err(ValueError("cannot insert level_0, already exists"))
  }

  /** One cell of a frame that is changed in place: `None`, NaN, a number or a string. */
  datatype Cell = Null | Nan | Num(r: real) | Text(s: string)

  /** Row labels as a column of numbers. */
  function IndexCells(index: seq<int>): (r: seq<Cell>)
    ensures |r| == |index| && forall i :: 0 <= i < |index| ==> r[i] == Num(index[i] as real)
  {
    seq(|index|, i requires 0 <= i < |index| => Num(index[i] as real))
  }

  /** A (geo) data frame that the code changes in place: the row labels, one geometry per row
      and the columns by name. */
  class GeoFrame {
    var index: seq<int>
    var geometry: seq<Geometry>
    var columns: map<string, seq<Cell>>

    /** One label and one cell of every column per row. */
    ghost predicate Valid()
      reads this
    {
      && |index| == |geometry|
      && forall k :: k in columns ==> |columns[k]| == |geometry|
    }

    constructor (index: seq<int>, geometry: seq<Geometry>, columns: map<string, seq<Cell>>)
      requires |index| == |geometry| && forall k :: k in columns ==> |columns[k]| == |geometry|
      ensures Valid()
      ensures this.index == index && this.geometry == geometry && this.columns == columns
    {
      this.index := index;
      this.geometry := geometry;
      this.columns := columns;
    }

    function Length(): nat
      reads this
    {
      |geometry|
    }

    /** `df.copy()`: a new frame with the same contents. */
    method Copy() returns (c: GeoFrame)
      requires Valid()
      ensures fresh(c) && c.Valid()
      ensures c.index == index && c.geometry == geometry && c.columns == columns
    {
      c := new GeoFrame(index, geometry, columns);
    }

    /** `df[name] = values`: the column is replaced or added; nothing else changes. */
    method SetColumn(name: string, values: seq<Cell>)
      requires Valid() && |values| == |geometry|
      modifies this
      ensures Valid()
      ensures columns == old(columns)[name := values]
      ensures index == old(index) && geometry == old(geometry)
    {
      columns := columns[name := values];
    }

    /** `df["geometry"] = values`: the geometry is replaced; nothing else changes. */
    method SetGeometry(values: seq<Geometry>)
      requires Valid() && |values| == |geometry|
      modifies this
      ensures Valid()
      ensures geometry == values && index == old(index) && columns == old(columns)
    {
      geometry := values;
    }

    /** `df.loc[label, name] = value` for a frame labelled `0..n-1`: one cell changes. */
    method SetCell(name: string, row: nat, value: Cell)
      requires Valid() && name in columns && row < |geometry|
      modifies this
      ensures Valid()
      ensures columns == old(columns)[name := old(columns)[name][row := value]]
      ensures index == old(index) && geometry == old(geometry)
    {
      columns := columns[name := columns[name][row := value]];
    }

    /** `df.reset_index(inplace=True)`: the old labels move into a new column named by
        `ResetIndexName` and the rows are labelled `0..n-1`; when that name cannot be chosen,
        ValueError and the frame stays as it was. */
    method ResetIndex() returns (o: Outcome)
      requires Valid()
      modifies this
      ensures Valid() && geometry == old(geometry)
      ensures ResetIndexName(old(columns.Keys)).Err? ==>
        o == Fail(ResetIndexName(old(columns.Keys)).error) && index == old(index) && columns == old(columns)
      ensures ResetIndexName(old(columns.Keys)).Ok? ==>
        && o == Pass
        && index == Range(|geometry|)
        && columns == old(columns)[ResetIndexName(old(columns.Keys)).value := IndexCells(old(index))]
    {
      var name := ResetIndexName(columns.Keys);
      if name.Err? {
        return Fail(name.error);
      }
      columns := columns[name.value := IndexCells(index)];
      index := Range(|geometry|);
      o := Pass;
    }

    /** `df.loc[mask, name] = value`: the rows the mask selects get `value` in that column;
        nothing else changes. */
    method SetWhere(name: string, mask: seq<bool>, value: Cell)
      requires Valid() && name in columns && |mask| == |geometry|
      modifies this
      ensures Valid()
      ensures columns == old(columns)[name := Masked(old(columns)[name], mask, value)]
      ensures index == old(index) && geometry == old(geometry)
    {
      columns := columns[name := Masked(columns[name], mask, value)];
    }
  }

  /** A column in which the selected rows hold `value`. */
  function Masked(cells: seq<Cell>, mask: seq<bool>, value: Cell): (r: seq<Cell>)
    requires |mask| == |cells|
    ensures |r| == |cells|
    ensures forall i :: 0 <= i < |cells| ==> r[i] == if mask[i] then value else cells[i]
  {
    seq(|cells|, i requires 0 <= i < |cells| => if mask[i] then value else cells[i])
  }

  /** `df[name] = None`: a column of `None`. */
  function Nulls(n: nat): (r: seq<Cell>)
    ensures |r| == n && forall i :: 0 <= i < n ==> r[i] == Null
  {
    seq(n, _ => Null)
  }
}
