/** Result columns per time step. The simulation's HDF5 output holds one dataset per output
    step; every dataset column becomes a frame column called `"<step>-<name>"`. The step
    numbers are then turned into seconds by multiplying them by the width of a time step. */
module TimeStepColumns {
  import opened Common
  import opened Text
  import opened Frames
  import opened Sorting

  /** `f"{key}-{name}"`. */
  function ColumnKey(key: string, name: string): string {
    key + "-" + name
  }

  /** The string without any occurrence of `c`. */
  function Without(s: string, c: char): (r: string)
    ensures c !in r
    ensures |r| <= |s|
  {
    if |s| == 0 then "" else (if s[0] == c then "" else [s[0]]) + Without(s[1..], c)
  }

  /** The new name of a column whose name holds a dash: the integer before the first dash,
      multiplied by the time step, then a dash, then the rest of the name with its dashes
      removed. ValueError when the part before the first dash is not an integer. */
  function RenamedColumnName(name: string, timeStep: int): (r: Result<string>)
    requires '-' in name
    ensures r.Err? <==> ParseInt(Split(name, '-')[0]).None?
    ensures r.Err? ==> r.error.ValueError?
    ensures r.Ok? ==> '-' in r.value
  {
    var parts := Split(name, '-');
    match ParseInt(parts[0])
    case None => Err(ValueError("invalid literal for int() with base 10: " + parts[0]))
    case Some(k) => Ok(IntToDecimal(k * timeStep) + "-" + Join("", parts[1..]))
  }

  /** The mapping built for one column: names with a dash are renamed, the others stay. */
  function NewName(name: string, timeStep: int): (r: Result<string>)
    ensures '-' !in name ==> r == Ok(name)
  {
    if '-' in name then RenamedColumnName(name, timeStep) else Ok(name)
  }

  /** `dataframe.rename(columns=mapping)` with the mapping of one frame: every column keeps its
      values and its place and takes its new name; the first name that cannot be mapped makes
      the whole step raise ValueError. */
  function RenameFrame(t: Table, timeStep: int): (r: Result<Table>)
    ensures r.Ok? <==> forall i :: 0 <= i < |t.columns| ==> NewName(t.columns[i].name, timeStep).Ok?
    ensures r.Err? ==> r.error.ValueError?
    ensures r.Ok? ==> r.value.crs == t.crs && r.value.geometry == t.geometry && |r.value.columns| == |t.columns|
    ensures r.Ok? ==> forall i :: 0 <= i < |t.columns| ==>
      r.value.columns[i] == Column(NewName(t.columns[i].name, timeStep).value, t.columns[i].values)
  {
    if forall i :: 0 <= i < |t.columns| ==> NewName(t.columns[i].name, timeStep).Ok? then
      Ok(RenameColumns(t, n => if NewName(n, timeStep).Ok? then NewName(n, timeStep).value else n))
    else
      Err(ValueError("invalid literal for int() with base 10"))
  }

  /** The four result frames, in this order. */
  datatype SimulationResultsShapes = SimulationResultsShapes(
    bottomElevation: Table,
    hydraulicState: Table,
    flowVelocity: Table,
    absoluteFlowVelocity: Table)

  /** `rename_columns_to_represent_time_step`: each of the four frames renamed, returned in the
      same order; the first frame that cannot be renamed makes the call raise. */
  function RenameColumnsToRepresentTimeStep(shapes: SimulationResultsShapes, timeStep: int): (r: Result<SimulationResultsShapes>)
    ensures r.Ok? <==> RenameFrame(shapes.bottomElevation, timeStep).Ok? && RenameFrame(shapes.hydraulicState, timeStep).Ok?
                       && RenameFrame(shapes.flowVelocity, timeStep).Ok? && RenameFrame(shapes.absoluteFlowVelocity, timeStep).Ok?
    ensures r.Ok? ==> r.value.bottomElevation == RenameFrame(shapes.bottomElevation, timeStep).value
    ensures r.Ok? ==> r.value.hydraulicState == RenameFrame(shapes.hydraulicState, timeStep).value
    ensures r.Ok? ==> r.value.flowVelocity == RenameFrame(shapes.flowVelocity, timeStep).value
    ensures r.Ok? ==> r.value.absoluteFlowVelocity == RenameFrame(shapes.absoluteFlowVelocity, timeStep).value
  {
    var bottom :- RenameFrame(shapes.bottomElevation, timeStep);
    var hydraulic :- RenameFrame(shapes.hydraulicState, timeStep);
    var velocity :- RenameFrame(shapes.flowVelocity, timeStep);
    var absolute :- RenameFrame(shapes.absoluteFlowVelocity, timeStep);
    Ok(SimulationResultsShapes(bottom, hydraulic, velocity, absolute))
  }

  // ---------------------------------------------------------------------------------------
  // What the renaming does to one name

  /** Joining the pieces of a split with nothing in between removes the separator. */
  lemma {:induction false} JoinOfSplitRemoves(s: string, c: char)
    ensures Join("", Split(s, c)) == Without(s, c)
    decreases |s|
  {
    if |s| > 0 {
      var rest := Split(s[1..], c);
      JoinOfSplitRemoves(s[1..], c);
      if s[0] == c {
        assert Split(s, c) == [""] + rest;
        assert ([""] + rest)[1..] == rest;
      } else {
        assert Split(s, c) == [[s[0]] + rest[0]] + rest[1..];
        JoinConsFirst("", [s[0]], rest);
      }
    }
  }

  /** A name `K-rest` becomes `str(int(K) * time_step) + "-" + rest` with the dashes of `rest`
      removed. */
  lemma RenamedNameShape(prefix: string, rest: string, timeStep: int, k: int)
    requires '-' !in prefix && ParseInt(prefix) == Some(k)
    ensures '-' in prefix + "-" + rest
    ensures RenamedColumnName(prefix + "-" + rest, timeStep) == Ok(IntToDecimal(k * timeStep) + "-" + Without(rest, '-'))
  {
    var name := prefix + "-" + rest;
    assert name[|prefix|] == '-';
    SplitAtFirst(prefix, '-', rest);
    assert Split(name, '-')[1..] == Split(rest, '-');
    JoinOfSplitRemoves(rest, '-');
  }

  /** A prefix that is not an integer makes the renaming raise ValueError. */
  lemma RenameRejectsNonInteger(prefix: string, rest: string, timeStep: int)
    requires '-' !in prefix && ParseInt(prefix).None?
    ensures '-' in prefix + "-" + rest
    ensures RenamedColumnName(prefix + "-" + rest, timeStep).Err?
    ensures RenamedColumnName(prefix + "-" + rest, timeStep).error.ValueError?
  {
    var name := prefix + "-" + rest;
    assert name[|prefix|] == '-';
    SplitAtFirst(prefix, '-', rest);
  }

  /** A renamed name has a single dash when the number of seconds is not negative, and the
      part before it reads back as that number: renaming it once more with a time step of 1
      gives it back unchanged. */
  lemma RenamedNameIsStable(prefix: string, rest: string, timeStep: int, k: int)
    requires '-' !in prefix && ParseInt(prefix) == Some(k) && k * timeStep >= 0
    ensures '-' in prefix + "-" + rest
    ensures var r := RenamedColumnName(prefix + "-" + rest, timeStep);
      && r.Ok? && '-' in r.value
      && Split(r.value, '-') == [IntToDecimal(k * timeStep), Without(rest, '-')]
      && RenamedColumnName(r.value, 1) == r
  {
    RenamedNameShape(prefix, rest, timeStep, k);
    var digits := IntToDecimal(k * timeStep);
    var tail := Without(rest, '-');
    var renamed := digits + "-" + tail;
    assert renamed[|digits|] == '-';
    SplitAtFirst(digits, '-', tail);
    SplitWithout(tail, '-');
    assert Split(renamed, '-') == [digits, tail];
    ParseIntOfIntToDecimal(k * timeStep);
    assert k * timeStep * 1 == k * timeStep;
    assert Join("", [tail]) == tail;
  }

  lemma {:induction false} ZerosValue(n: nat)
    ensures AllDigits(seq(n, _ => '0')) && DigitsValue(seq(n, _ => '0')) == 0
  {
    if n > 0 {
      var zeros := seq(n, _ => '0');
      assert zeros[..n - 1] == seq(n - 1, _ => '0');
      ZerosValue(n - 1);
    }
  }

  lemma EsriEndStepNumber()
    ensures ParseInt("0000003") == Some(3)
  {
    var zeros := seq(6, _ => '0');
    ZerosValue(6);
    assert "0000003"[..6] == zeros;
  }

  lemma AppendDigit(n: nat, d: nat)
    requires 0 < n && d < 10
    ensures NatToDecimal(n * 10 + d) == NatToDecimal(n) + [DigitChar(d)]
  {
    assert (n * 10 + d) / 10 == n && (n * 10 + d) % 10 == d;
  }

  lemma SecondsAtEsriEndStep()
    ensures IntToDecimal(3 * 8100) == "24300"
  {
    var two := NatToDecimal(2);
    assert two == "2";
    AppendDigit(2, 4);
    AppendDigit(24, 3);
    AppendDigit(243, 0);
    AppendDigit(2430, 0);
    assert NatToDecimal(24300) == two + [DigitChar(4)] + [DigitChar(3)] + [DigitChar(0)] + [DigitChar(0)];
  }

  /** The esri-style end time name with the run's time step: `"0000003-Va"` becomes
      `"24300-Va"`, the leading zeros of the step number are gone. */
  lemma RenameEsriEndStep(prefix: string, rest: string)
    requires prefix == "0000003" && rest == "Va"
    ensures '-' in prefix + "-" + rest
    ensures RenamedColumnName(prefix + "-" + rest, 8100) == Ok("24300-" + rest)
  {
    assert '-' !in prefix by {
      assert forall i :: 0 <= i < |prefix| ==> prefix[i] == '0' || prefix[i] == '3';
    }
    EsriEndStepNumber();
    RenamedNameShape(prefix, rest, 8100, 3);
    SecondsAtEsriEndStep();
    assert Without(rest, '-') == rest by {
      assert Without(rest[1..], '-') == rest[1..];
    }
    assert "24300" + "-" == "24300-";
  }

  /** No renamed name starts with a zero that is followed by anything but a dash: the step
      number is written back without leading zeros. So a name such as `0000003-Va` is never
      the new name of a column. */
  lemma RenamedNamesHaveNoLeadingZero(name: string, timeStep: int, other: string)
    requires '-' in other && |other| > 1 && other[0] == '0' && other[1] != '-'
    ensures NewName(name, timeStep) != Ok(other)
  {
    if '-' in name {
      var parts := Split(name, '-');
      match ParseInt(parts[0])
      case None =>
      case Some(k) =>
        var seconds := k * timeStep;
        var digits := IntToDecimal(seconds);
        var renamed := digits + "-" + Join("", parts[1..]);
        assert RenamedColumnName(name, timeStep) == Ok(renamed);
        if seconds < 0 {
          assert renamed[0] == '-';
        } else if seconds == 0 {
          assert digits == "0";
          assert renamed[1] == '-';
        } else {
          assert renamed[0] == NatToDecimal(seconds)[0] != '0';
        }
    }
  }

  // ---------------------------------------------------------------------------------------
  // Filling a frame from the HDF5 results

  /** One dataset of an HDF5 group: a two-dimensional array, stored column by column. */
  datatype Dataset = Dataset(columns: seq<seq<real>>)

  /** A member of an HDF5 group: its name and its dataset. */
  datatype H5Entry = H5Entry(key: string, data: Dataset)

  const InvalidIntMessage := "invalid literal for int() with base 10"
  const IndexOutOfRangeMessage := "Index out of range"

  /** `int(key)` for every member, in the group's order; ValueError when one of the names is
      not an integer. */
  function NumericKeys(group: seq<H5Entry>): (r: Result<seq<real>>)
    ensures r.Ok? <==> forall i :: 0 <= i < |group| ==> ParseInt(group[i].key).Some?
    ensures r.Err? ==> r == Err(ValueError(InvalidIntMessage))
    ensures r.Ok? ==> |r.value| == |group|
    ensures r.Ok? ==> forall i :: 0 <= i < |group| ==> r.value[i] == ParseInt(group[i].key).value as real
  {
    if forall i :: 0 <= i < |group| ==> ParseInt(group[i].key).Some? then
      Ok(seq(|group|, i requires 0 <= i < |group| => ParseInt(group[i].key).value as real))
    else
      Err(ValueError(InvalidIntMessage))
  }

  /** The order in which `sorted(group.keys(), key=int)` lists the members: every member
      once, by non-decreasing integer value of its name. */
  function KeyOrder(group: seq<H5Entry>): (r: Result<seq<nat>>)
    ensures r.Ok? <==> NumericKeys(group).Ok?
    ensures r.Err? ==> r == Err(ValueError(InvalidIntMessage))
    ensures r.Ok? ==> |r.value| == |group| && multiset(r.value) == multiset(Range(|group|))
    ensures r.Ok? ==> forall k :: 0 <= k < |r.value| ==> r.value[k] < |group|
    ensures r.Ok? ==> forall a, b :: 0 <= a < b < |group| ==>
      ParseInt(group[r.value[a]].key).value <= ParseInt(group[r.value[b]].key).value
  {
    var keys :- NumericKeys(group);
    var order := StableSortOrder(keys);
    assert forall a, b :: 0 <= a < b < |group| ==> keys[order[a]] <= keys[order[b]];
    Ok(order)
  }

  /** `dataset[:, j]` as the column `"<key>-<name>"`; IndexError when the dataset has no
      column `j`. */
  function ColumnStep(entry: H5Entry, name: string, j: nat): (r: Result<Column>)
    ensures r.Ok? <==> j < |entry.data.columns|
    ensures r.Ok? ==> r.value == Column(ColumnKey(entry.key, name), entry.data.columns[j])
  {
    if j < |entry.data.columns| then Ok(Column(ColumnKey(entry.key, name), entry.data.columns[j]))
    else Err(IndexError(IndexOutOfRangeMessage))
  }

  /** The assignments made for one member: one per column name, in order. */
  function KeySteps(entry: H5Entry, names: seq<string>): (r: seq<Result<Column>>)
    ensures |r| == |names|
    ensures forall j :: 0 <= j < |names| ==> r[j] == ColumnStep(entry, names[j], j)
  {
    seq(|names|, j requires 0 <= j < |names| => ColumnStep(entry, names[j], j))
  }

  /** The assignments made for the members listed by `order`, in that order. */
  function StepsFor(group: seq<H5Entry>, order: seq<nat>, names: seq<string>): seq<Result<Column>>
    requires forall k :: 0 <= k < |order| ==> order[k] < |group|
  {
    if |order| == 0 then [] else KeySteps(group[order[0]], names) + StepsFor(group, order[1..], names)
  }

  /** What `append_time_series_data_to_geo_data_frame` computes: the assignments for every
      member in numeric key order, carried out on a copy of the base frame. */
  function AppendTimeSeries(base: Table, group: seq<H5Entry>, names: seq<string>): Result<Table> {
    var order :- KeyOrder(group);
    ApplyAssignments(base, StepsFor(group, order, names))
  }

  /** No two (member, column name) choices give the same column name. */
  ghost predicate DistinctColumnKeys(group: seq<H5Entry>, names: seq<string>) {
    forall p, q, j, k ::
      (0 <= p < |group| && 0 <= q < |group| && 0 <= j < |names| && 0 <= k < |names| &&
       ColumnKey(group[p].key, names[j]) == ColumnKey(group[q].key, names[k])) ==> p == q && j == k
  }

  /** The assignment for member `order[k]` and name `j` is one of the steps. */
  lemma {:induction false} StepOfMember(group: seq<H5Entry>, order: seq<nat>, names: seq<string>, k: nat, j: nat)
    returns (i: nat)
    requires forall m :: 0 <= m < |order| ==> order[m] < |group|
    requires k < |order| && j < |names|
    ensures i < |StepsFor(group, order, names)|
    ensures StepsFor(group, order, names)[i] == ColumnStep(group[order[k]], names[j], j)
    decreases k
  {
    var first := KeySteps(group[order[0]], names);
    assert StepsFor(group, order, names) == first + StepsFor(group, order[1..], names);
    if k == 0 {
      i := j;
    } else {
      var later := StepOfMember(group, order[1..], names, k - 1, j);
      i := |first| + later;
    }
  }

  /** With distinct column names, the only assignment to `"<key>-<name>"` of member `p` and
      name `j` is the one that writes that member's dataset column `j`. */
  lemma {:induction false} StepsWriteOwnColumn(group: seq<H5Entry>, order: seq<nat>, names: seq<string>, p: nat, j: nat)
    requires forall m :: 0 <= m < |order| ==> order[m] < |group|
    requires DistinctColumnKeys(group, names) && p < |group| && j < |names|
    ensures forall i ::
      (0 <= i < |StepsFor(group, order, names)| && StepsFor(group, order, names)[i].Ok? &&
       StepsFor(group, order, names)[i].value.name == ColumnKey(group[p].key, names[j])) ==>
        StepsFor(group, order, names)[i] == ColumnStep(group[p], names[j], j)
    decreases |order|
  {
    if |order| > 0 {
      var first := KeySteps(group[order[0]], names);
      var rest := StepsFor(group, order[1..], names);
      StepsWriteOwnColumn(group, order[1..], names, p, j);
      var steps := first + rest;
      assert StepsFor(group, order, names) == steps;
      forall i | 0 <= i < |steps| && steps[i].Ok? && steps[i].value.name == ColumnKey(group[p].key, names[j])
        ensures steps[i] == ColumnStep(group[p], names[j], j)
      {
        if i < |first| {
          assert steps[i] == ColumnStep(group[order[0]], names[i], i);
          assert ColumnKey(group[order[0]].key, names[i]) == ColumnKey(group[p].key, names[j]);
        } else {
          assert steps[i] == rest[i - |first|];
        }
      }
    }
  }

  /** When the column names cannot collide, the finished frame holds, for every member and
      every name, that member's dataset column at the name's index under `"<key>-<name>"`. */
  lemma TimeSeriesColumnValue(base: Table, group: seq<H5Entry>, names: seq<string>, p: nat, j: nat)
    requires AppendTimeSeries(base, group, names).Ok?
    requires DistinctColumnKeys(group, names) && p < |group| && j < |names|
    ensures j < |group[p].data.columns|
    ensures Get(AppendTimeSeries(base, group, names).value, ColumnKey(group[p].key, names[j])) == Ok(group[p].data.columns[j])
  {
    var order := KeyOrder(group).value;
    var steps := StepsFor(group, order, names);
    assert AppendTimeSeries(base, group, names) == ApplyAssignments(base, steps);
    var k := PositionOf(order, |group|, p);
    var i := StepOfMember(group, order, names, k, j);
    assert Fits(steps[i], |base.geometry|);
    StepsWriteOwnColumn(group, order, names, p, j);
    var n := ColumnKey(group[p].key, names[j]);
    assert steps[i].value.name == n;
    AssignedValue(base, steps, n, group[p].data.columns[j]);
  }

  /** The members are taken in numeric order: `"9"` comes before `"10"`, although it sorts
      after it as text. */
  lemma NumericNotLexicographicOrder(group: seq<H5Entry>)
    requires |group| == 2 && group[0].key == "10" && group[1].key == "9"
    ensures KeyOrder(group) == Ok([1, 0])
  {
    assert ParseInt(group[0].key) == Some(10) by {
      AppendDigit(1, 0);
      assert IntToDecimal(10) == group[0].key;
      ParseIntOfIntToDecimal(10);
    }
    assert ParseInt(group[1].key) == Some(9) by {
      assert IntToDecimal(9) == group[1].key;
      ParseIntOfIntToDecimal(9);
    }
    var order := KeyOrder(group).value;
    TwoElementPermutation(order);
  }

  /** The orders of two members are the identity and the swap. */
  lemma TwoElementPermutation(order: seq<nat>)
    requires |order| == 2 && multiset(order) == multiset(Range(2))
    ensures order == [0, 1] || order == [1, 0]
  {
    assert Range(2) == [0, 1];
    assert order == [order[0], order[1]];
    assert order[0] in multiset(order) && order[1] in multiset(order);
  }

  /** `append_time_series_data_to_geo_data_frame`: the keys are sorted by their integer
      value, and for every key and every column name the dataset column at the name's index
      is written to `"<key>-<name>"` of a copy of the base frame. */
  method AppendTimeSeriesDataToGeoDataFrame(base: Table, group: seq<H5Entry>, columnNames: seq<string>)
    returns (r: Result<Table>)
    ensures r == AppendTimeSeries(base, group, columnNames)
  {
    var sorted := KeyOrder(group);
    if sorted.Err? {
      return Err(sorted.error);
    }
    var order := sorted.value;
    ghost var target := ApplyAssignments(base, StepsFor(group, order, columnNames));
    var frame := base;
    assert order[0..] == order;
    for k := 0 to |order|
      invariant ApplyAssignments(frame, StepsFor(group, order[k..], columnNames)) == target
    {
      var entry := group[order[k]];
      assert order[k..][1..] == order[k + 1..];
      ghost var later := StepsFor(group, order[k + 1..], columnNames);
      ApplyConcat(frame, KeySteps(entry, columnNames), later);
      var filled := AppendColumnsOfMember(frame, entry, columnNames);
      if filled.Err? {
        return filled;
      }
      frame := filled.value;
    }
    r := Ok(frame);
  }

  /** The inner `for column_index, column_name in enumerate(column_names)` loop for one member. */
  method AppendColumnsOfMember(frame: Table, entry: H5Entry, columnNames: seq<string>) returns (r: Result<Table>)
    ensures r == ApplyAssignments(frame, KeySteps(entry, columnNames))
  {
    ghost var steps := KeySteps(entry, columnNames);
    var filled := frame;
    assert steps[0..] == steps;
    for j := 0 to |columnNames|
      invariant ApplyAssignments(filled, steps[j..]) == ApplyAssignments(frame, steps)
    {
      assert steps[j..][0] == steps[j] && steps[j..][1..] == steps[j + 1..];
      if j >= |entry.data.columns| {
        return Err(IndexError(IndexOutOfRangeMessage));
      }
      var values := entry.data.columns[j];
      if |values| != |filled.geometry| {
        return Err(ValueError("Length of values does not match length of index"));
      }
      filled := SetColumn(filled, ColumnKey(entry.key, columnNames[j]), values);
    }
    assert steps[|columnNames|..] == [];
    r := Ok(filled);
  }

  // ---------------------------------------------------------------------------------------
  // The same one-dimensional data for every time step

  /** The assignments `df[f"{t}-{name}"] = data`, one per time step, in order. */
  function ConstantSteps(data: seq<real>, name: string, timeSteps: seq<int>): (r: seq<Result<Column>>)
    ensures |r| == |timeSteps|
    ensures forall i :: 0 <= i < |timeSteps| ==> r[i] == Ok(Column(ColumnKey(IntToDecimal(timeSteps[i]), name), data))
  {
    seq(|timeSteps|, i requires 0 <= i < |timeSteps| => Ok(Column(ColumnKey(IntToDecimal(timeSteps[i]), name), data)))
  }

  /** `append_constant_data_per_time_step_to_geo_data_frame`: a copy of the base frame with the
      column `"<t>-<name>"` set to `data` for every time step `t`. */
  method AppendConstantDataPerTimeStepToGeoDataFrame(base: Table, data: seq<real>, columnName: string, timeSteps: seq<int>)
    returns (r: Result<Table>)
    ensures r == ApplyAssignments(base, ConstantSteps(data, columnName, timeSteps))
  {
    ghost var steps := ConstantSteps(data, columnName, timeSteps);
    var frame := base;
    assert steps[0..] == steps;
    for i := 0 to |timeSteps|
      invariant ApplyAssignments(frame, steps[i..]) == ApplyAssignments(base, steps)
    {
      assert steps[i..][0] == steps[i] && steps[i..][1..] == steps[i + 1..];
      if |data| != |frame.geometry| {
        return Err(ValueError("Length of values does not match length of index"));
      }
      frame := SetColumn(frame, ColumnKey(IntToDecimal(timeSteps[i]), columnName), data);
    }
    assert steps[|timeSteps|..] == [];
    r := Ok(frame);
  }

  /** The frame gets a column per time step holding `data`; the call raises ValueError exactly
      when there is a time step and `data` does not have one value per row. */
  lemma ConstantColumns(base: Table, data: seq<real>, name: string, timeSteps: seq<int>)
    ensures var r := ApplyAssignments(base, ConstantSteps(data, name, timeSteps));
      && (r.Ok? <==> |timeSteps| == 0 || |data| == |base.geometry|)
      && (r.Err? ==> r.error == ValueError("Length of values does not match length of index"))
      && (r.Ok? ==> forall i :: 0 <= i < |timeSteps| ==> Get(r.value, ColumnKey(IntToDecimal(timeSteps[i]), name)) == Ok(data))
  {
    var steps := ConstantSteps(data, name, timeSteps);
    var r := ApplyAssignments(base, steps);
    if r.Ok? {
      forall i | 0 <= i < |timeSteps| ensures Get(r.value, ColumnKey(IntToDecimal(timeSteps[i]), name)) == Ok(data) {
        AssignedValue(base, steps, ColumnKey(IntToDecimal(timeSteps[i]), name), data);
      }
    } else if |timeSteps| > 0 {
      assert !Fits(steps[0], |base.geometry|);
      AssignmentsFailAtFirstUnfit(base, steps, 0);
    }
  }
}
