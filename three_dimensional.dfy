/** The three-dimensional evaluation: the simulated bottom change of every mesh element and
    the measured change of every difference-of-DEMs polygon are labelled deposition, erosion or
    stable, the two labels of every piece of their union are compared, and the eroded and
    deposited volumes are summed over the simulated labels. */
module ThreeDimensional {
  import opened Common
  import opened Frames

  const Deposition: Cell := Text("deposition")
  const Erosion: Cell := Text("erosion")
  const Stable: Cell := Text("stable")
  const Identical: Cell := Text("identical")
  const Different: Cell := Text("different")

  /** A column the comparisons below accept: numbers, NaN and `None`, the last two comparing
      false; a text cell makes pandas raise TypeError. */
  ghost predicate ComparableColumn(cells: seq<Cell>) {
    forall i :: 0 <= i < |cells| ==> !cells[i].Text?
  }

  /** `column > bound`, row by row; NaN and `None` compare false. */
  function GreaterThan(cells: seq<Cell>, bound: real): (mask: seq<bool>)
    ensures |mask| == |cells| && forall i :: 0 <= i < |cells| ==> (mask[i] <==> cells[i].Num? && cells[i].r > bound)
  {
    seq(|cells|, i requires 0 <= i < |cells| => cells[i].Num? && cells[i].r > bound)
  }

  /** `column < bound`, row by row; NaN and `None` compare false. */
  function LessThan(cells: seq<Cell>, bound: real): (mask: seq<bool>)
    ensures |mask| == |cells| && forall i :: 0 <= i < |cells| ==> (mask[i] <==> cells[i].Num? && cells[i].r < bound)
  {
    seq(|cells|, i requires 0 <= i < |cells| => cells[i].Num? && cells[i].r < bound)
  }

  /** `(column >= low) & (column <= high)`, row by row; NaN and `None` compare false. */
  function Within(cells: seq<Cell>, low: real, high: real): (mask: seq<bool>)
    ensures |mask| == |cells| && forall i :: 0 <= i < |cells| ==> (mask[i] <==> cells[i].Num? && low <= cells[i].r <= high)
  {
    seq(|cells|, i requires 0 <= i < |cells| => cells[i].Num? && low <= cells[i].r <= high)
  }

  /** `column == value`, row by row: only a number equal to `value` matches. */
  function EqualTo(cells: seq<Cell>, value: real): (mask: seq<bool>)
    ensures |mask| == |cells| && forall i :: 0 <= i < |cells| ==> (mask[i] <==> cells[i] == Num(value))
  {
    seq(|cells|, i requires 0 <= i < |cells| => cells[i] == Num(value))
  }

  // ---------------------------------------------------------------------------------------
  // The simulated change

  /** The simulated label an element ends with, stated by the band its change falls in:
      stable within 0.1 either way, erosion below -0.1, deposition above 0.1, and no label
      for NaN. */
  function SimulatedLabel(deltaZ: Cell): (tag: Cell)
    ensures deltaZ.Num? && deltaZ.r > 0.1 ==> tag == Deposition
    ensures deltaZ.Num? && deltaZ.r < -0.1 ==> tag == Erosion
    ensures deltaZ.Num? && -0.1 <= deltaZ.r <= 0.1 ==> tag == Stable
    ensures !deltaZ.Num? ==> tag == Null
  {
    if !deltaZ.Num? then Null
    else if deltaZ.r > 0.1 then Deposition
    else if deltaZ.r < -0.1 then Erosion
    else Stable
  }

  /** Every element with a number as its change gets one of the three labels. */
  lemma EveryChangeIsLabelled(deltaZ: Cell)
    requires deltaZ.Num?
    ensures SimulatedLabel(deltaZ) in {Deposition, Erosion, Stable}
    ensures SimulatedLabel(deltaZ) != Null
  {
  }

  function SimulatedLabels(deltaZ: seq<Cell>): (labels: seq<Cell>)
    ensures |labels| == |deltaZ| && forall i :: 0 <= i < |deltaZ| ==> labels[i] == SimulatedLabel(deltaZ[i])
  {
    seq(|deltaZ|, i requires 0 <= i < |deltaZ| => SimulatedLabel(deltaZ[i]))
  }

  /** The three writes of the labelling, in the order the code makes them, leave every element
      with its band's label: the stable band, written last, overrides the deposition and
      erosion labels of changes between 0.01 and 0.1 in size. */
  lemma {:induction false} LaterWritesOverride(deltaZ: seq<Cell>)
    ensures
      var afterDeposition := Masked(Nulls(|deltaZ|), GreaterThan(deltaZ, 0.01), Deposition);
      var afterErosion := Masked(afterDeposition, LessThan(deltaZ, -0.01), Erosion);
      Masked(afterErosion, Within(deltaZ, -0.1, 0.1), Stable) == SimulatedLabels(deltaZ)
  {
    var afterDeposition := Masked(Nulls(|deltaZ|), GreaterThan(deltaZ, 0.01), Deposition);
    var afterErosion := Masked(afterDeposition, LessThan(deltaZ, -0.01), Erosion);
    var final := Masked(afterErosion, Within(deltaZ, -0.1, 0.1), Stable);
    forall i | 0 <= i < |deltaZ| ensures final[i] == SimulatedLabels(deltaZ)[i] {
      if deltaZ[i].Num? {
        var d := deltaZ[i].r;
        if d > 0.1 {
          assert !(d < -0.01) && !(-0.1 <= d <= 0.1) && d > 0.01;
        } else if d < -0.1 {
          assert d < -0.01 && !(-0.1 <= d <= 0.1);
        }
      }
    }
  }

  /** Lines 15-21 of `create_union_of_dod_and_simulated_dz_mesh`: `dz_sim` is set to `None`
      and then labelled from `delta_z`. KeyError when the mesh has no `delta_z`, TypeError when
      it holds a text cell; in both cases `dz_sim` has been set to `None`. */
  method LabelSimulatedChange(mesh: GeoFrame) returns (o: Outcome)
    requires mesh.Valid()
    modifies mesh
    ensures mesh.Valid() && mesh.index == old(mesh.index) && mesh.geometry == old(mesh.geometry)
    ensures "delta_z" !in old(mesh.columns) ==>
      o == Fail(KeyError("delta_z")) && mesh.columns == old(mesh.columns)["dz_sim" := Nulls(|mesh.geometry|)]
    ensures "delta_z" in old(mesh.columns) && !ComparableColumn(old(mesh.columns)["delta_z"]) ==>
      o == Fail(TypeError("")) && mesh.columns == old(mesh.columns)["dz_sim" := Nulls(|mesh.geometry|)]
    ensures "delta_z" in old(mesh.columns) && ComparableColumn(old(mesh.columns)["delta_z"]) ==>
      o == Pass && mesh.columns == old(mesh.columns)["dz_sim" := SimulatedLabels(old(mesh.columns)["delta_z"])]
  {
    mesh.SetColumn("dz_sim", Nulls(|mesh.geometry|));
    if "delta_z" !in mesh.columns {
      return Fail(KeyError("delta_z"));
    }
    var deltaZ := mesh.columns["delta_z"];
    if !(forall i :: 0 <= i < |deltaZ| ==> !deltaZ[i].Text?) {
      return Fail(TypeError(""));
    }
    mesh.SetWhere("dz_sim", GreaterThan(deltaZ, 0.01), Deposition);
    mesh.SetWhere("dz_sim", LessThan(deltaZ, -0.01), Erosion);
    mesh.SetWhere("dz_sim", Within(deltaZ, -0.1, 0.1), Stable);
    LaterWritesOverride(deltaZ);
    o := Pass;
  }

  // ---------------------------------------------------------------------------------------
  // The measured change

  /** The measured label of a polygon: gridcode 1 is deposition, -1 erosion, 0 stable; any
      other gridcode, or a missing one, leaves `None`. */
  function MeasuredLabel(gridcode: Cell): (tag: Cell)
    ensures gridcode == Num(1.0) ==> tag == Deposition
    ensures gridcode == Num(-1.0) ==> tag == Erosion
    ensures gridcode == Num(0.0) ==> tag == Stable
    ensures tag == Null <==> gridcode !in {Num(1.0), Num(-1.0), Num(0.0)}
  {
    if gridcode == Num(1.0) then Deposition
    else if gridcode == Num(-1.0) then Erosion
    else if gridcode == Num(0.0) then Stable
    else Null
  }

  function MeasuredLabels(gridcodes: seq<Cell>): (labels: seq<Cell>)
    ensures |labels| == |gridcodes| && forall i :: 0 <= i < |gridcodes| ==> labels[i] == MeasuredLabel(gridcodes[i])
  {
    seq(|gridcodes|, i requires 0 <= i < |gridcodes| => MeasuredLabel(gridcodes[i]))
  }

  /** The three gridcode writes select disjoint rows, so their order does not matter. */
  lemma {:induction false} GridcodeWrites(gridcodes: seq<Cell>)
    ensures
      var afterDeposition := Masked(Nulls(|gridcodes|), EqualTo(gridcodes, 1.0), Deposition);
      var afterErosion := Masked(afterDeposition, EqualTo(gridcodes, -1.0), Erosion);
      Masked(afterErosion, EqualTo(gridcodes, 0.0), Stable) == MeasuredLabels(gridcodes)
  {
    var afterDeposition := Masked(Nulls(|gridcodes|), EqualTo(gridcodes, 1.0), Deposition);
    var afterErosion := Masked(afterDeposition, EqualTo(gridcodes, -1.0), Erosion);
    var final := Masked(afterErosion, EqualTo(gridcodes, 0.0), Stable);
    forall i | 0 <= i < |gridcodes| ensures final[i] == MeasuredLabels(gridcodes)[i] {
    }
  }

  /** Lines 23-28: `dz_dod` is set to `None` and then labelled from `gridcode`; KeyError,
      after the `None` column is written, when the polygons have no `gridcode`. */
  method LabelMeasuredChange(dod: GeoFrame) returns (o: Outcome)
    requires dod.Valid()
    modifies dod
    ensures dod.Valid() && dod.index == old(dod.index) && dod.geometry == old(dod.geometry)
    ensures "gridcode" !in old(dod.columns) ==>
      o == Fail(KeyError("gridcode")) && dod.columns == old(dod.columns)["dz_dod" := Nulls(|dod.geometry|)]
    ensures "gridcode" in old(dod.columns) ==>
      o == Pass && dod.columns == old(dod.columns)["dz_dod" := MeasuredLabels(old(dod.columns)["gridcode"])]
  {
    dod.SetColumn("dz_dod", Nulls(|dod.geometry|));
    if "gridcode" !in dod.columns {
      return Fail(KeyError("gridcode"));
    }
    var gridcodes := dod.columns["gridcode"];
    dod.SetWhere("dz_dod", EqualTo(gridcodes, 1.0), Deposition);
    dod.SetWhere("dz_dod", EqualTo(gridcodes, -1.0), Erosion);
    dod.SetWhere("dz_dod", EqualTo(gridcodes, 0.0), Stable);
    GridcodeWrites(gridcodes);
    o := Pass;
  }

  // ---------------------------------------------------------------------------------------
  // Comparing the two labels on the union

  /** A label column of the union: text, `None`, or NaN where a piece lies outside one of the
      two frames. */
  ghost predicate LabelColumn(cells: seq<Cell>) {
    forall i :: 0 <= i < |cells| ==> cells[i].Text? || cells[i].Null? || cells[i].Nan?
  }

  /** `None` and NaN are missing values. */
  predicate Missing(c: Cell) {
    c.Null? || c.Nan?
  }

  /** `dz_dod == dz_sim` on one row: a missing value equals nothing, not even another
      missing value. */
  predicate SameLabel(dod: Cell, sim: Cell) {
    !Missing(dod) && !Missing(sim) && dod == sim
  }

  /** `dz_dod + "(dz dod) vs " + dz_sim + "(dz sim)"` on one row: missing when either label
      is missing. */
  function DodVsSim(dod: Cell, sim: Cell): (r: Cell)
    requires dod.Text? || Missing(dod)
    requires sim.Text? || Missing(sim)
    ensures Missing(dod) || Missing(sim) ==> r == Nan
    ensures dod.Text? && sim.Text? ==> r == Text(dod.s + "(dz dod) vs " + sim.s + "(dz sim)")
  {
    if Missing(dod) || Missing(sim) then Nan else Text(dod.s + "(dz dod) vs " + sim.s + "(dz sim)")
  }

  /** The comparison a row ends with: identical when the two labels are the same, different
      in every other case. */
  function Comparison(dod: Cell, sim: Cell): (r: Cell)
    ensures r == Identical <==> SameLabel(dod, sim)
    ensures r == Different <==> !SameLabel(dod, sim)
  {
    if SameLabel(dod, sim) then Identical else Different
  }

  /** Every row of the union gets exactly one of the two comparison values. */
  lemma ComparisonIsOneOfTwo(dod: Cell, sim: Cell)
    ensures Comparison(dod, sim) in {Identical, Different}
    ensures !(Comparison(dod, sim) == Identical && Comparison(dod, sim) == Different)
  {
  }

  function SameLabels(dod: seq<Cell>, sim: seq<Cell>): (mask: seq<bool>)
    requires |dod| == |sim|
    ensures |mask| == |dod| && forall i :: 0 <= i < |dod| ==> (mask[i] <==> SameLabel(dod[i], sim[i]))
  {
    seq(|dod|, i requires 0 <= i < |dod| => SameLabel(dod[i], sim[i]))
  }

  function OtherLabels(dod: seq<Cell>, sim: seq<Cell>): (mask: seq<bool>)
    requires |dod| == |sim|
    ensures |mask| == |dod| && forall i :: 0 <= i < |dod| ==> (mask[i] <==> !SameLabel(dod[i], sim[i]))
  {
    seq(|dod|, i requires 0 <= i < |dod| => !SameLabel(dod[i], sim[i]))
  }

  function DodVsSimColumn(dod: seq<Cell>, sim: seq<Cell>): (r: seq<Cell>)
    requires |dod| == |sim| && LabelColumn(dod) && LabelColumn(sim)
    ensures |r| == |dod| && forall i :: 0 <= i < |dod| ==> r[i] == DodVsSim(dod[i], sim[i])
  {
    seq(|dod|, i requires 0 <= i < |dod| => DodVsSim(dod[i], sim[i]))
  }

  function ComparisonColumn(dod: seq<Cell>, sim: seq<Cell>): (r: seq<Cell>)
    requires |dod| == |sim|
    ensures |r| == |dod| && forall i :: 0 <= i < |dod| ==> r[i] == Comparison(dod[i], sim[i])
  {
    seq(|dod|, i requires 0 <= i < |dod| => Comparison(dod[i], sim[i]))
  }

  /** The two comparison writes: `None`, then identical where the labels agree, then
      different where they do not. */
  lemma {:induction false} ComparisonWrites(dod: seq<Cell>, sim: seq<Cell>)
    requires |dod| == |sim|
    ensures
      var afterIdentical := Masked(Nulls(|dod|), SameLabels(dod, sim), Identical);
      Masked(afterIdentical, OtherLabels(dod, sim), Different) == ComparisonColumn(dod, sim)
  {
    var afterIdentical := Masked(Nulls(|dod|), SameLabels(dod, sim), Identical);
    var final := Masked(afterIdentical, OtherLabels(dod, sim), Different);
    forall i | 0 <= i < |dod| ensures final[i] == ComparisonColumn(dod, sim)[i] {
    }
  }

  /** Lines 38-49, on the union of the labelled polygons and mesh elements: `dod_vs_sim`
      joins the two labels, and `comparison` says whether they agree. KeyError when either
      label column is missing, `dz_dod` first; then nothing is written. */
  method CompareLabels(union: GeoFrame) returns (o: Outcome)
    requires union.Valid()
    requires "dz_dod" in union.columns ==> LabelColumn(union.columns["dz_dod"])
    requires "dz_sim" in union.columns ==> LabelColumn(union.columns["dz_sim"])
    modifies union
    ensures union.Valid() && union.index == old(union.index) && union.geometry == old(union.geometry)
    ensures "dz_dod" !in old(union.columns) ==> o == Fail(KeyError("dz_dod")) && union.columns == old(union.columns)
    ensures "dz_dod" in old(union.columns) && "dz_sim" !in old(union.columns) ==>
      o == Fail(KeyError("dz_sim")) && union.columns == old(union.columns)
    ensures "dz_dod" in old(union.columns) && "dz_sim" in old(union.columns) ==>
      var dod, sim := old(union.columns)["dz_dod"], old(union.columns)["dz_sim"];
      && o == Pass
      && union.columns == old(union.columns)["dod_vs_sim" := DodVsSimColumn(dod, sim)]["comparison" := ComparisonColumn(dod, sim)]
  {
    if "dz_dod" !in union.columns {
      return Fail(KeyError("dz_dod"));
    }
    if "dz_sim" !in union.columns {
      return Fail(KeyError("dz_sim"));
    }
    var dod, sim := union.columns["dz_dod"], union.columns["dz_sim"];
    union.SetColumn("dod_vs_sim", DodVsSimColumn(dod, sim));
    union.SetColumn("comparison", Nulls(|union.geometry|));
    union.SetWhere("comparison", SameLabels(dod, sim), Identical);
    union.SetWhere("comparison", OtherLabels(dod, sim), Different);
    ComparisonWrites(dod, sim);
    o := Pass;
  }

  // ---------------------------------------------------------------------------------------
  // Volumes

  /** The rows whose simulated label is `label`. */
  function Selection(dzSim: seq<Cell>, tag: Cell): (rows: set<int>)
    ensures forall i :: i in rows <==> 0 <= i < |dzSim| && dzSim[i] == tag
  {
    set i | 0 <= i < |dzSim| && dzSim[i] == tag
  }

  /** The sum of the volumes of the rows with label `label`, as `sum(selection["volume"])`. */
  function SumOfVolumes(dzSim: seq<Cell>, volume: seq<real>, tag: Cell): (r: real)
    requires |dzSim| == |volume|
    ensures (forall i :: 0 <= i < |dzSim| ==> dzSim[i] != tag) ==> r == 0.0
    ensures (forall i :: 0 <= i < |dzSim| ==> dzSim[i] == tag) ==> r == Total(volume)
    ensures (forall i :: 0 <= i < |volume| ==> volume[i] >= 0.0) ==> 0.0 <= r <= Total(volume)
  {
    if |dzSim| == 0 then 0.0
    else
      var n := |dzSim| - 1;
      SumOfVolumes(dzSim[..n], volume[..n], tag) + (if dzSim[n] == tag then volume[n] else 0.0)
  }

  /** `calculate_eroded_volume`. */
  function CalculateErodedVolume(dzSim: seq<Cell>, volume: seq<real>): (r: real)
    requires |dzSim| == |volume|
    ensures Selection(dzSim, Erosion) == {} ==> r == 0.0
    ensures (forall i :: 0 <= i < |dzSim| ==> dzSim[i] == Erosion) ==> r == Total(volume)
    ensures (forall i :: 0 <= i < |volume| ==> volume[i] >= 0.0) ==> 0.0 <= r <= Total(volume)
  {
    SumOfVolumes(dzSim, volume, Erosion)
  }

  /** `calculate_deposited_volume`. */
  function CalculateDepositedVolume(dzSim: seq<Cell>, volume: seq<real>): (r: real)
    requires |dzSim| == |volume|
    ensures Selection(dzSim, Deposition) == {} ==> r == 0.0
    ensures (forall i :: 0 <= i < |dzSim| ==> dzSim[i] == Deposition) ==> r == Total(volume)
    ensures (forall i :: 0 <= i < |volume| ==> volume[i] >= 0.0) ==> 0.0 <= r <= Total(volume)
  {
    SumOfVolumes(dzSim, volume, Deposition)
  }

  /** No row counts as both eroded and deposited. */
  lemma VolumeSelectionsDisjoint(dzSim: seq<Cell>)
    ensures Selection(dzSim, Erosion) * Selection(dzSim, Deposition) == {}
  {
    assert Erosion != Deposition;
  }

  /** The sum of the volumes of all rows. */
  function Total(volume: seq<real>): real {
    if |volume| == 0 then 0.0 else Total(volume[..|volume| - 1]) + volume[|volume| - 1]
  }

  /** The sum of the volumes of the rows with neither label. */
  function SumOfUnlabelledVolumes(dzSim: seq<Cell>, volume: seq<real>): real
    requires |dzSim| == |volume|
  {
    if |dzSim| == 0 then 0.0
    else
      var n := |dzSim| - 1;
      SumOfUnlabelledVolumes(dzSim[..n], volume[..n]) + (if dzSim[n] != Erosion && dzSim[n] != Deposition then volume[n] else 0.0)
  }

  /** Because the selections are disjoint, the eroded volume, the deposited volume and the
      volume of the other rows add up to the total: no row is counted twice or lost. */
  lemma {:induction false} VolumesPartitionTotal(dzSim: seq<Cell>, volume: seq<real>)
    requires |dzSim| == |volume|
    ensures CalculateErodedVolume(dzSim, volume) + CalculateDepositedVolume(dzSim, volume) +
      SumOfUnlabelledVolumes(dzSim, volume) == Total(volume)
    decreases |dzSim|
  {
    if |dzSim| > 0 {
      var n := |dzSim| - 1;
      VolumesPartitionTotal(dzSim[..n], volume[..n]);
      assert Erosion != Deposition;
    }
  }

  /** With no volume negative, neither sum exceeds the total. */
  lemma VolumesBoundedByTotal(dzSim: seq<Cell>, volume: seq<real>)
    requires |dzSim| == |volume| && forall i :: 0 <= i < |volume| ==> volume[i] >= 0.0
    ensures 0.0 <= CalculateErodedVolume(dzSim, volume) && 0.0 <= CalculateDepositedVolume(dzSim, volume)
    ensures CalculateErodedVolume(dzSim, volume) + CalculateDepositedVolume(dzSim, volume) <= Total(volume)
  {
    VolumesPartitionTotal(dzSim, volume);
    NonNegativeSums(dzSim, volume);
  }

  lemma {:induction false} NonNegativeSums(dzSim: seq<Cell>, volume: seq<real>)
    requires |dzSim| == |volume| && forall i :: 0 <= i < |volume| ==> volume[i] >= 0.0
    ensures 0.0 <= CalculateErodedVolume(dzSim, volume) && 0.0 <= CalculateDepositedVolume(dzSim, volume)
    ensures 0.0 <= SumOfUnlabelledVolumes(dzSim, volume)
    decreases |dzSim|
  {
    if |dzSim| > 0 {
      var n := |dzSim| - 1;
      NonNegativeSums(dzSim[..n], volume[..n]);
    }
  }
}
