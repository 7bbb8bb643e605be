/** The small rules of the evaluation of the conducted experiments: the inclusive range of
    time stamps, the names of the material indices, the lookup mapping per flood scenario and
    the binning of the dewatering speed. */
module ConductedExperiments {
  import opened Common
  import opened Text
  import opened Frames
  import opened SummarisingMesh
  import opened Containers
  import ThreeDimensional

  // ---------------------------------------------------------------------------------------
  // inclusive_range

  /** Whether `i` lies strictly before `stop` in the direction of `step`. */
  predicate Before(i: int, stop: int, step: int) {
    (step > 0 && i < stop) || (step < 0 && i > stop)
  }

  /** Python's `range(start, stop, step)` for a non-zero step: `start` first, every term
      strictly before `stop`, and the term after the last one not; the terms lie `step`
      apart (RangeTerms). */
  function PythonRange(start: int, stop: int, step: int): (r: seq<int>)
    requires step != 0
    ensures |r| > 0 ==> r[0] == start
    ensures forall k :: 0 <= k < |r| ==> Before(r[k], stop, step)
    ensures !Before(if |r| == 0 then start else r[|r| - 1] + step, stop, step)
    decreases if step > 0 then stop - start else start - stop
  {
    if Before(start, stop, step) then [start] + PythonRange(start + step, stop, step) else []
  }

  /** The terms of a range are start + k * step. */
  lemma {:induction false} RangeTerms(start: int, stop: int, step: int)
    requires step != 0
    ensures forall k :: 0 <= k < |PythonRange(start, stop, step)| ==> PythonRange(start, stop, step)[k] == start + k * step
    decreases if step > 0 then stop - start else start - stop
  {
    var r := PythonRange(start, stop, step);
    if Before(start, stop, step) {
      var rest := PythonRange(start + step, stop, step);
      RangeTerms(start + step, stop, step);
      assert r == [start] + rest;
      forall k | 1 <= k < |r| ensures r[k] == start + k * step {
        assert r[k] == rest[k - 1];
        assert rest[k - 1] == start + step + (k - 1) * step;
        assert (k - 1) * step + step == k * step;
      }
    }
  }

  /** Lines 78-81: every term of `range(start, stop, step)`, then `stop`. A zero step makes
      `range` raise ValueError. The generator is drained into a list, as `main` does. */
  method InclusiveRange(start: int, stop: int, step: int) returns (r: Result<seq<int>>)
    ensures step == 0 ==> r == Err(ValueError("range() arg 3 must not be zero"))
    ensures step != 0 ==> r == Ok(PythonRange(start, stop, step) + [stop])
  {
    if step == 0 {
      return Err(ValueError("range() arg 3 must not be zero"));
    }
    var stamps: seq<int> := [];
    var i := start;
    while Before(i, stop, step)
      invariant stamps + PythonRange(i, stop, step) == PythonRange(start, stop, step)
      decreases if step > 0 then stop - i else i - stop
    {
      assert PythonRange(i, stop, step) == [i] + PythonRange(i + step, stop, step);
      stamps := stamps + [i];
      i := i + step;
    }
    assert PythonRange(i, stop, step) == [];
    assert stamps == PythonRange(start, stop, step);
    r := Ok(stamps + [stop]);
  }

  /** `stop` is always the last stamp, and for a positive step it appears only there. */
  lemma StopIsLast(start: int, stop: int, step: int)
    requires step != 0
    ensures var stamps := PythonRange(start, stop, step) + [stop];
      && stamps[|stamps| - 1] == stop
      && (step > 0 ==> forall k :: 0 <= k < |stamps| - 1 ==> stamps[k] < stop)
  {
  }

  /** With a positive step and `start >= stop` the range is empty, so only `stop` remains. */
  lemma {:induction false} EmptyRangeGivesStop(start: int, stop: int, step: int)
    requires step > 0 && start >= stop
    ensures PythonRange(start, stop, step) + [stop] == [stop]
  {
    assert PythonRange(start, stop, step) == [];
  }

  /** Lines 220-222 with the values of `main` at lines 581-582: a simulation of 243000 s
      sampled every 8100 s is evaluated at 31 stamps, 0, 8100, ..., 243000. */
  lemma {:induction false} MainTimeStamps(simulationTimeInSeconds: int, sampleTimeStepWidth: int)
    requires simulationTimeInSeconds == 243000 && sampleTimeStepWidth == 8100
    ensures var stamps := PythonRange(0, simulationTimeInSeconds, sampleTimeStepWidth) + [simulationTimeInSeconds];
      && |stamps| == 31
      && (forall k :: 0 <= k < 31 ==> stamps[k] == k * 8100)
  {
    var range := PythonRange(0, simulationTimeInSeconds, sampleTimeStepWidth);
    RangeTerms(0, simulationTimeInSeconds, sampleTimeStepWidth);
    assert |range| > 0 by {
      assert Before(0, simulationTimeInSeconds, sampleTimeStepWidth);
    }
    var n := |range|;
    assert range[n - 1] == (n - 1) * 8100 < 243000;
    assert range[n - 1] + 8100 >= 243000;
    assert n == 30;
  }

  // ---------------------------------------------------------------------------------------
  // _map_material_index_to_name

  /** Lines 91-104: the name of a material index; NotImplementedError carrying the index for
      every other value. */
  function MapMaterialIndexToName(index: int): (r: Result<string>)
    ensures r == Ok("water") <==> index in {1, 5, 8}
    ensures r == Ok("gravel") <==> index == 2
    ensures r == Ok("vegetation") <==> index in {3, 4, 6, 7}
    ensures r.Err? <==> !(1 <= index <= 8)
    ensures r.Err? ==> r.error == NotImplementedError(IntToDecimal(index))
  {
    if index == 1 then Ok("water")
    else if index == 5 then Ok("water")
    else if index == 8 then Ok("water")
    else if index == 2 then Ok("gravel")
    else if 3 <= index <= 4 then Ok("vegetation")
    else if 6 <= index <= 7 then Ok("vegetation")
    else Err(NotImplementedError(IntToDecimal(index)))
  }

  // ---------------------------------------------------------------------------------------
  // derive_columns_to_lookup_from_flood_scenario

  /** Lines 457-465: the before-flood mapping for `bf_2020`, the after-flood mapping for
      `af_2020`, NotImplementedError otherwise. */
  function DeriveColumnsToLookupFromFloodScenario(
    beforeFloodMapping: StateToNameInShapeFileMapping,
    afterFloodMapping: StateToNameInShapeFileMapping,
    floodScenario: BeforeOrAfterFloodScenario): (r: Result<StateToNameInShapeFileMapping>)
    ensures floodScenario == Bf2020 ==> r == Ok(beforeFloodMapping)
    ensures floodScenario == Af2020 ==> r == Ok(afterFloodMapping)
    ensures r.Err? <==> floodScenario.OtherScenario?
    ensures r.Err? ==> r.error.NotImplementedError?
  {
    match floodScenario
    case Bf2020 => Ok(beforeFloodMapping)
    case Af2020 => Ok(afterFloodMapping)
    case OtherScenario(_) => Err(NotImplementedError(""))
  }

  /** With the mappings `main` builds at lines 218-219, the scenario chooses the names of
      time step 0 or of the last time step. */
  lemma ScenarioChoosesTimeStep(simulationTimeInSeconds: int, floodScenario: BeforeOrAfterFloodScenario)
    requires !floodScenario.OtherScenario?
    ensures var r := DeriveColumnsToLookupFromFloodScenario(
        DefaultStateToNameInShapeFileMapping(0),
        DefaultStateToNameInShapeFileMapping(simulationTimeInSeconds), floodScenario);
      r == Ok(DefaultStateToNameInShapeFileMapping(if floodScenario == Bf2020 then 0 else simulationTimeInSeconds))
  {
  }

  // ---------------------------------------------------------------------------------------
  // The dewatering-speed bins

  const SpeedSmall: Cell := Text("0 - 10")
  const SpeedModerate: Cell := Text("10.1 - 20")
  const SpeedBig: Cell := Text("20.1 - 30")
  const SpeedVeryBig: Cell := Text("> 30")

  /** `(column < high) & (column >= low)`, row by row; NaN and `None` compare false. */
  function Band(cells: seq<Cell>, low: real, high: real): (mask: seq<bool>)
    ensures |mask| == |cells| && forall i :: 0 <= i < |cells| ==> (mask[i] <==> cells[i].Num? && low <= cells[i].r < high)
  {
    seq(|cells|, i requires 0 <= i < |cells| => cells[i].Num? && low <= cells[i].r < high)
  }

  /** The class of a mean dewatering speed in cm/h, by the band it falls in; a rising or
      steady level, NaN and `None` get no class. */
  function SpeedClass(speed: Cell): (c: Cell)
    ensures speed.Num? && speed.r < -30.0 ==> c == SpeedVeryBig
    ensures speed.Num? && -30.0 <= speed.r < -20.0 ==> c == SpeedBig
    ensures speed.Num? && -20.0 <= speed.r < -10.0 ==> c == SpeedModerate
    ensures speed.Num? && -10.0 <= speed.r < 0.0 ==> c == SpeedSmall
    ensures c == Null <==> !(speed.Num? && speed.r < 0.0)
  {
    if !speed.Num? || speed.r >= 0.0 then Null
    else if speed.r < -30.0 then SpeedVeryBig
    else if speed.r < -20.0 then SpeedBig
    else if speed.r < -10.0 then SpeedModerate
    else SpeedSmall
  }

  function SpeedClasses(speeds: seq<Cell>): (classes: seq<Cell>)
    ensures |classes| == |speeds| && forall i :: 0 <= i < |speeds| ==> classes[i] == SpeedClass(speeds[i])
  {
    seq(|speeds|, i requires 0 <= i < |speeds| => SpeedClass(speeds[i]))
  }

  /** The four conditions of lines 252-256 are pairwise disjoint: no speed satisfies two. */
  lemma SpeedBinsDisjoint(speeds: seq<Cell>, i: int)
    requires 0 <= i < |speeds|
    ensures var veryBig, big := ThreeDimensional.LessThan(speeds, -30.0)[i], Band(speeds, -30.0, -20.0)[i];
      var moderate, small := Band(speeds, -20.0, -10.0)[i], Band(speeds, -10.0, 0.0)[i];
      && !(veryBig && big) && !(veryBig && moderate) && !(veryBig && small)
      && !(big && moderate) && !(big && small) && !(moderate && small)
  {
  }

  /** The four writes of lines 259-262, in their order, leave every row with its band's
      class; since the bands are disjoint, no write overrides another. */
  lemma {:induction false} SpeedWrites(speeds: seq<Cell>)
    ensures
      var afterSmall := Masked(Nulls(|speeds|), Band(speeds, -10.0, 0.0), SpeedSmall);
      var afterModerate := Masked(afterSmall, Band(speeds, -20.0, -10.0), SpeedModerate);
      var afterBig := Masked(afterModerate, Band(speeds, -30.0, -20.0), SpeedBig);
      Masked(afterBig, ThreeDimensional.LessThan(speeds, -30.0), SpeedVeryBig) == SpeedClasses(speeds)
  {
    var afterSmall := Masked(Nulls(|speeds|), Band(speeds, -10.0, 0.0), SpeedSmall);
    var afterModerate := Masked(afterSmall, Band(speeds, -20.0, -10.0), SpeedModerate);
    var afterBig := Masked(afterModerate, Band(speeds, -30.0, -20.0), SpeedBig);
    var final := Masked(afterBig, ThreeDimensional.LessThan(speeds, -30.0), SpeedVeryBig);
    forall i | 0 <= i < |speeds| ensures final[i] == SpeedClasses(speeds)[i] {
    }
  }

  /** Lines 252-263: `speed` is set to `None` and then classified from `avg_cm/h`. KeyError
      when the mesh has no `avg_cm/h`, TypeError when it holds a text cell;
      both are raised before `speed` is written. */
  method ClassifyDewateringSpeed(dewateringMesh: GeoFrame) returns (o: Outcome)
    requires dewateringMesh.Valid()
    modifies dewateringMesh
    ensures dewateringMesh.Valid()
    ensures dewateringMesh.index == old(dewateringMesh.index) && dewateringMesh.geometry == old(dewateringMesh.geometry)
    ensures "avg_cm/h" !in old(dewateringMesh.columns) ==>
      o == Fail(KeyError("avg_cm/h")) && dewateringMesh.columns == old(dewateringMesh.columns)
    ensures "avg_cm/h" in old(dewateringMesh.columns) && !ThreeDimensional.ComparableColumn(old(dewateringMesh.columns)["avg_cm/h"]) ==>
      o == Fail(TypeError("")) && dewateringMesh.columns == old(dewateringMesh.columns)
    ensures "avg_cm/h" in old(dewateringMesh.columns) && ThreeDimensional.ComparableColumn(old(dewateringMesh.columns)["avg_cm/h"]) ==>
      o == Pass && dewateringMesh.columns == old(dewateringMesh.columns)["speed" := SpeedClasses(old(dewateringMesh.columns)["avg_cm/h"])]
  {
    if "avg_cm/h" !in dewateringMesh.columns {
      return Fail(KeyError("avg_cm/h"));
    }
    var speeds := dewateringMesh.columns["avg_cm/h"];
    if !(forall i :: 0 <= i < |speeds| ==> !speeds[i].Text?) {
      return Fail(TypeError(""));
    }
    dewateringMesh.SetColumn("speed", Nulls(|dewateringMesh.geometry|));
    dewateringMesh.SetWhere("speed", Band(speeds, -10.0, 0.0), SpeedSmall);
    dewateringMesh.SetWhere("speed", Band(speeds, -20.0, -10.0), SpeedModerate);
    dewateringMesh.SetWhere("speed", Band(speeds, -30.0, -20.0), SpeedBig);
    dewateringMesh.SetWhere("speed", ThreeDimensional.LessThan(speeds, -30.0), SpeedVeryBig);
    SpeedWrites(speeds);
    o := Pass;
  }
}
