/** The summarising mesh: one frame over the simulation mesh that gathers, per element, the
    water depth, the water surface and bottom elevations and the flow velocity at the start
    and at the end of a run, and the change of the bottom; and the lookup that gives GPS
    points the values of the first element that contains them. */
module SummarisingMesh {
  import opened Common
  import opened Text
  import opened Frames
  import opened TimeStepColumns

  /** The names of the result columns to read, for the start and the end of a run. */
  datatype StateToNameInShapeFileMapping = StateToNameInShapeFileMapping(
    hydraulicStateT0: string,
    bottomElevationT0: string,
    hydraulicStateTEnd: string,
    bottomElevationTEnd: string,
    flowVelocityT0: string,
    flowVelocityTEnd: string)

  /** The mapping for frames whose columns were renamed to seconds: the start is named by
      second 0, the end by the simulation time. The hydraulic state and the flow velocity
      live in different frames and therefore share their column names. */
  function DefaultStateToNameInShapeFileMapping(simulationTimeInSeconds: int): (m: StateToNameInShapeFileMapping)
    ensures m.hydraulicStateT0 == m.flowVelocityT0 && m.hydraulicStateTEnd == m.flowVelocityTEnd
    ensures m.hydraulicStateT0 == "0-Value" && m.bottomElevationT0 == "0-BottomEl"
    ensures m.hydraulicStateTEnd == IntToDecimal(simulationTimeInSeconds) + "-Value"
    ensures m.bottomElevationTEnd == IntToDecimal(simulationTimeInSeconds) + "-BottomEl"
  {
    var t := IntToDecimal(simulationTimeInSeconds);
    StateToNameInShapeFileMapping(
      "0-Value", "0-BottomEl", ColumnKey(t, "Value"), ColumnKey(t, "BottomEl"), "0-Value", ColumnKey(t, "Value"))
  }

  /** Different simulation times give different end-time names: the name tells the time. */
  lemma DefaultEndNamesTellTheTime(t1: int, t2: int)
    requires t1 != t2
    ensures DefaultStateToNameInShapeFileMapping(t1).hydraulicStateTEnd != DefaultStateToNameInShapeFileMapping(t2).hydraulicStateTEnd
    ensures DefaultStateToNameInShapeFileMapping(t1).bottomElevationTEnd != DefaultStateToNameInShapeFileMapping(t2).bottomElevationTEnd
  {
    var d1, d2 := IntToDecimal(t1), IntToDecimal(t2);
    ParseIntOfIntToDecimal(t1);
    ParseIntOfIntToDecimal(t2);
    SuffixCancels(d1, d2, "-Value");
    SuffixCancels(d1, d2, "-BottomEl");
  }

  /** Two strings with the same suffix appended are equal only when they were equal. */
  lemma SuffixCancels(a: string, b: string, suffix: string)
    ensures a + suffix == b + suffix ==> a == b
  {
    if a + suffix == b + suffix {
      assert a == (a + suffix)[..|a|] && b == (b + suffix)[..|b|];
    }
  }

  /** The mapping for frames straight from the export, named by step number; it is also the
      mapping's default. */
  function EsriStyleStateToNameInShapeFileMapping(): (m: StateToNameInShapeFileMapping)
    ensures m.flowVelocityT0 == DefaultStateToNameInShapeFileMapping(0).flowVelocityT0
  {
    StateToNameInShapeFileMapping("0000000-Va", "0000000-Bo", "0000003-Va", "0000003-Bo", "0-Value", "3-Value")
  }

  /** The end-time velocity name of the esri-style mapping is the default name for step 3. */
  lemma EsriVelocityIsDefaultOfStepThree()
    ensures EsriStyleStateToNameInShapeFileMapping().flowVelocityTEnd == DefaultStateToNameInShapeFileMapping(3).flowVelocityTEnd
  {
    assert IntToDecimal(3) == "3";
  }

  /** After the renaming of `rename_columns_to_represent_time_step`, a frame holds none of the
      esri-style water surface and bottom elevation names: each starts with a zero that is
      not the whole step number. */
  lemma EsriNamesNotFoundAfterRenaming(t: Table, timeStep: int)
    requires RenameFrame(t, timeStep).Ok?
    ensures var m := EsriStyleStateToNameInShapeFileMapping();
      var names := ColumnNames(RenameFrame(t, timeStep).value.columns);
      && m.hydraulicStateT0 !in names && m.bottomElevationT0 !in names
      && m.hydraulicStateTEnd !in names && m.bottomElevationTEnd !in names
  {
    var m := EsriStyleStateToNameInShapeFileMapping();
    assert m.hydraulicStateT0[7] == '-' && m.bottomElevationT0[7] == '-';
    assert m.hydraulicStateTEnd[7] == '-' && m.bottomElevationTEnd[7] == '-';
    NoRenamedColumnIs(t, timeStep, m.hydraulicStateT0);
    NoRenamedColumnIs(t, timeStep, m.bottomElevationT0);
    NoRenamedColumnIs(t, timeStep, m.hydraulicStateTEnd);
    NoRenamedColumnIs(t, timeStep, m.bottomElevationTEnd);
  }

  /** No renamed column is called by a name with a dash and a leading zero before a digit. */
  lemma NoRenamedColumnIs(t: Table, timeStep: int, other: string)
    requires RenameFrame(t, timeStep).Ok?
    requires '-' in other && |other| > 1 && other[0] == '0' && other[1] != '-'
    ensures other !in ColumnNames(RenameFrame(t, timeStep).value.columns)
  {
    var renamed := RenameFrame(t, timeStep).value;
    forall i | 0 <= i < |t.columns| ensures renamed.columns[i].name != other {
      RenamedNamesHaveNoLeadingZero(t.columns[i].name, timeStep, other);
    }
  }

  /** A result column `"<K>-<suffix>"` of output step `K`, with no dash in the suffix, is
      renamed to `"<seconds>-<suffix>"`. */
  lemma RenamedSuffixName(prefix: string, suffix: string, k: int, timeStep: int)
    requires '-' !in prefix && '-' !in suffix && ParseInt(prefix) == Some(k)
    ensures '-' in prefix + "-" + suffix
    ensures RenamedColumnName(prefix + "-" + suffix, timeStep) == Ok(IntToDecimal(k * timeStep) + "-" + suffix)
  {
    RenamedNameShape(prefix, suffix, timeStep, k);
    WithoutNoDash(suffix, '-');
  }

  /** The renamed result columns `"<K>-Value"` and `"<K>-BottomEl"` of output step `K` are
      the names the default mapping reads for the simulation time `K * time_step`. */
  lemma RenamedNamesAreDefaultNames(prefix: string, k: int, timeStep: int)
    requires '-' !in prefix && ParseInt(prefix) == Some(k)
    ensures var m := DefaultStateToNameInShapeFileMapping(k * timeStep);
      && '-' in ColumnKey(prefix, "Value") && '-' in ColumnKey(prefix, "BottomEl")
      && RenamedColumnName(ColumnKey(prefix, "Value"), timeStep) == Ok(m.hydraulicStateTEnd)
      && RenamedColumnName(ColumnKey(prefix, "BottomEl"), timeStep) == Ok(m.bottomElevationTEnd)
  {
    RenamedSuffixName(prefix, "Value", k, timeStep);
    RenamedSuffixName(prefix, "BottomEl", k, timeStep);
  }

  /** Step 0 is renamed to the start-time names, whatever the time step. */
  lemma StepZeroNamesAreStartNames(prefix: string, timeStep: int)
    requires '-' !in prefix && ParseInt(prefix) == Some(0)
    ensures var m := DefaultStateToNameInShapeFileMapping(timeStep);
      && '-' in ColumnKey(prefix, "Value") && '-' in ColumnKey(prefix, "BottomEl")
      && RenamedColumnName(ColumnKey(prefix, "Value"), timeStep) == Ok(m.hydraulicStateT0)
      && RenamedColumnName(ColumnKey(prefix, "BottomEl"), timeStep) == Ok(m.bottomElevationT0)
  {
    RenamedNamesAreDefaultNames(prefix, 0, timeStep);
    assert 0 * timeStep == 0;
    StartNames();
  }

  /** `f"{0}-Value"` and `f"{0}-BottomEl"` are the start-time names. */
  lemma StartNames()
    ensures ColumnKey(IntToDecimal(0), "Value") == "0-Value"
    ensures ColumnKey(IntToDecimal(0), "BottomEl") == "0-BottomEl"
  {
    assert IntToDecimal(0) == "0";
  }

  /** Removing `c` from a string without `c` changes nothing. */
  lemma {:induction false} WithoutNoDash(s: string, c: char)
    requires c !in s
    ensures Without(s, c) == s
    decreases |s|
  {
    if |s| > 0 {
      assert c !in s[1..] by {
        assert forall i :: 0 <= i < |s[1..]| ==> s[1..][i] == s[i + 1];
      }
      WithoutNoDash(s[1..], c);
      assert s == [s[0]] + s[1..];
    }
  }

  // ---------------------------------------------------------------------------------------
  // Building the mesh

  /** The four result frames describe the same mesh: every column has one value per element
      and every frame has as many elements as the bottom elevation frame. */
  ghost predicate SameMesh(shapes: SimulationResultsShapes) {
    && shapes.bottomElevation.WellFormed()
    && shapes.hydraulicState.WellFormed() && |shapes.hydraulicState.geometry| == |shapes.bottomElevation.geometry|
    && shapes.flowVelocity.WellFormed() && |shapes.flowVelocity.geometry| == |shapes.bottomElevation.geometry|
    && shapes.absoluteFlowVelocity.WellFormed() && |shapes.absoluteFlowVelocity.geometry| == |shapes.bottomElevation.geometry|
  }

  /** The nine columns of the mesh, in the order they are added. */
  function SummaryColumns(hs0: seq<real>, be0: seq<real>, v0: seq<real>, hsEnd: seq<real>, beEnd: seq<real>, vEnd: seq<real>): (r: seq<Column>)
    requires |hs0| == |be0| && |hsEnd| == |beEnd| && |be0| == |beEnd|
    ensures DistinctNames(r) && |r| == 9
    ensures |v0| == |be0| && |vEnd| == |be0| ==> forall i :: 0 <= i < 9 ==> |r[i].values| == |be0|
  {
    [ Column("wd_t0", Minus(hs0, be0)), Column("v_t0", v0), Column("wse_t0", hs0), Column("bot_ele_t0", be0),
      Column("wd_end", Minus(hsEnd, beEnd)), Column("delta_z", Minus(beEnd, be0)), Column("v_end", vEnd),
      Column("bot_ele_end", beEnd), Column("wse_end", hsEnd) ]
  }

  /** The values of a column the frame is known to have. */
  function Values(t: Table, name: string): seq<real>
    requires Get(t, name).Ok?
  {
    Get(t, name).value
  }

  /** `create_summarising_mesh_with_all_results`: a frame over the bottom elevation's geometry
      whose columns are read from the result frames through `mapping`. AssertionError when the
      coordinate reference system is not EPSG 2056; otherwise KeyError for the first mapped
      column that is missing, in the order the source reads them. */
  function CreateSummarisingMeshWithAllResults(shapes: SimulationResultsShapes, mapping: StateToNameInShapeFileMapping): (r: Result<Table>)
    requires SameMesh(shapes)
    ensures shapes.bottomElevation.crs != 2056 ==> r == Err(AssertionError(""))
    ensures r.Err? <==> shapes.bottomElevation.crs != 2056 || !AllMapped(shapes, mapping)
    ensures r.Err? && shapes.bottomElevation.crs == 2056 ==>
      r.error.KeyError? && r.error.key in MappedNames(mapping)
    ensures r.Ok? ==> r.value.crs == 2056 && r.value.geometry == shapes.bottomElevation.geometry && r.value.WellFormed()
  {
    var bottom := shapes.bottomElevation;
    if bottom.crs != 2056 then Err(AssertionError(""))
    else
      var hs0 :- Get(shapes.hydraulicState, mapping.hydraulicStateT0);
      var be0 :- Get(bottom, mapping.bottomElevationT0);
      var v0 :- Get(shapes.absoluteFlowVelocity, mapping.flowVelocityT0);
      var hsEnd :- Get(shapes.hydraulicState, mapping.hydraulicStateTEnd);
      var beEnd :- Get(bottom, mapping.bottomElevationTEnd);
      var vEnd :- Get(shapes.absoluteFlowVelocity, mapping.flowVelocityTEnd);
      assert |hs0| == |be0| == |v0| == |hsEnd| == |beEnd| == |vEnd| == |bottom.geometry|;
      var mesh := Table(bottom.crs, bottom.geometry, SummaryColumns(hs0, be0, v0, hsEnd, beEnd, vEnd));
      assert mesh.WellFormed();
      Ok(mesh)
  }

  /** The six names the mapping reads. */
  function MappedNames(m: StateToNameInShapeFileMapping): (r: set<string>)
    ensures m.hydraulicStateT0 in r && m.hydraulicStateTEnd in r && m.flowVelocityTEnd in r
  {
    {m.hydraulicStateT0, m.bottomElevationT0, m.flowVelocityT0, m.hydraulicStateTEnd, m.bottomElevationTEnd, m.flowVelocityTEnd}
  }

  /** Every mapped column exists in the frame it is read from. */
  ghost predicate AllMapped(shapes: SimulationResultsShapes, m: StateToNameInShapeFileMapping) {
    && m.hydraulicStateT0 in ColumnNames(shapes.hydraulicState.columns)
    && m.bottomElevationT0 in ColumnNames(shapes.bottomElevation.columns)
    && m.flowVelocityT0 in ColumnNames(shapes.absoluteFlowVelocity.columns)
    && m.hydraulicStateTEnd in ColumnNames(shapes.hydraulicState.columns)
    && m.bottomElevationTEnd in ColumnNames(shapes.bottomElevation.columns)
    && m.flowVelocityTEnd in ColumnNames(shapes.absoluteFlowVelocity.columns)
  }

  /** A mesh that was built is the nine summary columns over the bottom elevation's elements,
      computed from the mapped result columns. */
  lemma SummarisingMeshShape(shapes: SimulationResultsShapes, mapping: StateToNameInShapeFileMapping)
      returns (hs0: seq<real>, be0: seq<real>, v0: seq<real>, hsEnd: seq<real>, beEnd: seq<real>, vEnd: seq<real>)
    requires SameMesh(shapes)
    requires CreateSummarisingMeshWithAllResults(shapes, mapping).Ok?
    ensures Get(shapes.hydraulicState, mapping.hydraulicStateT0) == Ok(hs0)
    ensures Get(shapes.bottomElevation, mapping.bottomElevationT0) == Ok(be0)
    ensures Get(shapes.absoluteFlowVelocity, mapping.flowVelocityT0) == Ok(v0)
    ensures Get(shapes.hydraulicState, mapping.hydraulicStateTEnd) == Ok(hsEnd)
    ensures Get(shapes.bottomElevation, mapping.bottomElevationTEnd) == Ok(beEnd)
    ensures Get(shapes.absoluteFlowVelocity, mapping.flowVelocityTEnd) == Ok(vEnd)
    ensures |hs0| == |be0| == |v0| == |hsEnd| == |beEnd| == |vEnd|
    ensures CreateSummarisingMeshWithAllResults(shapes, mapping).value ==
      Table(2056, shapes.bottomElevation.geometry, SummaryColumns(hs0, be0, v0, hsEnd, beEnd, vEnd))
  {
    assert shapes.bottomElevation.crs == 2056 && AllMapped(shapes, mapping);
    hs0 := Get(shapes.hydraulicState, mapping.hydraulicStateT0).value;
    be0 := Get(shapes.bottomElevation, mapping.bottomElevationT0).value;
    v0 := Get(shapes.absoluteFlowVelocity, mapping.flowVelocityT0).value;
    hsEnd := Get(shapes.hydraulicState, mapping.hydraulicStateTEnd).value;
    beEnd := Get(shapes.bottomElevation, mapping.bottomElevationTEnd).value;
    vEnd := Get(shapes.absoluteFlowVelocity, mapping.flowVelocityTEnd).value;
  }

  /** The mesh columns copy the mapped result columns. */
  lemma SummarisingMeshCopies(shapes: SimulationResultsShapes, mapping: StateToNameInShapeFileMapping)
    requires SameMesh(shapes)
    requires CreateSummarisingMeshWithAllResults(shapes, mapping).Ok?
    ensures var mesh := CreateSummarisingMeshWithAllResults(shapes, mapping).value;
      && Get(mesh, "wse_t0") == Get(shapes.hydraulicState, mapping.hydraulicStateT0)
      && Get(mesh, "bot_ele_t0") == Get(shapes.bottomElevation, mapping.bottomElevationT0)
      && Get(mesh, "v_t0") == Get(shapes.absoluteFlowVelocity, mapping.flowVelocityT0)
      && Get(mesh, "wse_end") == Get(shapes.hydraulicState, mapping.hydraulicStateTEnd)
      && Get(mesh, "bot_ele_end") == Get(shapes.bottomElevation, mapping.bottomElevationTEnd)
      && Get(mesh, "v_end") == Get(shapes.absoluteFlowVelocity, mapping.flowVelocityTEnd)
  {
    var hs0, be0, v0, hsEnd, beEnd, vEnd := SummarisingMeshShape(shapes, mapping);
    var mesh := CreateSummarisingMeshWithAllResults(shapes, mapping).value;
    SummaryLookups(mesh, hs0, be0, v0, hsEnd, beEnd, vEnd);
  }

  /** The water depths and the bottom change are element-wise differences:
      `wd = wse - bot_ele` at both times and `delta_z = bot_ele_end - bot_ele_t0`. */
  lemma SummarisingMeshDifferences(shapes: SimulationResultsShapes, mapping: StateToNameInShapeFileMapping)
    requires SameMesh(shapes)
    requires CreateSummarisingMeshWithAllResults(shapes, mapping).Ok?
    ensures var mesh := CreateSummarisingMeshWithAllResults(shapes, mapping).value;
      && Get(mesh, "wd_t0").Ok? && Get(mesh, "wd_end").Ok? && Get(mesh, "delta_z").Ok?
      && Get(mesh, "wse_t0").Ok? && Get(mesh, "bot_ele_t0").Ok? && Get(mesh, "wse_end").Ok? && Get(mesh, "bot_ele_end").Ok?
      && forall i :: 0 <= i < |mesh.geometry| ==>
        && Values(mesh, "wd_t0")[i] == Values(mesh, "wse_t0")[i] - Values(mesh, "bot_ele_t0")[i]
        && Values(mesh, "wd_end")[i] == Values(mesh, "wse_end")[i] - Values(mesh, "bot_ele_end")[i]
        && Values(mesh, "delta_z")[i] == Values(mesh, "bot_ele_end")[i] - Values(mesh, "bot_ele_t0")[i]
  {
    var hs0, be0, v0, hsEnd, beEnd, vEnd := SummarisingMeshShape(shapes, mapping);
    var mesh := CreateSummarisingMeshWithAllResults(shapes, mapping).value;
    SummaryLookups(mesh, hs0, be0, v0, hsEnd, beEnd, vEnd);
    var wd0, wdEnd, dz := Values(mesh, "wd_t0"), Values(mesh, "wd_end"), Values(mesh, "delta_z");
    var wse0, b0, wseEnd, bEnd := Values(mesh, "wse_t0"), Values(mesh, "bot_ele_t0"), Values(mesh, "wse_end"), Values(mesh, "bot_ele_end");
    assert wd0 == Minus(hs0, be0) && wdEnd == Minus(hsEnd, beEnd) && dz == Minus(beEnd, be0);
    assert wse0 == hs0 && b0 == be0 && wseEnd == hsEnd && bEnd == beEnd;
    forall i | 0 <= i < |mesh.geometry|
      ensures wd0[i] == wse0[i] - b0[i] && wdEnd[i] == wseEnd[i] - bEnd[i] && dz[i] == bEnd[i] - b0[i]
    {
    }
  }

  /** Every column of the mesh is found under its name. */
  lemma SummaryLookups(mesh: Table, hs0: seq<real>, be0: seq<real>, v0: seq<real>, hsEnd: seq<real>, beEnd: seq<real>, vEnd: seq<real>)
    requires |hs0| == |be0| && |hsEnd| == |beEnd| && |be0| == |beEnd|
    requires mesh.columns == SummaryColumns(hs0, be0, v0, hsEnd, beEnd, vEnd)
    ensures Get(mesh, "wd_t0") == Ok(Minus(hs0, be0)) && Get(mesh, "v_t0") == Ok(v0)
    ensures Get(mesh, "wse_t0") == Ok(hs0) && Get(mesh, "bot_ele_t0") == Ok(be0)
    ensures Get(mesh, "wd_end") == Ok(Minus(hsEnd, beEnd)) && Get(mesh, "delta_z") == Ok(Minus(beEnd, be0))
    ensures Get(mesh, "v_end") == Ok(vEnd) && Get(mesh, "bot_ele_end") == Ok(beEnd) && Get(mesh, "wse_end") == Ok(hsEnd)
  {
    GetDistinct(mesh, 0);
    GetDistinct(mesh, 1);
    GetDistinct(mesh, 2);
    GetDistinct(mesh, 3);
    GetDistinct(mesh, 4);
    GetDistinct(mesh, 5);
    GetDistinct(mesh, 6);
    GetDistinct(mesh, 7);
    GetDistinct(mesh, 8);
  }

  // ---------------------------------------------------------------------------------------
  // Giving points the values of the mesh element that contains them

  /** `mesh.loc[mesh.contains(point), name].values[0]` reads the first element that contains
      the point; None when no element does. */
  function FirstContaining(elements: seq<Geometry>, point: Geometry, contains: (Geometry, Geometry) -> bool): (r: Option<nat>)
    ensures r.Some? ==> r.value < |elements| && contains(elements[r.value], point)
    ensures r.Some? ==> forall j :: 0 <= j < r.value ==> !contains(elements[j], point)
    ensures r.None? <==> forall j :: 0 <= j < |elements| ==> !contains(elements[j], point)
  {
    if |elements| == 0 then None
    else if contains(elements[0], point) then Some(0)
    else
      var rest := FirstContaining(elements[1..], point, contains);
      assert forall j :: 1 <= j < |elements| ==> elements[j] == elements[1..][j - 1];
      match rest
      case None => None
      case Some(i) => Some(i + 1)
  }

  /** The value one point receives for one requested column: NaN when no element contains
      it, otherwise the column's value at the first element that does; KeyError when the
      point is contained and the mesh has no such column. */
  function LookupCell(mesh: Table, name: string, point: Geometry, contains: (Geometry, Geometry) -> bool): (r: Result<Cell>)
    requires mesh.WellFormed()
    ensures FirstContaining(mesh.geometry, point, contains).None? ==> r == Ok(Nan)
    ensures FirstContaining(mesh.geometry, point, contains).Some? ==>
      if name in ColumnNames(mesh.columns)
      then r == Ok(Num(Get(mesh, name).value[FirstContaining(mesh.geometry, point, contains).value]))
      else r == Err(KeyError(name))
  {
    match FirstContaining(mesh.geometry, point, contains)
    case None => Ok(Nan)
    case Some(i) =>
      var column :- Get(mesh, name);
      Ok(Num(column[i]))
  }

  /** No element contains any of the points. */
  ghost predicate NoneContained(mesh: Table, points: seq<Geometry>, contains: (Geometry, Geometry) -> bool) {
    forall p :: 0 <= p < |points| ==> FirstContaining(mesh.geometry, points[p], contains).None?
  }

  /** Every requested value of every point can be read. */
  ghost predicate LookupsSucceed(columnsToLookup: seq<string>, mesh: Table, points: seq<Geometry>, contains: (Geometry, Geometry) -> bool)
    requires mesh.WellFormed()
  {
    forall j, p :: 0 <= j < |columnsToLookup| && 0 <= p < |points| ==>
      LookupCell(mesh, columnsToLookup[j], points[p], contains).Ok?
  }

  /** The first requested column the mesh lacks. */
  function FirstMissing(columnsToLookup: seq<string>, names: seq<string>): (r: Option<string>)
    ensures r.None? <==> forall j :: 0 <= j < |columnsToLookup| ==> columnsToLookup[j] in names
    ensures r.Some? ==> r.value in columnsToLookup && r.value !in names
  {
    if |columnsToLookup| == 0 then None
    else if columnsToLookup[0] !in names then Some(columnsToLookup[0])
    else
      assert forall j :: 1 <= j < |columnsToLookup| ==> columnsToLookup[j] == columnsToLookup[1..][j - 1];
      FirstMissing(columnsToLookup[1..], names)
  }

  lemma {:induction false} FirstMissingAt(columnsToLookup: seq<string>, names: seq<string>, j: nat)
    requires j < |columnsToLookup| && columnsToLookup[j] !in names
    requires forall k :: 0 <= k < j ==> columnsToLookup[k] in names
    ensures FirstMissing(columnsToLookup, names) == Some(columnsToLookup[j])
    decreases j
  {
    if j > 0 {
      FirstMissingAt(columnsToLookup[1..], names, j - 1);
    }
  }

  /** The lookups fail exactly when some point is contained and a requested column is
      missing. */
  lemma LookupsSucceedIff(columnsToLookup: seq<string>, mesh: Table, points: seq<Geometry>, contains: (Geometry, Geometry) -> bool)
    requires mesh.WellFormed()
    ensures LookupsSucceed(columnsToLookup, mesh, points, contains) <==>
      NoneContained(mesh, points, contains) || FirstMissing(columnsToLookup, ColumnNames(mesh.columns)).None?
  {
    if !NoneContained(mesh, points, contains) && FirstMissing(columnsToLookup, ColumnNames(mesh.columns)).Some? {
      var p :| 0 <= p < |points| && FirstContaining(mesh.geometry, points[p], contains).Some?;
      var j :| 0 <= j < |columnsToLookup| && columnsToLookup[j] !in ColumnNames(mesh.columns);
      assert LookupCell(mesh, columnsToLookup[j], points[p], contains).Err?;
    }
  }

  /** The values one requested column receives, one per point, in point order. */
  function LookupColumn(mesh: Table, name: string, points: seq<Geometry>, contains: (Geometry, Geometry) -> bool): (r: seq<Cell>)
    requires mesh.WellFormed()
    requires forall p :: 0 <= p < |points| ==> LookupCell(mesh, name, points[p], contains).Ok?
    ensures |r| == |points|
    ensures forall p :: 0 <= p < |points| ==> r[p] == LookupCell(mesh, name, points[p], contains).value
  {
    if |points| == 0 then []
    else
      var front := points[..|points| - 1];
      assert forall p :: 0 <= p < |front| ==> front[p] == points[p];
      LookupColumn(mesh, name, front, contains) + [LookupCell(mesh, name, points[|points| - 1], contains).value]
  }

  /** The columns after `points[name] = values` for every requested name in turn. */
  function WriteColumns(columns: map<string, seq<Cell>>, mesh: Table, columnsToLookup: seq<string>,
                        points: seq<Geometry>, contains: (Geometry, Geometry) -> bool): map<string, seq<Cell>>
    requires mesh.WellFormed() && LookupsSucceed(columnsToLookup, mesh, points, contains)
  {
    if |columnsToLookup| == 0 then columns
    else
      var last := columnsToLookup[|columnsToLookup| - 1];
      var front := columnsToLookup[..|columnsToLookup| - 1];
      assert forall j :: 0 <= j < |front| ==> front[j] == columnsToLookup[j];
      WriteColumns(columns, mesh, front, points, contains)[last := LookupColumn(mesh, last, points, contains)]
  }

  /** Every requested column holds its looked-up values, the columns that were not requested
      keep theirs, and no other column appears. */
  lemma {:induction false} WrittenColumns(columns: map<string, seq<Cell>>, mesh: Table, columnsToLookup: seq<string>,
                                          points: seq<Geometry>, contains: (Geometry, Geometry) -> bool)
    requires mesh.WellFormed() && LookupsSucceed(columnsToLookup, mesh, points, contains)
    ensures var r := WriteColumns(columns, mesh, columnsToLookup, points, contains);
      && r.Keys == columns.Keys + (set j | 0 <= j < |columnsToLookup| :: columnsToLookup[j])
      && (forall j :: 0 <= j < |columnsToLookup| ==>
            (forall p :: 0 <= p < |points| ==> LookupCell(mesh, columnsToLookup[j], points[p], contains).Ok?) &&
            r[columnsToLookup[j]] == LookupColumn(mesh, columnsToLookup[j], points, contains))
      && (forall c :: c in columns && c !in columnsToLookup ==> r[c] == columns[c])
    decreases |columnsToLookup|
  {
    if |columnsToLookup| > 0 {
      var front := columnsToLookup[..|columnsToLookup| - 1];
      assert forall j :: 0 <= j < |front| ==> front[j] == columnsToLookup[j];
      WrittenColumns(columns, mesh, front, points, contains);
      assert columnsToLookup == front + [columnsToLookup[|columnsToLookup| - 1]];
    }
  }

  /** Looking up one more point extends every requested column by that point's cell. */
  lemma LookupNextPoint(columnsToLookup: seq<string>, mesh: Table, points: seq<Geometry>, p: nat,
                        contains: (Geometry, Geometry) -> bool)
    requires mesh.WellFormed() && p < |points|
    requires LookupsSucceed(columnsToLookup, mesh, points[..p], contains)
    requires forall k :: 0 <= k < |columnsToLookup| ==> LookupCell(mesh, columnsToLookup[k], points[p], contains).Ok?
    ensures LookupsSucceed(columnsToLookup, mesh, points[..p + 1], contains)
    ensures forall k :: 0 <= k < |columnsToLookup| ==>
      LookupColumn(mesh, columnsToLookup[k], points[..p + 1], contains) ==
      LookupColumn(mesh, columnsToLookup[k], points[..p], contains) + [LookupCell(mesh, columnsToLookup[k], points[p], contains).value]
  {
    var longer := points[..p + 1];
    assert longer[..p] == points[..p];
    assert forall q :: 0 <= q < p ==> longer[q] == points[..p][q];
    assert longer[p] == points[p];
  }

  /** The inner loop of `assign_requested_values_from_summarising_mesh_to_point`: one
      point's value for every requested column. */
  method CellsOfPoint(columnsToLookup: seq<string>, mesh: Table, point: Geometry, contains: (Geometry, Geometry) -> bool)
    returns (r: Result<seq<Cell>>)
    requires mesh.WellFormed()
    ensures r.Ok? <==> forall k :: 0 <= k < |columnsToLookup| ==> LookupCell(mesh, columnsToLookup[k], point, contains).Ok?
    ensures r.Ok? ==> |r.value| == |columnsToLookup|
    ensures r.Ok? ==>
      forall k :: 0 <= k < |columnsToLookup| ==> r.value[k] == LookupCell(mesh, columnsToLookup[k], point, contains).value
    ensures r.Err? ==>
      && FirstMissing(columnsToLookup, ColumnNames(mesh.columns)).Some?
      && r.error == KeyError(FirstMissing(columnsToLookup, ColumnNames(mesh.columns)).value)
  {
    var found := FirstContaining(mesh.geometry, point, contains);
    if found.None? {
      return Ok(seq(|columnsToLookup|, _ => Nan));
    }
    var i := found.value;
    var names := ColumnNames(mesh.columns);
    var cells: seq<Cell> := [];
    for j := 0 to |columnsToLookup|
      invariant |cells| == j
      invariant forall k :: 0 <= k < j ==> LookupCell(mesh, columnsToLookup[k], point, contains) == Ok(cells[k])
      invariant forall k :: 0 <= k < j ==> columnsToLookup[k] in names
    {
      var name := columnsToLookup[j];
      var column := Get(mesh, name);
      if column.Err? {
        FirstMissingAt(columnsToLookup, names, j);
        assert LookupCell(mesh, name, point, contains) == Err(KeyError(name));
        return Err(column.error);
      }
      assert LookupCell(mesh, name, point, contains) == Ok(Num(column.value[i]));
      cells := cells + [Num(column.value[i])];
    }
    return Ok(cells);
  }

  /** The outer loop of `assign_requested_values_from_summarising_mesh_to_point`: the list
      of values each requested column receives, one value per point. */
  method CellsOfPoints(columnsToLookup: seq<string>, mesh: Table, geometry: seq<Geometry>, contains: (Geometry, Geometry) -> bool)
    returns (r: Result<seq<seq<Cell>>>)
    requires mesh.WellFormed()
    ensures r.Ok? <==> LookupsSucceed(columnsToLookup, mesh, geometry, contains)
    ensures r.Ok? ==> |r.value| == |columnsToLookup|
    ensures r.Ok? ==>
      forall j :: 0 <= j < |columnsToLookup| ==> r.value[j] == LookupColumn(mesh, columnsToLookup[j], geometry, contains)
    ensures r.Err? ==>
      && FirstMissing(columnsToLookup, ColumnNames(mesh.columns)).Some?
      && r.error == KeyError(FirstMissing(columnsToLookup, ColumnNames(mesh.columns)).value)
  {
    var columnValues: seq<seq<Cell>> := seq(|columnsToLookup|, _ => []);
    for p := 0 to |geometry|
      invariant |columnValues| == |columnsToLookup|
      invariant LookupsSucceed(columnsToLookup, mesh, geometry[..p], contains)
      invariant forall j :: 0 <= j < |columnsToLookup| ==>
        columnValues[j] == LookupColumn(mesh, columnsToLookup[j], geometry[..p], contains)
    {
      var cells := CellsOfPoint(columnsToLookup, mesh, geometry[p], contains);
      if cells.Err? {
        return Err(cells.error);
      }
      LookupNextPoint(columnsToLookup, mesh, geometry, p, contains);
      columnValues := seq(|columnsToLookup|, j requires 0 <= j < |columnsToLookup| => columnValues[j] + [cells.value[j]]);
    }
    assert geometry[..|geometry|] == geometry;
    return Ok(columnValues);
  }

  /** `assign_requested_values_from_summarising_mesh_to_point`: for every point in order and
      every requested column, the value of the first mesh element containing the point, or
      NaN; afterwards each requested column of `points` is set to its list of values. KeyError
      for the first requested column the mesh lacks, as soon as a point is contained; then
      nothing has been written. */
  method AssignRequestedValuesFromSummarisingMeshToPoint(columnsToLookup: seq<string>, mesh: Table, points: GeoFrame,
                                                          contains: (Geometry, Geometry) -> bool)
    returns (o: Outcome)
    requires mesh.WellFormed() && points.Valid()
    modifies points
    ensures points.Valid() && points.index == old(points.index) && points.geometry == old(points.geometry)
    ensures o.Fail? <==> !LookupsSucceed(columnsToLookup, mesh, points.geometry, contains)
    ensures o.Fail? ==>
      && FirstMissing(columnsToLookup, ColumnNames(mesh.columns)).Some?
      && o == Fail(KeyError(FirstMissing(columnsToLookup, ColumnNames(mesh.columns)).value))
      && points.columns == old(points.columns)
    ensures o.Pass? ==>
      && LookupsSucceed(columnsToLookup, mesh, points.geometry, contains)
      && points.columns == WriteColumns(old(points.columns), mesh, columnsToLookup, points.geometry, contains)
  {
    var geometry := points.geometry;
    var columnValues := CellsOfPoints(columnsToLookup, mesh, geometry, contains);
    if columnValues.Err? {
      return Fail(columnValues.error);
    }
    for j := 0 to |columnsToLookup|
      invariant points.Valid() && points.index == old(points.index) && points.geometry == geometry
      invariant points.columns == WriteColumns(old(points.columns), mesh, columnsToLookup[..j], geometry, contains)
    {
      assert columnsToLookup[..j + 1][..j] == columnsToLookup[..j];
      points.SetColumn(columnsToLookup[j], columnValues.value[j]);
    }
    assert columnsToLookup[..|columnsToLookup|] == columnsToLookup;
    o := Pass;
  }
}
