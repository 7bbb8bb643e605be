/** The calibration run on river profiles: a summarising mesh built from three result frames
    with fixed column names, the columns each flood scenario looks up, and the lookup of those
    columns for the GPS points of every profile file. */
module CalibrationProfiles {
  import opened Common
  import opened Frames
  import opened SummarisingMesh
  import opened Containers

  /** The column choice in `main`: the start-time columns before the flood, the end-time
      columns after it, NotImplementedError for any other scenario. */
  function ColumnsToLookupForScenario(scenario: BeforeOrAfterFloodScenario): (r: Result<seq<string>>)
    ensures r.Ok? <==> !scenario.OtherScenario?
    ensures r.Err? ==> r.error == NotImplementedError("")
    ensures scenario == Bf2020 ==> r == Ok(["bot_ele_t0", "wse_t0", "v_t0"])
    ensures scenario == Af2020 ==> r == Ok(["bot_ele_end", "wse_end", "v_end"])
  {
    match scenario
    case Bf2020 => Ok(["bot_ele_t0", "wse_t0", "v_t0"])
    case Af2020 => Ok(["bot_ele_end", "wse_end", "v_end"])
    case OtherScenario(_) => Err(NotImplementedError(""))
  }

  /** The six result columns the calibration mesh reads, by the names it uses for them. */
  datatype CalibrationResults = CalibrationResults(
    hs0: seq<real>, be0: seq<real>, hsEnd: seq<real>, beEnd: seq<real>, v0: seq<real>, vEnd: seq<real>)

  /** The three result frames have one value per element of the bottom elevation frame. */
  ghost predicate SameElements(bottom: Table, flow: Table, hydraulic: Table) {
    && bottom.WellFormed()
    && flow.WellFormed() && |flow.geometry| == |bottom.geometry|
    && hydraulic.WellFormed() && |hydraulic.geometry| == |bottom.geometry|
  }

  /** Every column the calibration mesh reads exists, with the fixed names of
      `EsriStyleStateToNameInShapeFileMapping`. */
  ghost predicate ResultsPresent(bottom: Table, flow: Table, hydraulic: Table) {
    var m := EsriStyleStateToNameInShapeFileMapping();
    && m.hydraulicStateT0 in ColumnNames(hydraulic.columns)
    && m.bottomElevationT0 in ColumnNames(bottom.columns)
    && m.hydraulicStateTEnd in ColumnNames(hydraulic.columns)
    && m.bottomElevationTEnd in ColumnNames(bottom.columns)
    && m.flowVelocityT0 in ColumnNames(flow.columns)
    && m.flowVelocityTEnd in ColumnNames(flow.columns)
  }

  /** The reads of `create_summarising_mesh_with_all_results`, in the order its assignments
      make them: KeyError for the first missing column. */
  function ReadCalibrationResults(bottom: Table, flow: Table, hydraulic: Table): (r: Result<CalibrationResults>)
    requires SameElements(bottom, flow, hydraulic)
    ensures r.Err? <==> !ResultsPresent(bottom, flow, hydraulic)
    ensures r.Err? ==> r.error.KeyError? && r.error.key in MappedNames(EsriStyleStateToNameInShapeFileMapping())
    ensures r.Ok? ==>
      var m := EsriStyleStateToNameInShapeFileMapping();
      && Get(hydraulic, m.hydraulicStateT0) == Ok(r.value.hs0)
      && Get(bottom, m.bottomElevationT0) == Ok(r.value.be0)
      && Get(hydraulic, m.hydraulicStateTEnd) == Ok(r.value.hsEnd)
      && Get(bottom, m.bottomElevationTEnd) == Ok(r.value.beEnd)
      && Get(flow, m.flowVelocityT0) == Ok(r.value.v0)
      && Get(flow, m.flowVelocityTEnd) == Ok(r.value.vEnd)
      && |r.value.hs0| == |r.value.be0| == |r.value.hsEnd| == |r.value.beEnd| == |r.value.v0| == |r.value.vEnd| == |bottom.geometry|
  {
    var m := EsriStyleStateToNameInShapeFileMapping();
    var hs0 :- Get(hydraulic, m.hydraulicStateT0);
    var be0 :- Get(bottom, m.bottomElevationT0);
    var hsEnd :- Get(hydraulic, m.hydraulicStateTEnd);
    var beEnd :- Get(bottom, m.bottomElevationTEnd);
    var v0 :- Get(flow, m.flowVelocityT0);
    var vEnd :- Get(flow, m.flowVelocityTEnd);
    Ok(CalibrationResults(hs0, be0, hsEnd, beEnd, v0, vEnd))
  }

  /** The ten columns of the calibration mesh, in the order they are added; `botEleT0` is what
      the column `bot_ele_t0` receives. */
  function CalibrationColumns(area: seq<real>, r: CalibrationResults, botEleT0: seq<real>): (cs: seq<Column>)
    requires |r.hs0| == |r.be0| == |r.hsEnd| == |r.beEnd|
    ensures DistinctNames(cs) && |cs| == 10
    ensures |area| == |r.be0| == |r.v0| == |r.vEnd| == |botEleT0| ==> forall i :: 0 <= i < 10 ==> |cs[i].values| == |r.be0|
  {
    [ Column("area", area), Column("wd_t0", Minus(r.hs0, r.be0)), Column("wd_t_end", Minus(r.hsEnd, r.beEnd)),
      Column("delta_z", Minus(r.beEnd, r.be0)), Column("v_t0", r.v0), Column("v_end", r.vEnd),
      Column("bot_ele_t0", botEleT0), Column("bot_ele_end", r.beEnd), Column("wse_t0", r.hs0), Column("wse_end", r.hsEnd) ]
  }

  /** The area of every element, as `mesh.area`. */
  function Areas(geometry: seq<Geometry>, area: Geometry -> real): (r: seq<real>)
    ensures |r| == |geometry| && forall i :: 0 <= i < |geometry| ==> r[i] == area(geometry[i])
  {
    seq(|geometry|, i requires 0 <= i < |geometry| => area(geometry[i]))
  }

  /** The ValueError geopandas raises when a frame is given `crs=2056` for geometry that
      already carries another crs. */
  const CrsMismatch := ValueError("CRS mismatch between CRS of the passed geometries and 'crs'")

  /** `create_summarising_mesh_with_all_results` as written: the mesh gets EPSG 2056 and the
      bottom elevation's geometry, but `bot_ele_t0` is read from the end-time bottom column.
      The frame is created before any column is read, so a crs mismatch is raised first. */
  function CreateSummarisingMeshAsWritten(bottom: Table, flow: Table, hydraulic: Table, area: Geometry -> real): (r: Result<Table>)
    requires SameElements(bottom, flow, hydraulic)
    ensures r.Err? <==> bottom.crs != 2056 || !ResultsPresent(bottom, flow, hydraulic)
    ensures bottom.crs != 2056 ==> r == Err(CrsMismatch)
    ensures bottom.crs == 2056 && r.Err? ==> r.error.KeyError?
    ensures r.Ok? ==> r.value.crs == 2056 && r.value.geometry == bottom.geometry && r.value.WellFormed()
  {
    if bottom.crs != 2056 then Err(CrsMismatch) else
    var results :- ReadCalibrationResults(bottom, flow, hydraulic);
    Ok(Table(2056, bottom.geometry, CalibrationColumns(Areas(bottom.geometry, area), results, results.beEnd)))
  }

  /** The same mesh with `bot_ele_t0` read from the start-time bottom column. */
  function CreateSummarisingMesh(bottom: Table, flow: Table, hydraulic: Table, area: Geometry -> real): (r: Result<Table>)
    requires SameElements(bottom, flow, hydraulic)
    ensures r.Err? <==> bottom.crs != 2056 || !ResultsPresent(bottom, flow, hydraulic)
    ensures bottom.crs != 2056 ==> r == Err(CrsMismatch)
    ensures bottom.crs == 2056 && r.Err? ==> r.error.KeyError?
    ensures r.Ok? ==> r.value.crs == 2056 && r.value.geometry == bottom.geometry && r.value.WellFormed()
  {
    if bottom.crs != 2056 then Err(CrsMismatch) else
    var results :- ReadCalibrationResults(bottom, flow, hydraulic);
    Ok(Table(2056, bottom.geometry, CalibrationColumns(Areas(bottom.geometry, area), results, results.be0)))
  }

  /** Every column of the calibration mesh is found under its name. */
  lemma CalibrationLookups(mesh: Table, area: seq<real>, r: CalibrationResults, botEleT0: seq<real>)
    requires |r.hs0| == |r.be0| == |r.hsEnd| == |r.beEnd|
    requires mesh.columns == CalibrationColumns(area, r, botEleT0)
    ensures Get(mesh, "area") == Ok(area)
    ensures Get(mesh, "wd_t0") == Ok(Minus(r.hs0, r.be0)) && Get(mesh, "wd_t_end") == Ok(Minus(r.hsEnd, r.beEnd))
    ensures Get(mesh, "delta_z") == Ok(Minus(r.beEnd, r.be0))
    ensures Get(mesh, "v_t0") == Ok(r.v0) && Get(mesh, "v_end") == Ok(r.vEnd)
    ensures Get(mesh, "bot_ele_t0") == Ok(botEleT0) && Get(mesh, "bot_ele_end") == Ok(r.beEnd)
    ensures Get(mesh, "wse_t0") == Ok(r.hs0) && Get(mesh, "wse_end") == Ok(r.hsEnd)
  {
    GetDistinct(mesh, 0);
    GetDistinct(mesh, 1);
    GetDistinct(mesh, 2);
    GetDistinct(mesh, 3);
    GetDistinct(mesh, 4);
    GetDistinct(mesh, 5);
    GetDistinct(mesh, 6);
    GetDistinct(mesh, 7);
    GetDistinct(mesh, 8);
    GetDistinct(mesh, 9);
  }

  /** A mesh that was built is the ten columns over the bottom elevation's elements. */
  lemma CalibrationMeshShape(bottom: Table, flow: Table, hydraulic: Table, area: Geometry -> real)
    requires SameElements(bottom, flow, hydraulic)
    ensures CreateSummarisingMesh(bottom, flow, hydraulic, area).Ok? ==>
      && ReadCalibrationResults(bottom, flow, hydraulic).Ok?
      && var results := ReadCalibrationResults(bottom, flow, hydraulic).value;
      CreateSummarisingMesh(bottom, flow, hydraulic, area).value ==
        Table(2056, bottom.geometry, CalibrationColumns(Areas(bottom.geometry, area), results, results.be0))
    ensures CreateSummarisingMeshAsWritten(bottom, flow, hydraulic, area).Ok? ==>
      && ReadCalibrationResults(bottom, flow, hydraulic).Ok?
      && var results := ReadCalibrationResults(bottom, flow, hydraulic).value;
      CreateSummarisingMeshAsWritten(bottom, flow, hydraulic, area).value ==
        Table(2056, bottom.geometry, CalibrationColumns(Areas(bottom.geometry, area), results, results.beEnd))
  {
  }

  /** The corrected mesh copies the result columns of the matching time and gives every
      element its area. */
  lemma CalibrationMeshCopies(bottom: Table, flow: Table, hydraulic: Table, area: Geometry -> real)
    requires SameElements(bottom, flow, hydraulic)
    requires CreateSummarisingMesh(bottom, flow, hydraulic, area).Ok?
    ensures var mesh := CreateSummarisingMesh(bottom, flow, hydraulic, area).value;
      var m := EsriStyleStateToNameInShapeFileMapping();
      && Get(mesh, "wse_t0") == Get(hydraulic, m.hydraulicStateT0)
      && Get(mesh, "bot_ele_t0") == Get(bottom, m.bottomElevationT0)
      && Get(mesh, "v_t0") == Get(flow, m.flowVelocityT0)
      && Get(mesh, "wse_end") == Get(hydraulic, m.hydraulicStateTEnd)
      && Get(mesh, "bot_ele_end") == Get(bottom, m.bottomElevationTEnd)
      && Get(mesh, "v_end") == Get(flow, m.flowVelocityTEnd)
      && Get(mesh, "area") == Ok(Areas(bottom.geometry, area))
  {
    CalibrationMeshShape(bottom, flow, hydraulic, area);
    var results := ReadCalibrationResults(bottom, flow, hydraulic).value;
    var mesh := CreateSummarisingMesh(bottom, flow, hydraulic, area).value;
    CalibrationLookups(mesh, Areas(bottom.geometry, area), results, results.be0);
  }

  /** The corrected mesh's water depths are `wse - bot_ele` at both times and its bottom
      change is `bot_ele_end - bot_ele_t0`, element by element. */
  lemma CalibrationMeshDifferences(bottom: Table, flow: Table, hydraulic: Table, area: Geometry -> real)
    requires SameElements(bottom, flow, hydraulic)
    requires CreateSummarisingMesh(bottom, flow, hydraulic, area).Ok?
    ensures var mesh := CreateSummarisingMesh(bottom, flow, hydraulic, area).value;
      && Get(mesh, "wd_t0").Ok? && Get(mesh, "wd_t_end").Ok? && Get(mesh, "delta_z").Ok?
      && Get(mesh, "wse_t0").Ok? && Get(mesh, "bot_ele_t0").Ok? && Get(mesh, "wse_end").Ok? && Get(mesh, "bot_ele_end").Ok?
      && forall i :: 0 <= i < |mesh.geometry| ==>
        && Values(mesh, "wd_t0")[i] == Values(mesh, "wse_t0")[i] - Values(mesh, "bot_ele_t0")[i]
        && Values(mesh, "wd_t_end")[i] == Values(mesh, "wse_end")[i] - Values(mesh, "bot_ele_end")[i]
        && Values(mesh, "delta_z")[i] == Values(mesh, "bot_ele_end")[i] - Values(mesh, "bot_ele_t0")[i]
  {
    CalibrationMeshShape(bottom, flow, hydraulic, area);
    var results := ReadCalibrationResults(bottom, flow, hydraulic).value;
    var mesh := CreateSummarisingMesh(bottom, flow, hydraulic, area).value;
    CalibrationLookups(mesh, Areas(bottom.geometry, area), results, results.be0);
    var wd0, wdEnd, dz := Values(mesh, "wd_t0"), Values(mesh, "wd_t_end"), Values(mesh, "delta_z");
    var wse0, be0, wseEnd, beEnd := Values(mesh, "wse_t0"), Values(mesh, "bot_ele_t0"), Values(mesh, "wse_end"), Values(mesh, "bot_ele_end");
    assert wd0 == Minus(results.hs0, results.be0) && wdEnd == Minus(results.hsEnd, results.beEnd);
    assert dz == Minus(results.beEnd, results.be0);
    assert wse0 == results.hs0 && be0 == results.be0 && wseEnd == results.hsEnd && beEnd == results.beEnd;
    forall i | 0 <= i < |mesh.geometry|
      ensures wd0[i] == wse0[i] - be0[i] && wdEnd[i] == wseEnd[i] - beEnd[i] && dz[i] == beEnd[i] - be0[i]
    {
    }
  }

  /** As written, `bot_ele_t0` is the end-time bottom elevation, so it equals `bot_ele_end`
      on every element. */
  lemma AsWrittenStartBottomIsEndBottom(bottom: Table, flow: Table, hydraulic: Table, area: Geometry -> real)
    requires SameElements(bottom, flow, hydraulic)
    requires CreateSummarisingMeshAsWritten(bottom, flow, hydraulic, area).Ok?
    ensures var mesh := CreateSummarisingMeshAsWritten(bottom, flow, hydraulic, area).value;
      && Get(mesh, "bot_ele_t0") == Get(bottom, EsriStyleStateToNameInShapeFileMapping().bottomElevationTEnd)
      && Get(mesh, "bot_ele_t0") == Get(mesh, "bot_ele_end")
  {
    CalibrationMeshShape(bottom, flow, hydraulic, area);
    var results := ReadCalibrationResults(bottom, flow, hydraulic).value;
    var mesh := CreateSummarisingMeshAsWritten(bottom, flow, hydraulic, area).value;
    CalibrationLookups(mesh, Areas(bottom.geometry, area), results, results.beEnd);
  }

  /** The discrepancy this causes: on an element whose bottom changed during the run, the
      as-written mesh's `delta_z` is not `bot_ele_end - bot_ele_t0`, and its `bot_ele_t0`
      is not the start-time bottom elevation. */
  lemma AsWrittenDeltaZDisagrees(bottom: Table, flow: Table, hydraulic: Table, area: Geometry -> real, i: nat)
    requires SameElements(bottom, flow, hydraulic)
    requires CreateSummarisingMeshAsWritten(bottom, flow, hydraulic, area).Ok?
    requires i < |bottom.geometry|
    requires var m := EsriStyleStateToNameInShapeFileMapping();
      Get(bottom, m.bottomElevationT0).value[i] != Get(bottom, m.bottomElevationTEnd).value[i]
    ensures var mesh := CreateSummarisingMeshAsWritten(bottom, flow, hydraulic, area).value;
      && Get(mesh, "delta_z").Ok? && Get(mesh, "bot_ele_t0").Ok? && Get(mesh, "bot_ele_end").Ok?
      && Values(mesh, "delta_z")[i] != Values(mesh, "bot_ele_end")[i] - Values(mesh, "bot_ele_t0")[i]
      && Values(mesh, "bot_ele_t0")[i] != Get(bottom, EsriStyleStateToNameInShapeFileMapping().bottomElevationT0).value[i]
  {
    CalibrationMeshShape(bottom, flow, hydraulic, area);
    var results := ReadCalibrationResults(bottom, flow, hydraulic).value;
    var mesh := CreateSummarisingMeshAsWritten(bottom, flow, hydraulic, area).value;
    CalibrationLookups(mesh, Areas(bottom.geometry, area), results, results.beEnd);
    var dz, beStart, beEnd := Values(mesh, "delta_z"), Values(mesh, "bot_ele_t0"), Values(mesh, "bot_ele_end");
    assert dz == Minus(results.beEnd, results.be0) && beStart == results.beEnd && beEnd == results.beEnd;
    assert dz[i] == results.beEnd[i] - results.be0[i];
  }

  /** What `main` plots: it passes the as-written mesh to the lookup with the `bf_2020`
      columns, so every GPS point inside an element receives, as `bot_ele_t0`, that element's
      end-time bottom elevation. */
  lemma AsWrittenLookupGivesEndBottom(bottom: Table, flow: Table, hydraulic: Table, area: Geometry -> real,
                                      point: Geometry, contains: (Geometry, Geometry) -> bool)
    requires SameElements(bottom, flow, hydraulic)
    requires CreateSummarisingMeshAsWritten(bottom, flow, hydraulic, area).Ok?
    requires FirstContaining(bottom.geometry, point, contains).Some?
    ensures ColumnsToLookupForScenario(Bf2020).Ok? && "bot_ele_t0" in ColumnsToLookupForScenario(Bf2020).value
    ensures var mesh := CreateSummarisingMeshAsWritten(bottom, flow, hydraulic, area).value;
      var e := FirstContaining(bottom.geometry, point, contains).value;
      var endBottom := Get(bottom, EsriStyleStateToNameInShapeFileMapping().bottomElevationTEnd);
      endBottom.Ok? && e < |endBottom.value| && LookupCell(mesh, "bot_ele_t0", point, contains) == Ok(Num(endBottom.value[e]))
  {
    assert ColumnsToLookupForScenario(Bf2020).value[0] == "bot_ele_t0";
    AsWrittenStartBottomIsEndBottom(bottom, flow, hydraulic, area);
  }

  /** The two versions fail alike and agree on every column but `bot_ele_t0`. */
  lemma AsWrittenDiffersOnlyInStartBottom(bottom: Table, flow: Table, hydraulic: Table, area: Geometry -> real)
    requires SameElements(bottom, flow, hydraulic)
    ensures CreateSummarisingMeshAsWritten(bottom, flow, hydraulic, area).Ok? <==>
      CreateSummarisingMesh(bottom, flow, hydraulic, area).Ok?
    ensures CreateSummarisingMesh(bottom, flow, hydraulic, area).Ok? ==>
      var written := CreateSummarisingMeshAsWritten(bottom, flow, hydraulic, area).value;
      var corrected := CreateSummarisingMesh(bottom, flow, hydraulic, area).value;
      && written.geometry == corrected.geometry && ColumnNames(written.columns) == ColumnNames(corrected.columns)
      && forall k :: 0 <= k < |corrected.columns| && corrected.columns[k].name != "bot_ele_t0" ==>
        written.columns[k] == corrected.columns[k]
  {
    CalibrationMeshShape(bottom, flow, hydraulic, area);
    if CreateSummarisingMesh(bottom, flow, hydraulic, area).Ok? {
      var results := ReadCalibrationResults(bottom, flow, hydraulic).value;
      StartBottomColumnOnly(Areas(bottom.geometry, area), results, results.beEnd, results.be0);
    }
  }

  /** Changing what `bot_ele_t0` receives changes the seventh column's values and nothing else. */
  lemma StartBottomColumnOnly(area: seq<real>, r: CalibrationResults, x: seq<real>, y: seq<real>)
    requires |r.hs0| == |r.be0| == |r.hsEnd| == |r.beEnd|
    ensures var cx, cy := CalibrationColumns(area, r, x), CalibrationColumns(area, r, y);
      && cy[6].name == "bot_ele_t0" && ColumnNames(cx) == ColumnNames(cy)
      && forall k :: 0 <= k < 10 && k != 6 ==> cx[k] == cy[k]
  {
    var cx, cy := CalibrationColumns(area, r, x), CalibrationColumns(area, r, y);
    assert forall k :: 0 <= k < 10 ==> cx[k].name == cy[k].name;
    assert forall k :: 0 <= k < 10 ==> ColumnNames(cx)[k] == ColumnNames(cy)[k];
  }

  /** The frames read from the profile files are distinct and each is well formed. */
  ghost predicate DistinctFrames(files: seq<GeoFrame>)
    reads set i | 0 <= i < |files| :: files[i]
  {
    && (forall i, j :: 0 <= i < j < |files| ==> files[i] != files[j])
    && (forall i :: 0 <= i < |files| ==> files[i].Valid())
  }

  /** The files before `n` hold their new columns, the others are as they were. */
  twostate predicate FilledBefore(columnsToLookup: seq<string>, mesh: Table, files: seq<GeoFrame>,
                                  contains: (Geometry, Geometry) -> bool, n: nat)
    requires mesh.WellFormed() && n <= |files|
    reads set i | 0 <= i < |files| :: files[i]
  {
    && (forall k :: 0 <= k < n ==>
         && LookupsSucceed(columnsToLookup, mesh, files[k].geometry, contains)
         && files[k].columns == WriteColumns(old(files[k].columns), mesh, columnsToLookup, files[k].geometry, contains))
    && (forall k :: n <= k < |files| ==> files[k].columns == old(files[k].columns))
  }

  /** The loop of `extract_specified_column_values_from_results_file` over the profile files
      already loaded (the glob and the unpickling are left out): the requested columns are
      looked up for the points of each file in turn, written into that file's points, and the
      frames are listed in file order. The first file whose lookup fails ends it with that
      KeyError; files before it keep their new columns, the others stay as they were. */
  method ExtractSpecifiedColumnValuesFromResultsFile(columnsToLookup: seq<string>, mesh: Table, files: seq<GeoFrame>,
                                                     contains: (Geometry, Geometry) -> bool)
    returns (r: Result<seq<GeoFrame>>, ghost failedAt: nat)
    requires mesh.WellFormed() && DistinctFrames(files)
    modifies set i | 0 <= i < |files| :: files[i]
    ensures DistinctFrames(files)
    ensures forall i :: 0 <= i < |files| ==>
      files[i].index == old(files[i].index) && files[i].geometry == old(files[i].geometry)
    ensures r.Ok? <==> forall i :: 0 <= i < |files| ==> LookupsSucceed(columnsToLookup, mesh, files[i].geometry, contains)
    ensures r.Ok? ==> r.value == files && forall i :: 0 <= i < |files| ==>
      files[i].columns == WriteColumns(old(files[i].columns), mesh, columnsToLookup, files[i].geometry, contains)
    ensures r.Err? ==>
      && FirstMissing(columnsToLookup, ColumnNames(mesh.columns)).Some?
      && r.error == KeyError(FirstMissing(columnsToLookup, ColumnNames(mesh.columns)).value)
    ensures r.Err? ==> failedAt < |files| && !LookupsSucceed(columnsToLookup, mesh, files[failedAt].geometry, contains)
    ensures r.Err? ==> failedAt < |files| && FilledBefore(columnsToLookup, mesh, files, contains, failedAt)
  {
    for i := 0 to |files|
      invariant DistinctFrames(files)
      invariant forall k :: 0 <= k < |files| ==>
        files[k].index == old(files[k].index) && files[k].geometry == old(files[k].geometry)
      invariant FilledBefore(columnsToLookup, mesh, files, contains, i)
    {
      var o := AssignRequestedValuesFromSummarisingMeshToPoint(columnsToLookup, mesh, files[i], contains);
      if o.Fail? {
        return Err(o.error), i;
      }
    }
    return Ok(files), 0;
  }
}
