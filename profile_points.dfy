/** GPS points along a cross-section profile: projecting them onto the profile line, and
    ordering them by their distance from the line's origin. The geometric operations of the
    line (`project`, `interpolate`) are parameters. */
module ProfilePoints {
  import opened Common
  import opened Frames
  import opened Sorting

  /** The elements of `s` in the order `order` lists their positions. */
  function Permute<T>(s: seq<T>, order: seq<nat>): (r: seq<T>)
    requires forall k :: 0 <= k < |order| ==> order[k] < |s|
    ensures |r| == |order| && forall k :: 0 <= k < |order| ==> r[k] == s[order[k]]
  {
    seq(|order|, k requires 0 <= k < |order| => s[order[k]])
  }

  /** Every column of a frame with its rows in the order `order`. */
  function PermuteColumns(columns: map<string, seq<Cell>>, order: seq<nat>, rows: nat): (r: map<string, seq<Cell>>)
    requires forall c :: c in columns ==> |columns[c]| == rows
    requires forall k :: 0 <= k < |order| ==> order[k] < rows
    ensures r.Keys == columns.Keys
    ensures forall c :: c in columns ==> r[c] == Permute(columns[c], order)
  {
    map c | c in columns :: Permute(columns[c], order)
  }

  /** A reordering by a permutation of the positions keeps every row: row `p` is found at
      some position of the result. */
  lemma PermuteKeepsEveryRow<T>(s: seq<T>, order: seq<nat>, p: nat) returns (k: nat)
    requires multiset(order) == multiset(Range(|s|)) && p < |s|
    requires forall m :: 0 <= m < |order| ==> order[m] < |s|
    ensures k < |order| && Permute(s, order)[k] == s[p]
  {
    k := PositionOf(order, |s|, p);
  }

  /** The geometry after projecting: every point replaced by the point of the profile line at
      the distance at which the point projects onto it. */
  function ProjectedGeometry(geometry: seq<Geometry>, project: Geometry -> real, interpolate: real -> Geometry): (r: seq<Geometry>)
    ensures |r| == |geometry|
    ensures forall i :: 0 <= i < |geometry| ==> r[i] == interpolate(project(geometry[i]))
  {
    seq(|geometry|, i requires 0 <= i < |geometry| => interpolate(project(geometry[i])))
  }

  /** `project_matched_points_on_profile_line`: a copy of the points; when there is at least
      one point its geometry is replaced by the projected points. The input is not changed. */
  method ProjectMatchedPointsOnProfileLine(points: GeoFrame, project: Geometry -> real, interpolate: real -> Geometry)
    returns (projected: GeoFrame)
    requires points.Valid()
    ensures fresh(projected) && projected.Valid()
    ensures projected.index == points.index && projected.columns == points.columns
    ensures |points.geometry| == 0 ==> projected.geometry == points.geometry
    ensures |points.geometry| > 0 ==> projected.geometry == ProjectedGeometry(points.geometry, project, interpolate)
  {
    projected := points.Copy();
    if |points.geometry| > 0 {
      projected.SetGeometry(ProjectedGeometry(projected.geometry, project, interpolate));
    }
  }

  /** The distance of every row's point along the profile line. */
  function Distances(geometry: seq<Geometry>, project: Geometry -> real): (r: seq<real>)
    ensures |r| == |geometry| && forall i :: 0 <= i < |geometry| ==> r[i] == project(geometry[i])
  {
    seq(|geometry|, i requires 0 <= i < |geometry| => project(geometry[i]))
  }

  /** The `distance` column after the row loop has written the first `done` rows; the others
      still hold the NaN the column was created with. */
  function DistanceColumn(distances: seq<real>, done: nat): (r: seq<Cell>)
    ensures |r| == |distances|
    ensures forall i :: 0 <= i < |distances| ==> r[i] == if i < done then Num(distances[i]) else Nan
  {
    seq(|distances|, i requires 0 <= i < |distances| => if i < done then Num(distances[i]) else Nan)
  }

  /** `order_gps_points_from_line_origin_on`. The points frame is changed in place: its index
      is reset (the old labels become a column) and a `distance` column holds each row's
      distance along the line. The result is a new frame with the same rows sorted by
      non-decreasing distance and labelled `0..n-1`. When `reset_index` cannot name the
      column of old labels, ValueError and the points stay as they were. */
  method OrderGpsPointsFromLineOriginOn(points: GeoFrame, project: Geometry -> real) returns (r: Result<GeoFrame>)
    requires points.Valid()
    modifies points
    ensures points.Valid() && points.geometry == old(points.geometry)
    ensures r.Err? <==> ResetIndexName(old(points.columns.Keys)).Err?
    ensures r.Err? ==>
      && r.error == ResetIndexName(old(points.columns.Keys)).error
      && points.index == old(points.index) && points.columns == old(points.columns)
    ensures r.Ok? ==>
      && points.index == Range(|points.geometry|)
      && points.columns == old(points.columns)
           [ResetIndexName(old(points.columns.Keys)).value := IndexCells(old(points.index))]
           ["distance" := DistanceColumn(Distances(points.geometry, project), |points.geometry|)]
    ensures r.Ok? ==>
      var n := |points.geometry|;
      && fresh(r.value) && r.value.Valid() && r.value.index == Range(n)
      && exists order: seq<nat> ::
           && |order| == n && multiset(order) == multiset(Range(n))
           && InRange(Distances(points.geometry, project), order)
           && SortedBy(Distances(points.geometry, project), order)
           && r.value.geometry == Permute(points.geometry, order)
           && r.value.columns == PermuteColumns(points.columns, order, n)
  {
    var reset := points.ResetIndex();
    if reset.Fail? {
      return Err(reset.error);
    }
    var n := |points.geometry|;
    var distances := Distances(points.geometry, project);
    ghost var labelled := points.columns;
    points.SetColumn("distance", DistanceColumn(distances, 0));
    for i := 0 to n
      invariant points.Valid() && points.geometry == old(points.geometry) && points.index == Range(n)
      invariant points.columns == labelled["distance" := DistanceColumn(distances, i)]
    {
      points.SetCell("distance", i, Num(project(points.geometry[i])));
      assert DistanceColumn(distances, i)[i := Num(distances[i])] == DistanceColumn(distances, i + 1);
    }
    var order := StableSortOrder(distances);
    var sorted := new GeoFrame(Range(n), Permute(points.geometry, order), PermuteColumns(points.columns, order, n));
    r := Ok(sorted);
  }
}
