/**
 * One time slice of the crustal-thickness raster: reading the grid from a
 * dataset (with the `lon`/`x` and `lat`/`y` axis fallback), discarding the
 * NaN cells while keeping coordinates and values aligned, stacking the
 * surviving coordinates as (lat, lon) pairs, and the radius query over them.
 *
 * The great-circle distance is the caller's `dist`; the query is specified
 * by `IsRadiusResult` (every cell within the radius, each once, nearest
 * first). `QueryPoint` is one function meeting that specification, so that
 * the model is total; the lemmas downstream rely on the specification only.
 */
module RasterIndex {
  import opened Wrappers
  import opened Errors
  import opened Masking
  import opened Sorting

  /** A position as the neighbour index sees it: latitude first. */
  datatype Coord = Coord(lat: real, lon: real)

  /** An opened raster file: its 2-D variables and its 1-D coordinate variables, by name. */
  datatype Dataset = Dataset(grids: map<string, seq<seq<Option<real>>>>, axes: map<string, seq<real>>)

  /** The thickness grid `z` (rows follow latitude) with its two axes. */
  datatype Grid = Grid(z: seq<seq<Option<real>>>, lons: seq<real>, lats: seq<real>)

  /** The surviving cells as three aligned arrays. */
  datatype Cells = Cells(lons: seq<real>, lats: seq<real>, values: seq<real>) {
    predicate Aligned() {
      |lons| == |lats| == |values|
    }
  }

  /**
   * Looks the names up in order and returns the first axis present; fails
   * with the last name when none is present (the KeyError that escapes).
   */
  function ResolveAxis(axes: map<string, seq<real>>, names: seq<string>): (r: Result<seq<real>, Error>)
    requires |names| > 0
    ensures r.Success? <==> exists k :: 0 <= k < |names| && names[k] in axes
    ensures r.Success? ==> exists k :: 0 <= k < |names| && names[k] in axes && r.value == axes[names[k]]
                                       && forall l :: 0 <= l < k ==> names[l] !in axes
    ensures r.Failure? ==> r.error == MissingVariable(names[|names| - 1])
  {
    if names[0] in axes then Success(axes[names[0]])
    else if |names| == 1 then Failure(MissingVariable(names[0]))
    else
      var rest := names[1..];
      var r := ResolveAxis(axes, rest);
      assert forall k :: 1 <= k < |names| ==> names[k] == rest[k - 1];
      assert r.Success? ==> exists k :: 0 <= k < |rest| && rest[k] in axes && r.value == axes[rest[k]]
                                       && forall l :: 0 <= l < k ==> rest[l] !in axes;
      r
  }

  /** Reads `z`, then the longitude axis (`lon`, else `x`), then the latitude axis (`lat`, else `y`). */
  function ReadGrid(ds: Dataset): (r: Result<Grid, Error>)
    ensures r.Failure? <==> "z" !in ds.grids || ("lon" !in ds.axes && "x" !in ds.axes)
                            || ("lat" !in ds.axes && "y" !in ds.axes)
    ensures r.Failure? ==> r.error == (if "z" !in ds.grids then MissingVariable("z")
                                       else if "lon" !in ds.axes && "x" !in ds.axes then MissingVariable("x")
                                       else MissingVariable("y"))
    ensures r.Success? ==> && r.value.z == ds.grids["z"]
                           && r.value.lons == (if "lon" in ds.axes then ds.axes["lon"] else ds.axes["x"])
                           && r.value.lats == (if "lat" in ds.axes then ds.axes["lat"] else ds.axes["y"])
  {
    if "z" !in ds.grids then Failure(MissingVariable("z"))
    else
      var lons :- ResolveAxis(ds.axes, ["lon", "x"]);
      var lats :- ResolveAxis(ds.axes, ["lat", "y"]);
      Success(Grid(ds.grids["z"], lons, lats))
  }

  /** `np.meshgrid(lons, lats)`, longitude half: every row is the longitude axis. */
  function MeshLons(lons: seq<real>, lats: seq<real>): seq<seq<real>> {
    seq(|lats|, j => lons)
  }

  /** `np.meshgrid(lons, lats)`, latitude half: row `j` repeats `lats[j]`. */
  function MeshLats(lons: seq<real>, lats: seq<real>): seq<seq<real>> {
    seq(|lats|, j requires 0 <= j < |lats| => seq(|lons|, i => lats[j]))
  }

  /** `~np.isnan(z)`. */
  function NotNaN(z: seq<seq<Option<real>>>): (m: seq<seq<bool>>)
    ensures SameShape(z, m)
  {
    seq(|z|, j requires 0 <= j < |z| => seq(|z[j]|, i requires 0 <= i < |z[j]| => z[j][i].Some?))
  }

  /**
   * The grid as numbers; a NaN cell holds a placeholder 0.0, which the
   * `NotNaN` mask never selects.
   */
  function Numbers(z: seq<seq<Option<real>>>): (n: seq<seq<real>>)
    ensures SameShape(z, n)
  {
    seq(|z|, j requires 0 <= j < |z| => seq(|z[j]|, i requires 0 <= i < |z[j]| => z[j][i].GetOr(0.0)))
  }

  /**
   * Masks the meshgrid and the grid with `~isnan(z)`. Indexing the meshgrid
   * with a mask of another shape raises, so a grid whose shape is not
   * (number of latitudes, number of longitudes) fails.
   */
  function MaskGrid(g: Grid): (r: Result<Cells, Error>)
    ensures r.Failure? ==> r.error == ShapeMismatch
  {
    var mask := NotNaN(g.z);
    var mlons := MeshLons(g.lons, g.lats);
    if !SameShape(mlons, mask) then Failure(ShapeMismatch)
    else
      var mlats := MeshLats(g.lons, g.lats);
      Success(Cells(Select2(mlons, mask), Select2(mlats, mask), Select2(Numbers(g.z), mask)))
  }

  /** Masking succeeds exactly when the grid has one row per latitude and one column per longitude. */
  lemma MaskShape(g: Grid)
    ensures MaskGrid(g).Success? <==>
              |g.z| == |g.lats| && forall j :: 0 <= j < |g.z| ==> |g.z[j]| == |g.lons|
  {
    var mask := NotNaN(g.z);
    var mlons := MeshLons(g.lons, g.lats);
    if |g.z| == |g.lats| && forall j :: 0 <= j < |g.z| ==> |g.z[j]| == |g.lons| {
      assert SameShape(mlons, mask);
    } else if |g.z| == |g.lats| {
      var j :| 0 <= j < |g.z| && |g.z[j]| != |g.lons|;
      assert |mlons[j]| != |mask[j]|;
    }
  }

  /** The three masked arrays have one entry per non-NaN cell. */
  lemma MaskedLengths(g: Grid)
    requires MaskGrid(g).Success?
    ensures var c := MaskGrid(g).value;
            c.Aligned() && |c.values| == |TruePositions(NotNaN(g.z))|
  {
    var mask := NotNaN(g.z);
    Select2At(Numbers(g.z), mask);
    Select2At(MeshLons(g.lons, g.lats), mask);
    Select2At(MeshLats(g.lons, g.lats), mask);
  }

  /** The k-th surviving triple comes from the k-th non-NaN cell. */
  lemma MaskedCell(g: Grid, k: nat)
    requires MaskGrid(g).Success?
    requires k < |TruePositions(NotNaN(g.z))|
    ensures var c := MaskGrid(g).value;
            var p := TruePositions(NotNaN(g.z))[k];
            && c.Aligned() && |c.values| == |TruePositions(NotNaN(g.z))|
            && p.0 < |g.lats| && p.1 < |g.lons|
            && c.lons[k] == g.lons[p.1] && c.lats[k] == g.lats[p.0]
            && g.z[p.0][p.1] == Some(c.values[k])
  {
    var mask := NotNaN(g.z);
    var mlons := MeshLons(g.lons, g.lats);
    var mlats := MeshLats(g.lons, g.lats);
    var nums := Numbers(g.z);
    var p := TruePositions(mask)[k];
    Select2At(nums, mask);
    Select2At(mlons, mask);
    Select2At(mlats, mask);
    TruePositionsSpec(mask);
    assert mask[p.0][p.1];
  }

  /**
   * When masking succeeds the three arrays are aligned and the k-th
   * surviving triple is (lons[i], lats[j], z[j][i]) for the k-th non-NaN
   * cell (j, i) in row-major order; the surviving cells are exactly the
   * non-NaN ones.
   */
  lemma MaskAligned(g: Grid)
    requires MaskGrid(g).Success?
    ensures var c := MaskGrid(g).value;
            var p := TruePositions(NotNaN(g.z));
            && c.Aligned() && |c.values| == |p|
            && (forall k :: 0 <= k < |p| ==>
                  p[k].0 < |g.lats| && p[k].1 < |g.lons| &&
                  c.lons[k] == g.lons[p[k].1] && c.lats[k] == g.lats[p[k].0] &&
                  g.z[p[k].0][p[k].1] == Some(c.values[k]))
            && (forall j, i :: 0 <= j < |g.z| && 0 <= i < |g.z[j]| && g.z[j][i].Some? ==> (j, i) in p)
            && (forall k, l :: 0 <= k < l < |p| ==> RowMajorBefore(p[k], p[l]))
  {
    var mask := NotNaN(g.z);
    var p := TruePositions(mask);
    var c := MaskGrid(g).value;
    MaskedLengths(g);
    TruePositionsSpec(mask);
    forall k | 0 <= k < |p|
      ensures p[k].0 < |g.lats| && p[k].1 < |g.lons|
      ensures c.lons[k] == g.lons[p[k].1] && c.lats[k] == g.lats[p[k].0]
      ensures g.z[p[k].0][p[k].1] == Some(c.values[k])
    {
      MaskedCell(g, k);
    }
    forall j, i | 0 <= j < |g.z| && 0 <= i < |g.z[j]| && g.z[j][i].Some?
      ensures (j, i) in p
    {
      assert mask[j][i];
    }
  }

  /** `np.hstack` of the masked latitudes and longitudes: the (lat, lon) rows fed to the index. */
  function Stack(c: Cells): (coords: seq<Coord>)
    requires c.Aligned()
    ensures |coords| == |c.values|
    ensures forall k :: 0 <= k < |coords| ==> coords[k] == Coord(c.lats[k], c.lons[k])
  {
    seq(|c.values|, k requires 0 <= k < |c.values| => Coord(c.lats[k], c.lons[k]))
  }

  /** Fitting the neighbour index; it refuses a training set with no rows. */
  function Fit(coords: seq<Coord>): (r: Result<seq<Coord>, Error>)
    ensures r.Failure? <==> |coords| == 0
    ensures r.Failure? ==> r.error == EmptyIndex
    ensures r.Success? ==> r.value == coords
  {
    if |coords| == 0 then Failure(EmptyIndex) else Success(coords)
  }

  /** The indexed cells within `radius` of `p`. */
  ghost function WithinRadius(index: seq<Coord>, p: Coord, radius: real, dist: (Coord, Coord) -> real): set<nat> {
    set c: nat | c < |index| && dist(p, index[c]) <= radius
  }

  /**
   * What the radius query promises for one point: every listed index is a
   * cell within the radius, every cell within the radius is listed, none
   * twice, and they come nearest first.
   */
  ghost predicate IsRadiusResult(index: seq<Coord>, p: Coord, radius: real,
                                 dist: (Coord, Coord) -> real, idx: seq<nat>) {
    && (forall k :: 0 <= k < |idx| ==> idx[k] < |index| && dist(p, index[idx[k]]) <= radius)
    && (forall c: nat :: c < |index| && dist(p, index[c]) <= radius ==> c in idx)
    && Distinct(idx)
    && (forall a, b :: 0 <= a < b < |idx| ==> dist(p, index[idx[a]]) <= dist(p, index[idx[b]]))
  }

  /** The cells within the radius with their distances, by ascending index. */
  function Candidates(index: seq<Coord>, p: Coord, radius: real,
                      dist: (Coord, Coord) -> real): seq<(nat, real)> {
    if index == [] then []
    else
      var n := |index| - 1;
      Candidates(index[..n], p, radius, dist) +
        (if dist(p, index[n]) <= radius then [(n, dist(p, index[n]))] else [])
  }

  predicate NearerOrEqual(a: (nat, real), b: (nat, real)) {
    a.1 <= b.1
  }

  /** The neighbour list of one point: the candidates sorted nearest first, distances dropped. */
  function QueryPoint(index: seq<Coord>, p: Coord, radius: real, dist: (Coord, Coord) -> real): seq<nat> {
    var sorted := InsertionSort(Candidates(index, p, radius, dist), NearerOrEqual);
    seq(|sorted|, k requires 0 <= k < |sorted| => sorted[k].0)
  }

  /**
   * `radius_neighbors` over all query points: one list per point, each
   * meeting the query specification; it refuses a query with no rows.
   */
  function RadiusNeighbors(index: seq<Coord>, points: seq<Coord>, radius: real,
                           dist: (Coord, Coord) -> real): (r: Result<seq<seq<nat>>, Error>)
    ensures r.Failure? <==> |points| == 0
    ensures r.Failure? ==> r.error == EmptyQuery
    ensures r.Success? ==> |r.value| == |points|
    ensures r.Success? ==> forall i :: 0 <= i < |points| ==> IsRadiusResult(index, points[i], radius, dist, r.value[i])
  {
    if |points| == 0 then Failure(EmptyQuery)
    else
      AllMeetSpec(index, points, radius, dist);
      Success(seq(|points|, i requires 0 <= i < |points| => QueryPoint(index, points[i], radius, dist)))
  }

  /** Every point's reference list meets the query specification. */
  lemma AllMeetSpec(index: seq<Coord>, points: seq<Coord>, radius: real, dist: (Coord, Coord) -> real)
    ensures forall i :: 0 <= i < |points| ==> IsRadiusResult(index, points[i], radius, dist, QueryPoint(index, points[i], radius, dist))
  {
    forall i | 0 <= i < |points|
      ensures IsRadiusResult(index, points[i], radius, dist, QueryPoint(index, points[i], radius, dist))
    {
      QueryPointMeetsSpec(index, points[i], radius, dist);
    }
  }

  /** Cell indices strictly ascend along the list, so no cell occurs twice. */
  predicate AscendingIds(cs: seq<(nat, real)>) {
    forall k, l :: 0 <= k < l < |cs| ==> cs[k].0 < cs[l].0
  }

  /** Each candidate is a cell within the radius paired with its distance. */
  lemma {:induction false} CandidatesSound(index: seq<Coord>, p: Coord, radius: real, dist: (Coord, Coord) -> real)
    ensures forall k :: 0 <= k < |Candidates(index, p, radius, dist)| ==>
              var e := Candidates(index, p, radius, dist)[k];
              e.0 < |index| && e.1 == dist(p, index[e.0]) && e.1 <= radius
  {
    if index != [] {
      var n := |index| - 1;
      CandidatesSound(index[..n], p, radius, dist);
      assert forall c :: 0 <= c < n ==> index[..n][c] == index[c];
    }
  }

  /** Every cell within the radius is a candidate, paired with its distance. */
  lemma {:induction false} CandidatesComplete(index: seq<Coord>, p: Coord, radius: real, dist: (Coord, Coord) -> real)
    ensures forall c: nat :: c < |index| && dist(p, index[c]) <= radius ==>
              (c, dist(p, index[c])) in Candidates(index, p, radius, dist)
  {
    if index != [] {
      var n := |index| - 1;
      CandidatesComplete(index[..n], p, radius, dist);
      var init := Candidates(index[..n], p, radius, dist);
      var cs := Candidates(index, p, radius, dist);
      forall c: nat | c < |index| && dist(p, index[c]) <= radius
        ensures (c, dist(p, index[c])) in cs
      {
        if c < n {
          assert index[..n][c] == index[c];
          assert (c, dist(p, index[c])) in init;
        } else {
          assert cs == init + [(n, dist(p, index[n]))];
        }
      }
    }
  }

  /** Candidates come by strictly ascending cell index. */
  lemma {:induction false} CandidatesAscending(index: seq<Coord>, p: Coord, radius: real, dist: (Coord, Coord) -> real)
    ensures AscendingIds(Candidates(index, p, radius, dist))
  {
    if index != [] {
      var n := |index| - 1;
      CandidatesAscending(index[..n], p, radius, dist);
      CandidatesSound(index[..n], p, radius, dist);
    }
  }

  /** The sorted candidates are the candidates again, each once, nearest first. */
  lemma SortedCandidatesSpec(index: seq<Coord>, p: Coord, radius: real, dist: (Coord, Coord) -> real)
    ensures var cs := Candidates(index, p, radius, dist);
            var sorted := InsertionSort(cs, NearerOrEqual);
            && (forall k :: 0 <= k < |sorted| ==> sorted[k] in cs)
            && (forall k :: 0 <= k < |cs| ==> cs[k] in sorted)
            && Distinct(sorted)
            && SortedBy(sorted, NearerOrEqual)
  {
    var cs := Candidates(index, p, radius, dist);
    var sorted := InsertionSort(cs, NearerOrEqual);
    CandidatesAscending(index, p, radius, dist);
    InsertionSortSorted(cs, NearerOrEqual);
    assert Distinct(cs) by {
      forall k, l | 0 <= k < l < |cs| ensures cs[k] != cs[l] {
        assert cs[k].0 < cs[l].0;
      }
    }
    PermutationKeepsDistinct(sorted, cs);
    forall k | 0 <= k < |sorted| ensures sorted[k] in cs {
      assert sorted[k] in multiset(sorted);
    }
    forall k | 0 <= k < |cs| ensures cs[k] in sorted {
      assert cs[k] in multiset(cs);
    }
  }

  /** Every listed cell lies within the radius, and the sort kept each distance with its cell. */
  lemma QuerySound(index: seq<Coord>, p: Coord, radius: real, dist: (Coord, Coord) -> real)
    ensures var sorted := InsertionSort(Candidates(index, p, radius, dist), NearerOrEqual);
            forall k :: 0 <= k < |sorted| ==>
              sorted[k].0 < |index| && sorted[k].1 == dist(p, index[sorted[k].0]) && sorted[k].1 <= radius
  {
    var cs := Candidates(index, p, radius, dist);
    var sorted := InsertionSort(cs, NearerOrEqual);
    CandidatesSound(index, p, radius, dist);
    SortedCandidatesSpec(index, p, radius, dist);
    forall k | 0 <= k < |sorted|
      ensures sorted[k].0 < |index| && sorted[k].1 == dist(p, index[sorted[k].0]) && sorted[k].1 <= radius
    {
      var m :| 0 <= m < |cs| && cs[m] == sorted[k];
    }
  }

  /** Every cell within the radius is listed. */
  lemma QueryComplete(index: seq<Coord>, p: Coord, radius: real, dist: (Coord, Coord) -> real)
    ensures forall c: nat :: c < |index| && dist(p, index[c]) <= radius ==> c in QueryPoint(index, p, radius, dist)
  {
    var cs := Candidates(index, p, radius, dist);
    var sorted := InsertionSort(cs, NearerOrEqual);
    var idx := QueryPoint(index, p, radius, dist);
    CandidatesComplete(index, p, radius, dist);
    SortedCandidatesSpec(index, p, radius, dist);
    forall c: nat | c < |index| && dist(p, index[c]) <= radius
      ensures c in idx
    {
      var e := (c, dist(p, index[c]));
      var k :| 0 <= k < |cs| && cs[k] == e;
      var m :| 0 <= m < |sorted| && sorted[m] == e;
      assert idx[m] == c;
    }
  }

  /** The reference query lists each cell at most once. */
  lemma QueryDistinct(index: seq<Coord>, p: Coord, radius: real, dist: (Coord, Coord) -> real)
    ensures Distinct(QueryPoint(index, p, radius, dist))
  {
    var sorted := InsertionSort(Candidates(index, p, radius, dist), NearerOrEqual);
    var idx := QueryPoint(index, p, radius, dist);
    QuerySound(index, p, radius, dist);
    SortedCandidatesSpec(index, p, radius, dist);
    forall a, b | 0 <= a < b < |idx| ensures idx[a] != idx[b] {
      assert sorted[a] != sorted[b];
    }
  }

  /** The reference query meets the query specification. */
  lemma QueryPointMeetsSpec(index: seq<Coord>, p: Coord, radius: real, dist: (Coord, Coord) -> real)
    ensures IsRadiusResult(index, p, radius, dist, QueryPoint(index, p, radius, dist))
  {
    var sorted := InsertionSort(Candidates(index, p, radius, dist), NearerOrEqual);
    var idx := QueryPoint(index, p, radius, dist);
    QuerySound(index, p, radius, dist);
    QueryComplete(index, p, radius, dist);
    QueryDistinct(index, p, radius, dist);
    SortedCandidatesSpec(index, p, radius, dist);
    forall a, b | 0 <= a < b < |idx|
      ensures dist(p, index[idx[a]]) <= dist(p, index[idx[b]])
    {
      assert NearerOrEqual(sorted[a], sorted[b]);
    }
  }

  /** A spec-conforming neighbour list has exactly as many entries as there are cells within the radius. */
  lemma RadiusCount(index: seq<Coord>, p: Coord, radius: real, dist: (Coord, Coord) -> real, idx: seq<nat>)
    requires IsRadiusResult(index, p, radius, dist, idx)
    ensures (set c | c in idx) == WithinRadius(index, p, radius, dist)
    ensures |idx| == |WithinRadius(index, p, radius, dist)|
  {
    var listed := Elements(idx);
    var near := WithinRadius(index, p, radius, dist);
    forall c | c in listed ensures c in near {
      var k :| 0 <= k < |idx| && idx[k] == c;
    }
    assert listed == near;
    DistinctCardinality(idx);
  }

  /**
   * A larger radius returns a superset of neighbours, hence at least as
   * many; this holds for any two results meeting the query specification.
   */
  lemma RadiusMonotone(index: seq<Coord>, p: Coord, r1: real, r2: real,
                       dist: (Coord, Coord) -> real, idx1: seq<nat>, idx2: seq<nat>)
    requires r1 <= r2
    requires IsRadiusResult(index, p, r1, dist, idx1) && IsRadiusResult(index, p, r2, dist, idx2)
    ensures forall c :: c in idx1 ==> c in idx2
    ensures |idx1| <= |idx2|
  {
    RadiusCount(index, p, r1, dist, idx1);
    RadiusCount(index, p, r2, dist, idx2);
    var near1, near2 := WithinRadius(index, p, r1, dist), WithinRadius(index, p, r2, dist);
    assert near1 <= near2;
    assert near2 == near1 + (near2 - near1);
    assert |near2| == |near1| + |near2 - near1|;
  }
}
