/**
 * Two concrete slices over a raster with one valid cell (35000 m at
 * lon 0, lat 0) at 10 Ma, next to a NaN cell, with the default radius of 3.
 * The distance is left abstract; each lemma only says on which side of
 * the radius the point falls.
 */
module Scenarios {
  import opened Wrappers
  import opened Masking
  import opened Sorting
  import opened RasterIndex
  import opened Statistics
  import opened SpatialJoin

  /** The 10 Ma raster: one row of two cells, the second NaN. */
  function OneCellRaster(): Dataset {
    Dataset(map["z" := [[Some(35000.0), None]]], map["lon" := [0.0, 1.0], "lat" := [0.0]])
  }

  function OneCellGrid(): Grid {
    Grid([[Some(35000.0), None]], [0.0, 1.0], [0.0])
  }

  lemma ReadOneCell()
    ensures ReadGrid(OneCellRaster()) == Success(OneCellGrid())
  {
    assert "lon" in OneCellRaster().axes && "lat" in OneCellRaster().axes;
  }

  /** Masking a single row keeps the entries under its true mask cells. */
  lemma MaskOneRow<T>(row: seq<T>, m: seq<bool>)
    requires |row| == |m|
    ensures Select2([row], [m]) == Select(row, m)
  {
    assert [row][..0] == [] && [m][..0] == [];
  }

  lemma SelectFirstOfTwo<T>(a: T, b: T)
    ensures Select([a, b], [true, false]) == [a]
  {
    assert [a, b][..1] == [a] && [true, false][..1] == [true];
    assert [a][..0] == [] && [true][..0] == [];
    assert Select([a], [true]) == Select([], []) + [a] == [a];
    assert Select([a, b], [true, false]) == Select([a], [true]) + [];
  }

  /** Only the non-NaN cell survives the mask. */
  lemma MaskOneCell()
    ensures MaskGrid(OneCellGrid()) == Success(Cells([0.0], [0.0], [35000.0]))
  {
    var g := OneCellGrid();
    var mask := NotNaN(g.z);
    assert mask[0] == [true, false];
    assert mask == [[true, false]];
    assert MeshLons(g.lons, g.lats) == [[0.0, 1.0]];
    assert MeshLats(g.lons, g.lats)[0] == [0.0, 0.0];
    assert MeshLats(g.lons, g.lats) == [[0.0, 0.0]];
    assert Numbers(g.z)[0] == [35000.0, 0.0];
    assert Numbers(g.z) == [[35000.0, 0.0]];
    MaskOneRow([0.0, 1.0], [true, false]);
    MaskOneRow([0.0, 0.0], [true, false]);
    MaskOneRow([35000.0, 0.0], [true, false]);
    SelectFirstOfTwo(0.0, 1.0);
    SelectFirstOfTwo(0.0, 0.0);
    SelectFirstOfTwo(35000.0, 0.0);
  }

  lemma OneCellSurvives(open: real -> Option<Dataset>)
    requires open(10.0) == Some(OneCellRaster())
    ensures SliceCells(10.0, open) == Success(Cells([0.0], [0.0], [35000.0]))
  {
    ReadOneCell();
    MaskOneCell();
  }

  /** A one-point table keeps its point at its own age. */
  lemma SelectOnePoint(p: Point)
    ensures SelectTime([p], p.age) == [p]
  {
    assert AgeMask([p], p.age) == [true];
    assert [p][..0] == [] && [true][..0] == [];
    assert Select([p], [true]) == Select([], []) + [p] == [p];
  }

  /** Over a one-cell index the query lists the cell exactly when it is within the radius. */
  lemma QueryOneCell(c: Coord, q: Coord, radius: real, dist: (Coord, Coord) -> real)
    ensures QueryPoint([c], q, radius, dist) == if dist(q, c) <= radius then [0] else []
  {
    assert [c][..0] == [];
    var cs := Candidates([c], q, radius, dist);
    if dist(q, c) <= radius {
      assert cs == Candidates([], q, radius, dist) + [(0, dist(q, c))] == [(0, dist(q, c))];
      assert cs[1..] == [];
      assert InsertionSort(cs, NearerOrEqual) == Insert(cs[0], [], NearerOrEqual) == cs;
    } else {
      assert cs == Candidates([], q, radius, dist) + [] == [];
    }
  }

  /** The query of a single point is that point's neighbour list. */
  lemma QuerySinglePoint(index: seq<Coord>, q: Coord, radius: real, dist: (Coord, Coord) -> real)
    ensures RadiusNeighbors(index, [q], radius, dist) == Success([QueryPoint(index, q, radius, dist)])
  {
    var r := RadiusNeighbors(index, [q], radius, dist);
    assert |r.value| == 1 && r.value[0] == QueryPoint(index, q, radius, dist);
    assert r.value == [r.value[0]];
  }

  /** Attaching the statistics of one point. */
  lemma AttachOne(p: Point, st: PointStats)
    ensures Attach([p], [st]) ==
              [JoinedRow(p, st.mean, st.min, st.max, st.median, st.std, st.n, Difference(st.max, st.min))]
  {
    var out := Attach([p], [st]);
    assert out == [out[0]];
  }

  /** The statistics of a single matched value. */
  lemma OneValueStats(x: real, root: real -> real)
    requires IsSqrt(root)
    ensures RowStats([x], root) == PointStats(Some(x), Some(x), Some(x), Some(x), Some(0.0), 1)
  {
    SingleValue(x, root);
  }

  /** A one-point table at 10 Ma: the slice joins the point with the statistics of its reference neighbour list. */
  lemma OnePointSlice(p: Point, open: real -> Option<Dataset>, radius: real,
                      dist: (Coord, Coord) -> real, root: real -> real, idx: seq<nat>)
    requires open(10.0) == Some(OneCellRaster()) && p.age == 10.0
    requires idx == [] || idx == [0]
    requires QueryPoint([Coord(0.0, 0.0)], Coord(p.lat, p.lon), radius, dist) == idx
    ensures Slice(10.0, [p], open, radius, dist, root) == Success(Attach([p], ExpectedStats([35000.0], [idx], root)))
  {
    OneCellSurvives(open);
    SelectOnePoint(p);
    var index := [Coord(0.0, 0.0)];
    assert Stack(Cells([0.0], [0.0], [35000.0])) == index;
    var q := Coord(p.lat, p.lon);
    assert PointCoords([p]) == [q];
    QuerySinglePoint(index, q, radius, dist);
    assert Fit(index) == Success(index);
  }

  /**
   * A point within the radius of the one cell: one neighbour, every location
   * statistic 35000, range 0 and, for a true square root, deviation 0.
   */
  lemma NearPoint(open: real -> Option<Dataset>, dist: (Coord, Coord) -> real, root: real -> real)
    requires open(10.0) == Some(OneCellRaster())
    requires dist(Coord(0.0, 0.01), Coord(0.0, 0.0)) <= DefaultDistanceThreshold
    requires IsSqrt(root)
    ensures var p := Point(10.0, 0.01, 0.0, "a", []);
            Slice(10.0, [p], open, DefaultDistanceThreshold, dist, root) ==
              Success([JoinedRow(p, Some(35000.0), Some(35000.0), Some(35000.0), Some(35000.0),
                                 Some(0.0), 1, Some(0.0))])
  {
    var p := Point(10.0, 0.01, 0.0, "a", []);
    QueryOneCell(Coord(0.0, 0.0), Coord(0.0, 0.01), DefaultDistanceThreshold, dist);
    OnePointSlice(p, open, DefaultDistanceThreshold, dist, root, [0]);
    assert Pick([35000.0], [0]) == [35000.0];
    OneValueStats(35000.0, root);
    var stats := PointStats(Some(35000.0), Some(35000.0), Some(35000.0), Some(35000.0), Some(0.0), 1);
    assert ExpectedStats([35000.0], [[0]], root) == [stats];
    AttachOne(p, stats);
  }

  /** A point beyond the radius of the one cell: no neighbour, count 0, every statistic NaN. */
  lemma FarPoint(open: real -> Option<Dataset>, dist: (Coord, Coord) -> real, root: real -> real)
    requires open(10.0) == Some(OneCellRaster())
    requires dist(Coord(0.0, 10.0), Coord(0.0, 0.0)) > DefaultDistanceThreshold
    ensures var p := Point(10.0, 10.0, 0.0, "a", []);
            Slice(10.0, [p], open, DefaultDistanceThreshold, dist, root) ==
              Success([JoinedRow(p, None, None, None, None, None, 0, None)])
  {
    var p := Point(10.0, 10.0, 0.0, "a", []);
    QueryOneCell(Coord(0.0, 0.0), Coord(0.0, 10.0), DefaultDistanceThreshold, dist);
    OnePointSlice(p, open, DefaultDistanceThreshold, dist, root, []);
    assert ExpectedStats([35000.0], [[]], root) == [Unmatched];
    AttachOne(p, Unmatched);
  }
}
