/**
 * The join of one time slice (`coregister_crustal_thickness`): keep the
 * points of that age, build the raster's neighbour index, query every point
 * within the radius, summarise the matched thickness values into six
 * preallocated column arrays, and attach them with the derived range.
 *
 * `Slice` states the whole result as a function; `Coregister` computes it
 * with the aggregation loop over the arrays of `StatArrays` and is proved
 * equal to it. The lemmas after them state what the result promises.
 */
module SpatialJoin {
  import opened Wrappers
  import opened Errors
  import opened Masking
  import opened Sorting
  import opened Statistics
  import opened RasterIndex

  /** The default search radius, in degrees of arc. */
  const DefaultDistanceThreshold: real := 3.0

  /** A point record: `age (Ma)`, position in degrees, the `label` column (the field `tag`, since `label` is a Dafny keyword), and other passenger columns. */
  datatype Point = Point(age: real, lon: real, lat: real, tag: string, others: seq<string>)

  /** The six statistics of one point; `None` is NaN. */
  datatype PointStats = PointStats(mean: Option<real>, min: Option<real>, max: Option<real>,
                                   median: Option<real>, std: Option<real>, n: int)

  /** What the preallocated arrays hold at every index: NaN, and a count of 0. */
  const Unmatched: PointStats := PointStats(None, None, None, None, None, 0)

  /** An output row: the point unchanged, with the seven derived columns appended. */
  datatype JoinedRow = JoinedRow(point: Point, mean: Option<real>, min: Option<real>, max: Option<real>,
                                 median: Option<real>, std: Option<real>, n: int, range: Option<real>)

  /** The six column arrays as values. */
  datatype Columns = Columns(mean: seq<Option<real>>, min: seq<Option<real>>, max: seq<Option<real>>,
                             median: seq<Option<real>>, std: seq<Option<real>>, n: seq<int>) {

    predicate HasSize(size: nat) {
      |mean| == |min| == |max| == |median| == |std| == |n| == size
    }

    /** The statistics at index `i` of every column. */
    function Row(i: nat): PointStats
      requires HasSize(|mean|) && i < |mean|
    {
      PointStats(mean[i], min[i], max[i], median[i], std[i], n[i])
    }

    /** The columns read row by row. */
    function Rows(): (rows: seq<PointStats>)
      requires HasSize(|mean|)
      ensures |rows| == |mean|
    {
      seq(|mean|, i requires 0 <= i < |mean| => Row(i))
    }
  }

  /** `df["age (Ma)"] == time`. */
  function AgeMask(df: seq<Point>, time: real): (m: seq<bool>)
    ensures |m| == |df|
  {
    seq(|df|, k requires 0 <= k < |df| => df[k].age == time)
  }

  /** `df[df["age (Ma)"] == time]`. */
  function SelectTime(df: seq<Point>, time: real): seq<Point> {
    Select(df, AgeMask(df, time))
  }

  /** The query coordinates of the points, latitude first. */
  function PointCoords(rows: seq<Point>): (coords: seq<Coord>)
    ensures |coords| == |rows|
    ensures forall k :: 0 <= k < |rows| ==> coords[k] == Coord(rows[k].lat, rows[k].lon)
  {
    seq(|rows|, k requires 0 <= k < |rows| => Coord(rows[k].lat, rows[k].lon))
  }

  /** Every neighbour index refers to a value. */
  predicate InRange(values: seq<real>, neighbours: seq<seq<nat>>) {
    forall i, k :: 0 <= i < |neighbours| && 0 <= k < |neighbours[i]| ==> neighbours[i][k] < |values|
  }

  /** `thickness[indices_point]`. */
  function Pick(values: seq<real>, idx: seq<nat>): (data: seq<real>)
    requires forall k :: 0 <= k < |idx| ==> idx[k] < |values|
    ensures |data| == |idx|
  {
    seq(|idx|, k requires 0 <= k < |idx| => values[idx[k]])
  }

  /** The statistics of one point: the defaults when nothing matched, otherwise the six statistics. */
  function RowStats(data: seq<real>, root: real -> real): PointStats {
    if |data| == 0 then Unmatched
    else PointStats(Some(Mean(data)), Some(Min(data)), Some(Max(data)), Some(Median(data)),
                    Some(Std(data, root)), |data|)
  }

  /** What the aggregation loop must leave in the arrays, row by row. */
  function ExpectedStats(values: seq<real>, neighbours: seq<seq<nat>>, root: real -> real): (stats: seq<PointStats>)
    requires InRange(values, neighbours)
    ensures |stats| == |neighbours|
  {
    seq(|neighbours|, i requires 0 <= i < |neighbours| => StatsOf(values, neighbours, i, root))
  }

  /** The statistics of point `i`'s neighbours. */
  function StatsOf(values: seq<real>, neighbours: seq<seq<nat>>, i: nat, root: real -> real): PointStats
    requires InRange(values, neighbours) && i < |neighbours|
  {
    RowStats(Pick(values, neighbours[i]), root)
  }

  /** NaN-propagating subtraction. */
  function Difference(a: Option<real>, b: Option<real>): Option<real> {
    if a.Some? && b.Some? then Some(a.value - b.value) else None
  }

  /** A point with its six statistics and `range = max - min` appended. */
  function Joined(p: Point, s: PointStats): JoinedRow {
    JoinedRow(p, s.mean, s.min, s.max, s.median, s.std, s.n, Difference(s.max, s.min))
  }

  /** Appends the columns to every row. */
  function Attach(rows: seq<Point>, stats: seq<PointStats>): (out: seq<JoinedRow>)
    requires |rows| == |stats|
    ensures |out| == |rows|
  {
    seq(|rows|, k requires 0 <= k < |rows| => Joined(rows[k], stats[k]))
  }

  /** Opening the raster file of a time slice; a missing file raises. */
  function Open(open: real -> Option<Dataset>, time: real): Result<Dataset, Error> {
    if open(time).Some? then Success(open(time).value) else Failure(FileNotFound(time))
  }

  /** The valid cells of the raster of `time`. */
  function SliceCells(time: real, open: real -> Option<Dataset>): (r: Result<Cells, Error>)
    ensures r.Success? ==> r.value.Aligned()
    ensures r.Failure? ==> r.error == FileNotFound(time) || r.error.MissingVariable? || r.error == ShapeMismatch
  {
    var ds :- Open(open, time);
    var grid :- ReadGrid(ds);
    var cells :- MaskGrid(grid);
    MaskedLengths(grid);
    Success(cells)
  }

  /** The joined rows of one time slice. */
  function Slice(time: real, df: seq<Point>, open: real -> Option<Dataset>, radius: real,
                 dist: (Coord, Coord) -> real, root: real -> real): Result<seq<JoinedRow>, Error> {
    var rows := SelectTime(df, time);
    var cells :- SliceCells(time, open);
    var index :- Fit(Stack(cells));
    var neighbours :- RadiusNeighbors(index, PointCoords(rows), radius, dist);
    Success(Attach(rows, ExpectedStats(cells.values, neighbours, root)))
  }

  /**
   * The six preallocated result arrays of one slice: each statistic starts
   * as NaN and the count as 0, and the loop writes one index at a time.
   */
  class StatArrays {
    const size: nat
    const mean: array<Option<real>>
    const min: array<Option<real>>
    const max: array<Option<real>>
    const median: array<Option<real>>
    const std: array<Option<real>>
    const n: array<int>
    ghost const Repr: set<object>

    ghost predicate Valid() {
      && Repr == {mean, min, max, median, std, n}
      && mean.Length == min.Length == max.Length == median.Length == std.Length == n.Length == size
      && mean != min && mean != max && mean != median && mean != std
      && min != max && min != median && min != std
      && max != median && max != std
      && median != std
    }

    /** `np.full(len(df), np.nan)` five times and `np.full(len(df), 0)` once. */
    constructor (size: nat)
      ensures Valid() && fresh(Repr) && this.size == size
      ensures forall i :: 0 <= i < size ==> RowAt(i) == Unmatched
    {
      this.size := size;
      mean := new Option<real>[size](_ => None);
      min := new Option<real>[size](_ => None);
      max := new Option<real>[size](_ => None);
      median := new Option<real>[size](_ => None);
      std := new Option<real>[size](_ => None);
      n := new int[size](_ => 0);
      Repr := {mean, min, max, median, std, n};
    }

    /** The statistics held at index `i`. */
    function RowAt(i: nat): PointStats
      requires Valid() && i < size
      reads Repr
    {
      PointStats(mean[i], min[i], max[i], median[i], std[i], n[i])
    }

    /** Writes the statistics of point `i`; every other index keeps what it held. */
    method Store(i: nat, s: PointStats)
      requires Valid() && i < size
      modifies Repr
      ensures Valid()
      ensures RowAt(i) == s
      ensures forall k :: 0 <= k < size && k != i ==> RowAt(k) == old(RowAt(k))
    {
      mean[i] := s.mean;
      min[i] := s.min;
      max[i] := s.max;
      median[i] := s.median;
      std[i] := s.std;
      n[i] := s.n;
    }

    /** The arrays as columns of values. */
    function Snapshot(): (cols: Columns)
      requires Valid()
      reads Repr
      ensures cols.HasSize(size)
      ensures forall i :: 0 <= i < size ==> cols.Row(i) == RowAt(i)
    {
      Columns(mean[..], min[..], max[..], median[..], std[..], n[..])
    }
  }

  /**
   * The aggregation loop: for every point with at least one neighbour, the
   * six statistics of the matched values go into that point's index; a
   * point with none keeps NaN and 0.
   */
  method Aggregate(values: seq<real>, neighbours: seq<seq<nat>>, root: real -> real) returns (cols: Columns)
    requires InRange(values, neighbours)
    ensures cols.HasSize(|neighbours|)
    ensures cols.Rows() == ExpectedStats(values, neighbours, root)
  {
    var arrays := new StatArrays(|neighbours|);
    for i := 0 to |neighbours|
      invariant arrays.Valid() && fresh(arrays.Repr) && arrays.size == |neighbours|
      invariant forall k :: 0 <= k < i ==> arrays.RowAt(k) == StatsOf(values, neighbours, k, root)
      invariant forall k :: i <= k < |neighbours| ==> arrays.RowAt(k) == Unmatched
    {
      var matched := neighbours[i];
      if |matched| != 0 {
        var data := Pick(values, matched);
        arrays.Store(i, PointStats(Some(Mean(data)), Some(Min(data)), Some(Max(data)),
                                   Some(Median(data)), Some(Std(data, root)), |data|));
      }
    }
    cols := arrays.Snapshot();
    assert forall i :: 0 <= i < |neighbours| ==> cols.Rows()[i] == cols.Row(i) == arrays.RowAt(i);
  }

  /** One time slice, computed with the aggregation loop; it is `Slice`. */
  method Coregister(time: real, df: seq<Point>, open: real -> Option<Dataset>, radius: real,
                    dist: (Coord, Coord) -> real, root: real -> real) returns (r: Result<seq<JoinedRow>, Error>)
    ensures r == Slice(time, df, open, radius, dist, root)
  {
    var rows := SelectTime(df, time);
    var cells :- SliceCells(time, open);
    var index :- Fit(Stack(cells));
    var neighbours :- RadiusNeighbors(index, PointCoords(rows), radius, dist);
    var cols := Aggregate(cells.values, neighbours, root);
    r := Success(Attach(rows, cols.Rows()));
  }

  /** The rows kept for `time` are exactly the points of that age, each once, in their original order. */
  lemma SelectTimeSpec(df: seq<Point>, time: real)
    ensures var rows := SelectTime(df, time);
            var ks := TrueIndices(AgeMask(df, time));
            && |rows| == |ks|
            && (forall k :: 0 <= k < |rows| ==> ks[k] < |df| && rows[k] == df[ks[k]] && rows[k].age == time)
            && (forall i :: 0 <= i < |df| && df[i].age == time ==> i in ks)
            && (forall k, l :: 0 <= k < l < |ks| ==> ks[k] < ks[l])
  {
    SelectAt(df, AgeMask(df, time));
    TrueIndicesSpec(AgeMask(df, time));
  }

  /** Appending one point appends it to its own age's selection and to no other. */
  lemma SelectTimeAppend(df: seq<Point>, x: Point, time: real)
    ensures SelectTime(df + [x], time) == SelectTime(df, time) + (if x.age == time then [x] else [])
  {
    var ext := df + [x];
    assert ext[..|df|] == df;
    assert AgeMask(ext, time)[..|df|] == AgeMask(df, time);
  }

  /**
   * The statistics of one point whose neighbour list meets the query
   * specification: the count is the number of cells within the radius; with
   * none, every statistic is NaN; otherwise the minimum and the maximum are
   * values of cells within the radius and bound all of them.
   */
  lemma MatchedStats(index: seq<Coord>, values: seq<real>, p: Coord, radius: real,
                     dist: (Coord, Coord) -> real, idx: seq<nat>, root: real -> real)
    requires |index| == |values|
    requires IsRadiusResult(index, p, radius, dist, idx)
    ensures var s := RowStats(Pick(values, idx), root);
            var near := WithinRadius(index, p, radius, dist);
            && s.n == |near|
            && (|near| == 0 ==> s == Unmatched)
            && (|near| > 0 ==>
                  && s.min.Some? && s.max.Some?
                  && (exists c :: c in near && s.min.value == values[c])
                  && (exists c :: c in near && s.max.value == values[c])
                  && (forall c :: c in near ==> s.min.value <= values[c] <= s.max.value))
  {
    var near := WithinRadius(index, p, radius, dist);
    var data := Pick(values, idx);
    RadiusCount(index, p, radius, dist, idx);
    if |near| > 0 {
      var j :| 0 <= j < |data| && data[j] == Min(data);
      assert idx[j] in near;
      var l :| 0 <= l < |data| && data[l] == Max(data);
      assert idx[l] in near;
      forall c | c in near ensures Min(data) <= values[c] <= Max(data) {
        var m :| 0 <= m < |idx| && idx[m] == c;
        assert data[m] == values[c];
      }
    }
  }

  /** The order facts of one point's statistics, and the range identity. */
  lemma StatsOrdered(data: seq<real>, root: real -> real)
    ensures var s := RowStats(data, root);
            var range := Difference(s.max, s.min);
            && (s.n >= 1 ==>
                  && s.mean.Some? && s.min.Some? && s.max.Some? && s.median.Some? && s.std.Some? && range.Some?
                  && s.min.value <= s.mean.value <= s.max.value
                  && s.min.value <= s.median.value <= s.max.value
                  && range.value == s.max.value - s.min.value && 0.0 <= range.value
                  && (IsSqrt(root) ==> 0.0 <= s.std.value))
            && (s.n == 1 ==>
                  && s.mean == s.min == s.max == s.median && range == Some(0.0)
                  && (IsSqrt(root) ==> s.std == Some(0.0)))
  {
    if |data| >= 1 {
      MeanBounds(data);
      MedianBounds(data);
      if IsSqrt(root) {
        StdIsRootOfVariance(data, root);
      }
      if |data| == 1 {
        assert data == [data[0]];
        SingleValue(data[0], root);
      }
    }
  }

  /**
   * How a slice ends: it fails with the raster's error when the raster cannot
   * be opened, read or masked; with `EmptyIndex` when no cell survives the
   * NaN mask; with `EmptyQuery` when no point has this age; and otherwise it
   * succeeds. The outcome does not depend on the radius.
   */
  lemma SliceOutcome(time: real, df: seq<Point>, open: real -> Option<Dataset>, radius: real,
                     dist: (Coord, Coord) -> real, root: real -> real)
    ensures var out := Slice(time, df, open, radius, dist, root);
            var cells := SliceCells(time, open);
            && (cells.Failure? ==> out == Failure(cells.error))
            && (cells.Success? && |cells.value.values| == 0 ==> out == Failure(EmptyIndex))
            && (cells.Success? && |cells.value.values| > 0 && |SelectTime(df, time)| == 0 ==> out == Failure(EmptyQuery))
            && (out.Success? <==> cells.Success? && |cells.value.values| > 0 && |SelectTime(df, time)| > 0)
  {
  }

  /** An all-NaN raster of the right shape has no cell to index, so the slice fails. */
  lemma AllNaNRasterFails(time: real, df: seq<Point>, open: real -> Option<Dataset>, radius: real,
                          dist: (Coord, Coord) -> real, root: real -> real)
    requires open(time).Some? && ReadGrid(open(time).value).Success?
    requires var g := ReadGrid(open(time).value).value;
             && MaskGrid(g).Success?
             && forall j, i :: 0 <= j < |g.z| && 0 <= i < |g.z[j]| ==> g.z[j][i].None?
    ensures Slice(time, df, open, radius, dist, root) == Failure(EmptyIndex)
  {
    var g := ReadGrid(open(time).value).value;
    var mask := NotNaN(g.z);
    MaskedLengths(g);
    NoTruePositions(mask);
    SliceOutcome(time, df, open, radius, dist, root);
  }

  /**
   * Row `c` of a slice's neighbour index and value `c` of its thickness
   * array come from the `c`-th non-NaN cell (j, i), in row-major order, of
   * the `z` grid of the raster opened for that time: the row is
   * (lats[j], lons[i]) and the value is z[j][i].
   */
  lemma IndexedCell(time: real, open: real -> Option<Dataset>, c: nat)
    requires SliceCells(time, open).Success?
    requires c < |SliceCells(time, open).value.values|
    ensures open(time).Some? && ReadGrid(open(time).value).Success?
    ensures var g := ReadGrid(open(time).value).value;
            var cells := SliceCells(time, open).value;
            var p := TruePositions(NotNaN(g.z));
            && c < |p| && p[c].0 < |g.lats| && p[c].1 < |g.lons|
            && Stack(cells)[c] == Coord(g.lats[p[c].0], g.lons[p[c].1])
            && g.z[p[c].0][p[c].1] == Some(cells.values[c])
  {
    var g := ReadGrid(open(time).value).value;
    MaskedLengths(g);
    MaskedCell(g, c);
  }

  /** Every output row is the corresponding kept point, unchanged, in the same order. */
  lemma SliceRows(time: real, df: seq<Point>, open: real -> Option<Dataset>, radius: real,
                  dist: (Coord, Coord) -> real, root: real -> real)
    requires Slice(time, df, open, radius, dist, root).Success?
    ensures var out := Slice(time, df, open, radius, dist, root).value;
            && |out| == |SelectTime(df, time)|
            && forall k :: 0 <= k < |out| ==> out[k].point == SelectTime(df, time)[k]
  {
  }

  /**
   * Row `k` of a slice is its point joined with the statistics of a
   * neighbour list that meets the query specification over the surviving
   * cells.
   */
  lemma SliceRow(time: real, df: seq<Point>, open: real -> Option<Dataset>, radius: real,
                 dist: (Coord, Coord) -> real, root: real -> real, k: nat)
    requires Slice(time, df, open, radius, dist, root).Success?
    requires k < |Slice(time, df, open, radius, dist, root).value|
    ensures var row := Slice(time, df, open, radius, dist, root).value[k];
            var cells := SliceCells(time, open).value;
            && |Stack(cells)| == |cells.values|
            && exists idx :: IsRadiusResult(Stack(cells), Coord(row.point.lat, row.point.lon), radius, dist, idx) &&
                             row == Joined(row.point, RowStats(Pick(cells.values, idx), root))
  {
    var rows := SelectTime(df, time);
    var cells := SliceCells(time, open).value;
    var index := Stack(cells);
    var points := PointCoords(rows);
    var neighbours := RadiusNeighbors(index, points, radius, dist).value;
    var row := Slice(time, df, open, radius, dist, root).value[k];
    assert row == Joined(rows[k], RowStats(Pick(cells.values, neighbours[k]), root));
    assert IsRadiusResult(index, points[k], radius, dist, neighbours[k]);
  }

  /**
   * Row `k` of a slice: its count is the number of surviving cells within
   * the radius of the point; with none every statistic and the range are
   * NaN; otherwise the minimum and maximum are values of such cells and
   * bound all of them.
   */
  lemma SliceRowStats(time: real, df: seq<Point>, open: real -> Option<Dataset>, radius: real,
                      dist: (Coord, Coord) -> real, root: real -> real, k: nat)
    requires Slice(time, df, open, radius, dist, root).Success?
    requires k < |Slice(time, df, open, radius, dist, root).value|
    ensures var row := Slice(time, df, open, radius, dist, root).value[k];
            var cells := SliceCells(time, open).value;
            var near := WithinRadius(Stack(cells), Coord(row.point.lat, row.point.lon), radius, dist);
            && row.n == |near|
            && (row.n == 0 ==> row.mean == row.min == row.max == row.median == row.std == row.range == None)
            && (row.n > 0 ==>
                  && row.min.Some? && row.max.Some?
                  && (exists c :: c in near && row.min.value == cells.values[c])
                  && (exists c :: c in near && row.max.value == cells.values[c])
                  && (forall c :: c in near ==> row.min.value <= cells.values[c] <= row.max.value))
  {
    var row := Slice(time, df, open, radius, dist, root).value[k];
    var cells := SliceCells(time, open).value;
    SliceRow(time, df, open, radius, dist, root, k);
    var idx :| IsRadiusResult(Stack(cells), Coord(row.point.lat, row.point.lon), radius, dist, idx) &&
               row == Joined(row.point, RowStats(Pick(cells.values, idx), root));
    MatchedStats(Stack(cells), cells.values, Coord(row.point.lat, row.point.lon), radius, dist, idx, root);
  }

  /**
   * Row `k` of a slice with at least one neighbour: all seven statistics are
   * numbers, min <= mean <= max, min <= median <= max, the range is
   * max - min and not negative, and the deviation is not negative for a true
   * square root; with exactly one neighbour the location statistics
   * coincide, the range is 0 and so is the deviation.
   */
  lemma SliceRowOrder(time: real, df: seq<Point>, open: real -> Option<Dataset>, radius: real,
                      dist: (Coord, Coord) -> real, root: real -> real, k: nat)
    requires Slice(time, df, open, radius, dist, root).Success?
    requires k < |Slice(time, df, open, radius, dist, root).value|
    ensures var row := Slice(time, df, open, radius, dist, root).value[k];
            && row.range == Difference(row.max, row.min)
            && (row.n >= 1 ==>
                  && row.mean.Some? && row.min.Some? && row.max.Some? && row.median.Some? && row.std.Some?
                  && row.range.Some?
                  && row.min.value <= row.mean.value <= row.max.value
                  && row.min.value <= row.median.value <= row.max.value
                  && row.range.value == row.max.value - row.min.value && 0.0 <= row.range.value
                  && (IsSqrt(root) ==> 0.0 <= row.std.value))
            && (row.n == 1 ==>
                  && row.mean == row.min == row.max == row.median && row.range == Some(0.0)
                  && (IsSqrt(root) ==> row.std == Some(0.0)))
  {
    var row := Slice(time, df, open, radius, dist, root).value[k];
    var cells := SliceCells(time, open).value;
    SliceRow(time, df, open, radius, dist, root, k);
    var idx :| IsRadiusResult(Stack(cells), Coord(row.point.lat, row.point.lon), radius, dist, idx) &&
               row == Joined(row.point, RowStats(Pick(cells.values, idx), root));
    StatsOrdered(Pick(cells.values, idx), root);
  }

  /**
   * For two neighbour lists of the same point meeting the query
   * specification at radii r1 <= r2: the count does not decrease, the
   * minimum does not increase and the maximum does not decrease.
   */
  lemma StatsMonotone(index: seq<Coord>, values: seq<real>, p: Coord, r1: real, r2: real,
                      dist: (Coord, Coord) -> real, idx1: seq<nat>, idx2: seq<nat>, root: real -> real)
    requires |index| == |values| && r1 <= r2
    requires IsRadiusResult(index, p, r1, dist, idx1) && IsRadiusResult(index, p, r2, dist, idx2)
    ensures var a := RowStats(Pick(values, idx1), root);
            var b := RowStats(Pick(values, idx2), root);
            && a.n <= b.n
            && (a.n >= 1 ==> a.min.Some? && b.min.Some? && a.max.Some? && b.max.Some?
                             && b.min.value <= a.min.value && a.max.value <= b.max.value)
  {
    RadiusMonotone(index, p, r1, r2, dist, idx1, idx2);
    MatchedStats(index, values, p, r1, dist, idx1, root);
    MatchedStats(index, values, p, r2, dist, idx2, root);
    var near1 := WithinRadius(index, p, r1, dist);
    var near2 := WithinRadius(index, p, r2, dist);
    assert near1 <= near2;
  }

  /**
   * Widening the radius: the slice still succeeds with the same rows, every
   * point's count does not decrease, its minimum does not increase and its
   * maximum does not decrease.
   */
  lemma SliceRadiusMonotone(time: real, df: seq<Point>, open: real -> Option<Dataset>, r1: real, r2: real,
                            dist: (Coord, Coord) -> real, root: real -> real, k: nat)
    requires r1 <= r2
    requires Slice(time, df, open, r1, dist, root).Success?
    requires k < |Slice(time, df, open, r1, dist, root).value|
    ensures Slice(time, df, open, r2, dist, root).Success?
    ensures |Slice(time, df, open, r2, dist, root).value| == |Slice(time, df, open, r1, dist, root).value|
    ensures var a := Slice(time, df, open, r1, dist, root).value[k];
            var b := Slice(time, df, open, r2, dist, root).value[k];
            && a.point == b.point
            && a.n <= b.n
            && (a.n >= 1 ==> a.min.Some? && b.min.Some? && a.max.Some? && b.max.Some?
                             && b.min.value <= a.min.value && a.max.value <= b.max.value)
  {
    SliceOutcome(time, df, open, r1, dist, root);
    SliceOutcome(time, df, open, r2, dist, root);
    SliceRows(time, df, open, r1, dist, root);
    SliceRows(time, df, open, r2, dist, root);
    var a := Slice(time, df, open, r1, dist, root).value[k];
    var b := Slice(time, df, open, r2, dist, root).value[k];
    var cells := SliceCells(time, open).value;
    var p := Coord(a.point.lat, a.point.lon);
    SliceRow(time, df, open, r1, dist, root, k);
    SliceRow(time, df, open, r2, dist, root, k);
    var idx1 :| IsRadiusResult(Stack(cells), p, r1, dist, idx1) &&
                a == Joined(a.point, RowStats(Pick(cells.values, idx1), root));
    var idx2 :| IsRadiusResult(Stack(cells), p, r2, dist, idx2) &&
                b == Joined(b.point, RowStats(Pick(cells.values, idx2), root));
    StatsMonotone(Stack(cells), cells.values, p, r1, r2, dist, idx1, idx2, root);
  }

  /** Selecting an age twice keeps what selecting it once kept. */
  lemma {:induction false} SelectTimeIdempotent(df: seq<Point>, time: real)
    ensures SelectTime(SelectTime(df, time), time) == SelectTime(df, time)
  {
    if df != [] {
      var init := df[..|df| - 1];
      var x := df[|df| - 1];
      assert df == init + [x];
      SelectTimeAppend(init, x, time);
      SelectTimeIdempotent(init, time);
      if x.age == time {
        SelectTimeAppend(SelectTime(init, time), x, time);
      } else {
        assert SelectTime(df, time) == SelectTime(init, time) + [] == SelectTime(init, time);
      }
    }
  }

  /** Joining the group of an age is joining the whole table at that age. */
  lemma SliceOfGroup(time: real, df: seq<Point>, open: real -> Option<Dataset>, radius: real,
                     dist: (Coord, Coord) -> real, root: real -> real)
    ensures Slice(time, SelectTime(df, time), open, radius, dist, root) == Slice(time, df, open, radius, dist, root)
  {
    SelectTimeIdempotent(df, time);
  }
}
