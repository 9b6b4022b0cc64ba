/**
 * `run_coregister_crustal_thickness`: group the points by age, join every
 * group to the raster of its age, concatenate the joined groups in key
 * order, and sort the result by (label, age) when the table has a label
 * column and by age otherwise.
 *
 * `RunSpec` states the result as a function; `Run` computes it with the
 * loop over the groups and is proved equal to it.
 */
module Orchestrator {
  import opened Wrappers
  import opened Errors
  import opened Masking
  import opened Sorting
  import opened RasterIndex
  import opened SpatialJoin

  /** The input table: whether it has a `label` column, and its rows. */
  datatype Table = Table(hasLabel: bool, rows: seq<Point>)

  /** The parameters every slice shares: the raster opener, the radius, the distance and the square root. */
  datatype Config = Config(open: real -> Option<Dataset>, radius: real,
                           dist: (Coord, Coord) -> real, root: real -> real)

  /** The ages that occur in `rows`, each once, in order of first occurrence. */
  function DistinctAges(rows: seq<Point>): (ages: seq<real>)
    ensures Distinct(ages)
    ensures forall i :: 0 <= i < |rows| ==> rows[i].age in ages
    ensures forall k :: 0 <= k < |ages| ==> exists i :: 0 <= i < |rows| && rows[i].age == ages[k]
  {
    if rows == [] then []
    else
      var init := rows[..|rows| - 1];
      var last := rows[|rows| - 1];
      var ages := DistinctAges(init);
      assert forall i :: 0 <= i < |init| ==> init[i] == rows[i];
      if last.age in ages then ages else ages + [last.age]
  }

  /** The keys of `groupby("age (Ma)")`: the distinct ages, ascending. */
  function GroupKeys(rows: seq<Point>): seq<real> {
    InsertionSort(DistinctAges(rows), RealLe)
  }

  /** The group keys ascend strictly, and they are exactly the ages of the rows. */
  lemma GroupKeysSpec(rows: seq<Point>)
    ensures var keys := GroupKeys(rows);
            && (forall i, j :: 0 <= i < j < |keys| ==> keys[i] < keys[j])
            && (forall i :: 0 <= i < |rows| ==> rows[i].age in keys)
            && (forall k :: 0 <= k < |keys| ==> exists i :: 0 <= i < |rows| && rows[i].age == keys[k])
  {
    var ages := DistinctAges(rows);
    var keys := GroupKeys(rows);
    InsertionSortSorted(ages, RealLe);
    PermutationKeepsDistinct(keys, ages);
    forall i | 0 <= i < |rows| ensures rows[i].age in keys {
      assert rows[i].age in multiset(ages);
    }
    forall k | 0 <= k < |keys| ensures exists i :: 0 <= i < |rows| && rows[i].age == keys[k] {
      assert keys[k] in multiset(ages);
      var m :| 0 <= m < |ages| && ages[m] == keys[k];
    }
  }

  /**
   * Gathers the joined groups in order: all of them when every join
   * succeeded, otherwise the error of the first one that failed.
   */
  function Collect(results: seq<Result<seq<JoinedRow>, Error>>): (r: Result<seq<seq<JoinedRow>>, Error>)
    ensures r.Success? <==> forall i :: 0 <= i < |results| ==> results[i].Success?
    ensures r.Success? ==> |r.value| == |results| &&
                           forall i :: 0 <= i < |results| ==> results[i] == Success(r.value[i])
    ensures r.Failure? ==> exists i :: 0 <= i < |results| && results[i] == Failure(r.error) &&
                                       forall j :: 0 <= j < i ==> results[j].Success?
  {
    if results == [] then Success([])
    else
      var first :- results[0];
      var rest := Collect(results[1..]);
      assert forall i :: 1 <= i < |results| ==> results[i] == results[1..][i - 1];
      if rest.Failure? then
        var k :| 0 <= k < |results[1..]| && results[1..][k] == Failure(rest.error) &&
                 forall j :: 0 <= j < k ==> results[1..][j].Success?;
        assert results[k + 1] == Failure(rest.error);
        Failure(rest.error)
      else Success([first] + rest.value)
  }

  /** The join of every group, in key order; each group is the rows of its age. */
  function Joins(keys: seq<real>, rows: seq<Point>, cfg: Config): (js: seq<Result<seq<JoinedRow>, Error>>)
    ensures |js| == |keys|
  {
    seq(|keys|, i requires 0 <= i < |keys| =>
      Slice(keys[i], SelectTime(rows, keys[i]), cfg.open, cfg.radius, cfg.dist, cfg.root))
  }

  /** `pd.concat` of the joined groups, in order. */
  function Concat(parts: seq<seq<JoinedRow>>): seq<JoinedRow> {
    if parts == [] then [] else parts[0] + Concat(parts[1..])
  }

  /** Python's string order: lexicographic by character, a prefix first. */
  predicate StrLe(a: string, b: string) {
    a == [] || (b != [] && (a[0] < b[0] || (a[0] == b[0] && StrLe(a[1..], b[1..]))))
  }

  /** The sort key order: by label then age when there is a label column, by age alone otherwise. */
  predicate KeyLe(hasLabel: bool, x: JoinedRow, y: JoinedRow) {
    if hasLabel then
      (x.point.tag != y.point.tag && StrLe(x.point.tag, y.point.tag))
      || (x.point.tag == y.point.tag && x.point.age <= y.point.age)
    else x.point.age <= y.point.age
  }

  function RowLe(hasLabel: bool): (JoinedRow, JoinedRow) -> bool {
    (x, y) => KeyLe(hasLabel, x, y)
  }

  /** The joined dataset; a table with no rows has no group, and concatenating nothing raises. */
  function RunSpec(table: Table, cfg: Config): Result<seq<JoinedRow>, Error> {
    var keys := GroupKeys(table.rows);
    if |keys| == 0 then Failure(NothingToConcatenate)
    else
      var parts :- Collect(Joins(keys, table.rows, cfg));
      Success(InsertionSort(Concat(parts), RowLe(table.hasLabel)))
  }

  /**
   * The orchestration loop: one join per group, in key order, collected into
   * a list, stopping at the first join that raises.
   */
  method JoinAll(keys: seq<real>, rows: seq<Point>, cfg: Config) returns (r: Result<seq<seq<JoinedRow>>, Error>)
    ensures r == Collect(Joins(keys, rows, cfg))
  {
    ghost var joins := Joins(keys, rows, cfg);
    var parts: seq<seq<JoinedRow>> := [];
    for g := 0 to |keys|
      invariant Collect(joins[..g]) == Success(parts)
    {
      var part := JoinGroup(keys, rows, cfg, g);
      if part.Failure? {
        CollectStopsAt(joins, parts, g);
        return Failure(part.error);
      }
      CollectGrows(joins, parts, g);
      parts := parts + [part.value];
    }
    assert joins[..|keys|] == joins;
    r := Success(parts);
  }

  /** The join of group `g`: the slice of its own rows at its key. */
  method JoinGroup(keys: seq<real>, rows: seq<Point>, cfg: Config, g: nat) returns (part: Result<seq<JoinedRow>, Error>)
    requires g < |keys|
    ensures part == Joins(keys, rows, cfg)[g]
  {
    part := Coregister(keys[g], SelectTime(rows, keys[g]), cfg.open, cfg.radius, cfg.dist, cfg.root);
  }

  /** The whole run: the groups' joins, concatenated, then sorted. */
  method Run(table: Table, cfg: Config) returns (r: Result<seq<JoinedRow>, Error>)
    ensures r == RunSpec(table, cfg)
  {
    var keys := GroupKeys(table.rows);
    var parts :- JoinAll(keys, table.rows, cfg);
    if |keys| == 0 {
      return Failure(NothingToConcatenate);
    }
    r := Success(InsertionSort(Concat(parts), RowLe(table.hasLabel)));
  }

  /** Once a prefix has been collected, a failure right after it is the error of the whole collection. */
  lemma CollectStopsAt(results: seq<Result<seq<JoinedRow>, Error>>, parts: seq<seq<JoinedRow>>, g: nat)
    requires g < |results| && results[g].Failure?
    requires Collect(results[..g]) == Success(parts)
    ensures Collect(results) == Failure(results[g].error)
  {
    assert forall i :: 0 <= i < g ==> results[i] == results[..g][i];
    var c := Collect(results);
    var k :| 0 <= k < |results| && results[k] == Failure(c.error) && forall j :: 0 <= j < k ==> results[j].Success?;
    assert k == g;
  }

  /** Once a prefix has been collected, a success right after it extends the collected values by its own. */
  lemma CollectGrows(results: seq<Result<seq<JoinedRow>, Error>>, parts: seq<seq<JoinedRow>>, g: nat)
    requires g < |results| && results[g].Success?
    requires Collect(results[..g]) == Success(parts)
    ensures Collect(results[..g + 1]) == Success(parts + [results[g].value])
  {
    var next := results[..g + 1];
    assert forall i :: 0 <= i < g ==> next[i] == results[..g][i];
    CollectAll(next, parts + [results[g].value]);
  }

  /** Collecting joins that all succeeded gives their values, in order. */
  lemma CollectAll(results: seq<Result<seq<JoinedRow>, Error>>, parts: seq<seq<JoinedRow>>)
    requires |parts| == |results|
    requires forall i :: 0 <= i < |results| ==> results[i] == Success(parts[i])
    ensures Collect(results) == Success(parts)
  {
    var c := Collect(results);
    assert c.Success?;
    assert forall i :: 0 <= i < |results| ==> c.value[i] == parts[i];
    assert c.value == parts;
  }

  /** Any two strings are comparable. */
  lemma {:induction false} StrLeTotal(a: string, b: string)
    ensures StrLe(a, b) || StrLe(b, a)
  {
    if a != [] && b != [] && a[0] == b[0] {
      StrLeTotal(a[1..], b[1..]);
    }
  }

  /** Strings that are each `StrLe` the other are equal. */
  lemma {:induction false} StrLeAntisymmetric(a: string, b: string)
    requires StrLe(a, b) && StrLe(b, a)
    ensures a == b
  {
    if a != [] && b != [] {
      StrLeAntisymmetric(a[1..], b[1..]);
      assert a == [a[0]] + a[1..] && b == [b[0]] + b[1..];
    }
  }

  lemma {:induction false} StrLeTransitive(a: string, b: string, c: string)
    requires StrLe(a, b) && StrLe(b, c)
    ensures StrLe(a, c)
  {
    if a != [] && b != [] && c != [] && a[0] == b[0] && b[0] == c[0] {
      StrLeTransitive(a[1..], b[1..], c[1..]);
    }
  }

  /** The sort order is total. */
  lemma RowLeTotal(hasLabel: bool)
    ensures Total(RowLe(hasLabel))
  {
    forall x, y ensures KeyLe(hasLabel, x, y) || KeyLe(hasLabel, y, x) {
      StrLeTotal(x.point.tag, y.point.tag);
    }
  }

  /** The sort order is transitive. */
  lemma RowLeTransitive(hasLabel: bool)
    ensures Transitive(RowLe(hasLabel))
  {
    forall x, y, z | KeyLe(hasLabel, x, y) && KeyLe(hasLabel, y, z)
      ensures KeyLe(hasLabel, x, z)
    {
      var a, b, c := x.point.tag, y.point.tag, z.point.tag;
      if hasLabel && a != b && b != c {
        StrLeTransitive(a, b, c);
        if a == c {
          StrLeAntisymmetric(a, b);
        }
      }
    }
  }

  /**
   * The joined dataset is sorted: by label and then by age when the table has
   * a label column, by age otherwise.
   */
  lemma RunSorted(table: Table, cfg: Config)
    requires RunSpec(table, cfg).Success?
    ensures var out := RunSpec(table, cfg).value;
            forall i, j :: 0 <= i < j < |out| ==> KeyLe(table.hasLabel, out[i], out[j])
  {
    var parts := Collect(Joins(GroupKeys(table.rows), table.rows, cfg)).value;
    RowLeTotal(table.hasLabel);
    RowLeTransitive(table.hasLabel);
    InsertionSortSorted(Concat(parts), RowLe(table.hasLabel));
  }

  /** The points of the joined rows. */
  function Points(rows: seq<JoinedRow>): (ps: seq<Point>)
    ensures |ps| == |rows|
  {
    seq(|rows|, k requires 0 <= k < |rows| => rows[k].point)
  }

  /** The points of a concatenation are the concatenated points. */
  lemma PointsAppend(a: seq<JoinedRow>, b: seq<JoinedRow>)
    ensures Points(a + b) == Points(a) + Points(b)
  {
    assert forall k :: 0 <= k < |a + b| ==> Points(a + b)[k] == (Points(a) + Points(b))[k];
  }

  /** The groups of `rows` for `keys`, one after another. */
  function Groups(rows: seq<Point>, keys: seq<real>): seq<Point> {
    if keys == [] then [] else SelectTime(rows, keys[0]) + Groups(rows, keys[1..])
  }

  /** No rows, no group members. */
  lemma {:induction false} GroupsOfNothing(keys: seq<real>)
    ensures Groups([], keys) == []
  {
    if keys != [] {
      GroupsOfNothing(keys[1..]);
    }
  }

  /** One more row joins exactly one group when its age is a key, none otherwise. */
  lemma {:induction false} GroupsAppend(rows: seq<Point>, x: Point, keys: seq<real>)
    requires Distinct(keys)
    ensures multiset(Groups(rows + [x], keys)) ==
              multiset(Groups(rows, keys)) + (if x.age in keys then multiset{x} else multiset{})
  {
    if keys != [] {
      var rest := keys[1..];
      assert Distinct(rest) by {
        forall i, j | 0 <= i < j < |rest| ensures rest[i] != rest[j] {
          assert rest[i] == keys[i + 1] && rest[j] == keys[j + 1];
        }
      }
      GroupsAppend(rows, x, rest);
      SelectTimeAppend(rows, x, keys[0]);
      assert keys == [keys[0]] + rest;
      if x.age == keys[0] {
        assert x.age !in rest;
      }
    }
  }

  /** Grouping by distinct keys that cover every age loses no row and duplicates none. */
  lemma {:induction false} GroupsPartition(rows: seq<Point>, keys: seq<real>)
    requires Distinct(keys)
    requires forall i :: 0 <= i < |rows| ==> rows[i].age in keys
    ensures multiset(Groups(rows, keys)) == multiset(rows)
  {
    if rows == [] {
      GroupsOfNothing(keys);
    } else {
      var init := rows[..|rows| - 1];
      var x := rows[|rows| - 1];
      assert rows == init + [x];
      assert forall i :: 0 <= i < |init| ==> init[i] == rows[i];
      GroupsPartition(init, keys);
      GroupsAppend(init, x, keys);
    }
  }

  /** A successful join of one group keeps exactly that group's points, in order. */
  lemma JoinPoints(k: real, rows: seq<Point>, cfg: Config, part: seq<JoinedRow>)
    requires Slice(k, SelectTime(rows, k), cfg.open, cfg.radius, cfg.dist, cfg.root) == Success(part)
    ensures Points(part) == SelectTime(rows, k)
  {
    SliceRows(k, SelectTime(rows, k), cfg.open, cfg.radius, cfg.dist, cfg.root);
    SelectTimeIdempotent(rows, k);
  }

  /** Parts holding the groups' points concatenate to the groups, in key order. */
  lemma {:induction false} ConcatPoints(keys: seq<real>, rows: seq<Point>, parts: seq<seq<JoinedRow>>)
    requires |parts| == |keys|
    requires forall i :: 0 <= i < |keys| ==> Points(parts[i]) == SelectTime(rows, keys[i])
    ensures Points(Concat(parts)) == Groups(rows, keys)
  {
    if keys != [] {
      assert Points(parts[0]) == SelectTime(rows, keys[0]);
      forall i | 0 <= i < |keys| - 1 ensures Points(parts[1..][i]) == SelectTime(rows, keys[1..][i]) {
        assert parts[1..][i] == parts[i + 1] && keys[1..][i] == keys[i + 1];
      }
      ConcatPoints(keys[1..], rows, parts[1..]);
      PointsAppend(parts[0], Concat(parts[1..]));
    }
  }

  /** Inserting a row adds its point. */
  lemma {:induction false} PointsInsert(x: JoinedRow, s: seq<JoinedRow>, le: (JoinedRow, JoinedRow) -> bool)
    ensures multiset(Points(Insert(x, s, le))) == multiset(Points(s)) + multiset{x.point}
  {
    if s == [] {
    } else if le(x, s[0]) {
      PointsAppend([x], s);
    } else {
      PointsInsert(x, s[1..], le);
      PointsAppend([s[0]], Insert(x, s[1..], le));
      PointsAppend([s[0]], s[1..]);
      assert s == [s[0]] + s[1..];
    }
  }

  /** Sorting the rows keeps their points. */
  lemma {:induction false} PointsSort(s: seq<JoinedRow>, le: (JoinedRow, JoinedRow) -> bool)
    ensures multiset(Points(InsertionSort(s, le))) == multiset(Points(s))
  {
    if s != [] {
      var x, rest := s[0], s[1..];
      var sorted := InsertionSort(rest, le);
      PointsSort(rest, le);
      PointsInsert(x, sorted, le);
      assert Points(s) == [x.point] + Points(rest) by {
        assert s == [x] + rest;
        PointsAppend([x], rest);
        assert Points([x]) == [x.point];
      }
      assert InsertionSort(s, le) == Insert(x, sorted, le);
    }
  }

  /**
   * Every input row appears in the joined dataset exactly as often as in the
   * table, so the row count is preserved.
   */
  lemma RunPartition(table: Table, cfg: Config)
    requires RunSpec(table, cfg).Success?
    ensures var out := RunSpec(table, cfg).value;
            multiset(Points(out)) == multiset(table.rows) && |out| == |table.rows|
  {
    var keys := GroupKeys(table.rows);
    var parts := Collect(Joins(keys, table.rows, cfg)).value;
    GroupKeysSpec(table.rows);
    assert Distinct(keys);
    var joins := Joins(keys, table.rows, cfg);
    forall i | 0 <= i < |keys| ensures Points(parts[i]) == SelectTime(table.rows, keys[i]) {
      assert joins[i] == Success(parts[i]);
      JoinPoints(keys[i], table.rows, cfg, parts[i]);
    }
    ConcatPoints(keys, table.rows, parts);
    GroupsPartition(table.rows, keys);
    PointsSort(Concat(parts), RowLe(table.hasLabel));
    assert |multiset(Points(RunSpec(table, cfg).value))| == |multiset(table.rows)|;
  }

  /** A member of a concatenation is a member of one of its parts. */
  lemma {:induction false} ConcatMember(parts: seq<seq<JoinedRow>>, o: JoinedRow)
    requires o in Concat(parts)
    ensures exists i :: 0 <= i < |parts| && o in parts[i]
  {
    if o !in parts[0] {
      ConcatMember(parts[1..], o);
      var i :| 0 <= i < |parts[1..]| && o in parts[1..][i];
      assert parts[i + 1] == parts[1..][i];
    }
  }

  /**
   * Every joined row comes from the join of its own age: it is a row of the
   * slice for `age (Ma)` of its point, so its statistics come from that age's
   * raster and no other.
   */
  lemma RunOwnSlice(table: Table, cfg: Config, k: nat)
    requires RunSpec(table, cfg).Success?
    requires k < |RunSpec(table, cfg).value|
    ensures var o := RunSpec(table, cfg).value[k];
            var own := Slice(o.point.age, table.rows, cfg.open, cfg.radius, cfg.dist, cfg.root);
            own.Success? && o in own.value
  {
    var keys := GroupKeys(table.rows);
    var joins := Joins(keys, table.rows, cfg);
    var parts := Collect(joins).value;
    var out := RunSpec(table, cfg).value;
    var o := out[k];
    assert o in multiset(Concat(parts));
    ConcatMember(parts, o);
    var i :| 0 <= i < |parts| && o in parts[i];
    var t := keys[i];
    assert joins[i] == Success(parts[i]);
    var m :| 0 <= m < |parts[i]| && parts[i][m] == o;
    SliceRows(t, SelectTime(table.rows, t), cfg.open, cfg.radius, cfg.dist, cfg.root);
    SelectTimeIdempotent(table.rows, t);
    SelectTimeSpec(table.rows, t);
    assert o.point.age == t;
    SliceOfGroup(t, table.rows, cfg.open, cfg.radius, cfg.dist, cfg.root);
  }

  /**
   * How a run ends. A table with no rows has no group and fails with
   * `NothingToConcatenate`, and no other run fails that way. Otherwise the
   * run succeeds exactly when the join at every group's age succeeds, and it
   * fails with the error of the first such join, in key order, that fails.
   * No group is empty, so no run fails with `EmptyQuery`.
   */
  lemma RunOutcome(table: Table, cfg: Config)
    ensures RunSpec(table, cfg) == Failure(NothingToConcatenate) <==> |table.rows| == 0
    ensures var keys := GroupKeys(table.rows);
            RunSpec(table, cfg).Success? <==>
              |table.rows| > 0 &&
              forall i :: 0 <= i < |keys| ==> Slice(keys[i], table.rows, cfg.open, cfg.radius, cfg.dist, cfg.root).Success?
    ensures var keys := GroupKeys(table.rows);
            |table.rows| > 0 && RunSpec(table, cfg).Failure? ==>
              exists i :: 0 <= i < |keys| &&
                Slice(keys[i], table.rows, cfg.open, cfg.radius, cfg.dist, cfg.root) == Failure(RunSpec(table, cfg).error) &&
                forall j :: 0 <= j < i ==> Slice(keys[j], table.rows, cfg.open, cfg.radius, cfg.dist, cfg.root).Success?
    ensures RunSpec(table, cfg).Failure? ==> RunSpec(table, cfg).error != EmptyQuery
  {
    RunErrors(table, cfg);
    RunSucceeds(table, cfg);
    RunFailsFirst(table, cfg);
  }

  /** Only an empty table fails with `NothingToConcatenate`, and no run fails with `EmptyQuery`. */
  lemma RunErrors(table: Table, cfg: Config)
    ensures RunSpec(table, cfg) == Failure(NothingToConcatenate) <==> |table.rows| == 0
    ensures RunSpec(table, cfg).Failure? ==> RunSpec(table, cfg).error != EmptyQuery
  {
    var keys := GroupKeys(table.rows);
    GroupKeysSpec(table.rows);
    if |table.rows| > 0 {
      assert table.rows[0].age in keys;
    }
    JoinsAreSlices(table.rows, cfg);
  }

  /** A table with rows succeeds exactly when the slice at every one of its ages succeeds. */
  lemma RunSucceeds(table: Table, cfg: Config)
    ensures var keys := GroupKeys(table.rows);
            RunSpec(table, cfg).Success? <==>
              |table.rows| > 0 &&
              forall i :: 0 <= i < |keys| ==> Slice(keys[i], table.rows, cfg.open, cfg.radius, cfg.dist, cfg.root).Success?
  {
    var keys := GroupKeys(table.rows);
    GroupKeysSpec(table.rows);
    if |table.rows| > 0 {
      assert table.rows[0].age in keys;
    }
    JoinsAreSlices(table.rows, cfg);
  }

  /** A failing run with rows fails with the error of the first age, in key order, whose slice fails. */
  lemma RunFailsFirst(table: Table, cfg: Config)
    ensures var keys := GroupKeys(table.rows);
            |table.rows| > 0 && RunSpec(table, cfg).Failure? ==>
              exists i :: 0 <= i < |keys| &&
                Slice(keys[i], table.rows, cfg.open, cfg.radius, cfg.dist, cfg.root) == Failure(RunSpec(table, cfg).error) &&
                forall j :: 0 <= j < i ==> Slice(keys[j], table.rows, cfg.open, cfg.radius, cfg.dist, cfg.root).Success?
  {
    var keys := GroupKeys(table.rows);
    GroupKeysSpec(table.rows);
    if |table.rows| > 0 {
      assert table.rows[0].age in keys;
    }
    JoinsAreSlices(table.rows, cfg);
  }

  /** Each group's join is the slice of the whole table at its age, and none fails with those two errors. */
  lemma JoinsAreSlices(rows: seq<Point>, cfg: Config)
    ensures var keys := GroupKeys(rows);
            var joins := Joins(keys, rows, cfg);
            forall i :: 0 <= i < |keys| ==>
              && joins[i] == Slice(keys[i], rows, cfg.open, cfg.radius, cfg.dist, cfg.root)
              && (joins[i].Failure? ==> joins[i].error != EmptyQuery && joins[i].error != NothingToConcatenate)
  {
    var keys := GroupKeys(rows);
    var joins := Joins(keys, rows, cfg);
    GroupKeysSpec(rows);
    forall i | 0 <= i < |keys|
      ensures joins[i] == Slice(keys[i], rows, cfg.open, cfg.radius, cfg.dist, cfg.root)
      ensures joins[i].Failure? ==> joins[i].error != EmptyQuery && joins[i].error != NothingToConcatenate
    {
      var r :| 0 <= r < |rows| && rows[r].age == keys[i];
      GroupJoin(rows, r, cfg);
    }
  }

  /**
   * The join of an age some row has equals the slice of the whole table at
   * that age, and it never fails for want of query points or with the
   * concatenation error.
   */
  lemma GroupJoin(rows: seq<Point>, r: nat, cfg: Config)
    requires r < |rows|
    ensures var t := rows[r].age;
            var j := Slice(t, SelectTime(rows, t), cfg.open, cfg.radius, cfg.dist, cfg.root);
            && j == Slice(t, rows, cfg.open, cfg.radius, cfg.dist, cfg.root)
            && (j.Failure? ==> j.error != EmptyQuery && j.error != NothingToConcatenate)
  {
    var t := rows[r].age;
    SliceOfGroup(t, rows, cfg.open, cfg.radius, cfg.dist, cfg.root);
    SelectTimeSpec(rows, t);
    assert r in TrueIndices(AgeMask(rows, t));
    SliceOutcome(t, rows, cfg.open, cfg.radius, cfg.dist, cfg.root);
  }
}
