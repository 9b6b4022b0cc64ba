/**
 * Boolean-mask indexing as numpy does it: `a[mask]` keeps the entries whose
 * mask entry is true, in order; on a 2-D array the kept entries are listed in
 * row-major (C) order. `TrueIndices` and `TruePositions` are the reference
 * view: the positions that survive, which the lemmas below characterise
 * completely (in range, exactly the true entries, strictly increasing).
 */
module Masking {

  /** `a` and `b` have the same number of rows and equally long rows. */
  predicate SameShape<T, U>(a: seq<seq<T>>, b: seq<seq<U>>) {
    |a| == |b| && forall j :: 0 <= j < |a| ==> |a[j]| == |b[j]|
  }

  /** `a[mask]` for a 1-D array. */
  function Select<T>(a: seq<T>, mask: seq<bool>): seq<T>
    requires |a| == |mask|
  {
    if a == [] then []
    else Select(a[..|a| - 1], mask[..|a| - 1]) + (if mask[|a| - 1] then [a[|a| - 1]] else [])
  }

  /** The indices at which `mask` is true, ascending. */
  function TrueIndices(mask: seq<bool>): seq<nat> {
    if mask == [] then []
    else TrueIndices(mask[..|mask| - 1]) + (if mask[|mask| - 1] then [|mask| - 1] else [])
  }

  /** `a[mask]` for a 2-D array: rows are flattened in row-major order. */
  function Select2<T>(a: seq<seq<T>>, mask: seq<seq<bool>>): seq<T>
    requires SameShape(a, mask)
  {
    if a == [] then []
    else Select2(a[..|a| - 1], mask[..|a| - 1]) + Select(a[|a| - 1], mask[|a| - 1])
  }

  /** Pairs every column index of `cols` with the row index `j`. */
  function InRow(j: nat, cols: seq<nat>): (r: seq<(nat, nat)>)
    ensures |r| == |cols|
  {
    seq(|cols|, k requires 0 <= k < |cols| => (j, cols[k]))
  }

  /** The (row, column) positions at which `mask` is true, in row-major order. */
  function TruePositions(mask: seq<seq<bool>>): seq<(nat, nat)> {
    if mask == [] then []
    else TruePositions(mask[..|mask| - 1]) + InRow(|mask| - 1, TrueIndices(mask[|mask| - 1]))
  }

  /** Strict row-major order on grid positions. */
  predicate RowMajorBefore(p: (nat, nat), q: (nat, nat)) {
    p.0 < q.0 || (p.0 == q.0 && p.1 < q.1)
  }

  /** The surviving indices are exactly the true entries, each once, ascending. */
  lemma {:induction false} TrueIndicesSpec(mask: seq<bool>)
    ensures forall k :: 0 <= k < |TrueIndices(mask)| ==>
              TrueIndices(mask)[k] < |mask| && mask[TrueIndices(mask)[k]]
    ensures forall i :: 0 <= i < |mask| && mask[i] ==> i in TrueIndices(mask)
    ensures forall k, l :: 0 <= k < l < |TrueIndices(mask)| ==>
              TrueIndices(mask)[k] < TrueIndices(mask)[l]
  {
    if mask != [] {
      var init := mask[..|mask| - 1];
      TrueIndicesSpec(init);
      assert forall i :: 0 <= i < |init| ==> init[i] == mask[i];
    }
  }

  /** The k-th entry of `a[mask]` is `a` at the k-th true index. */
  lemma {:induction false} SelectAt<T>(a: seq<T>, mask: seq<bool>)
    requires |a| == |mask|
    ensures |Select(a, mask)| == |TrueIndices(mask)|
    ensures forall k :: 0 <= k < |Select(a, mask)| ==>
              TrueIndices(mask)[k] < |a| && Select(a, mask)[k] == a[TrueIndices(mask)[k]]
  {
    TrueIndicesSpec(mask);
    if a != [] {
      var n := |a| - 1;
      SelectAt(a[..n], mask[..n]);
      TrueIndicesSpec(mask[..n]);
    }
  }

  /** The surviving positions are exactly the true cells, each once, in row-major order. */
  lemma {:induction false} TruePositionsSpec(mask: seq<seq<bool>>)
    ensures forall k :: 0 <= k < |TruePositions(mask)| ==>
              var p := TruePositions(mask)[k];
              p.0 < |mask| && p.1 < |mask[p.0]| && mask[p.0][p.1]
    ensures forall j, i :: 0 <= j < |mask| && 0 <= i < |mask[j]| && mask[j][i] ==>
              (j, i) in TruePositions(mask)
    ensures forall k, l :: 0 <= k < l < |TruePositions(mask)| ==>
              RowMajorBefore(TruePositions(mask)[k], TruePositions(mask)[l])
  {
    if mask != [] {
      var n := |mask| - 1;
      var init := mask[..n];
      TruePositionsSpec(init);
      TrueIndicesSpec(mask[n]);
      var head := TruePositions(init);
      var tail := InRow(n, TrueIndices(mask[n]));
      assert TruePositions(mask) == head + tail;
      forall j, i | 0 <= j < |mask| && 0 <= i < |mask[j]| && mask[j][i]
        ensures (j, i) in TruePositions(mask)
      {
        if j < n {
          assert init[j] == mask[j];
          assert (j, i) in head;
        } else {
          var k :| 0 <= k < |TrueIndices(mask[n])| && TrueIndices(mask[n])[k] == i;
          assert tail[k] == (j, i);
        }
      }
    }
  }

  /** The k-th entry of `a[mask]` (2-D) is `a` at the k-th true position. */
  lemma {:induction false} Select2At<T>(a: seq<seq<T>>, mask: seq<seq<bool>>)
    requires SameShape(a, mask)
    ensures |Select2(a, mask)| == |TruePositions(mask)|
    ensures forall k :: 0 <= k < |Select2(a, mask)| ==>
              var p := TruePositions(mask)[k];
              p.0 < |a| && p.1 < |a[p.0]| && Select2(a, mask)[k] == a[p.0][p.1]
  {
    TruePositionsSpec(mask);
    if a != [] {
      var n := |a| - 1;
      Select2At(a[..n], mask[..n]);
      SelectAt(a[n], mask[n]);
      var head := Select2(a[..n], mask[..n]);
      var tail := Select(a[n], mask[n]);
      assert Select2(a, mask) == head + tail;
      assert TruePositions(mask) ==
        TruePositions(mask[..n]) + InRow(n, TrueIndices(mask[n]));
    }
  }

  /** A 1-D mask with no true entry selects no index. */
  lemma {:induction false} NoTrueIndices(mask: seq<bool>)
    requires forall i :: 0 <= i < |mask| ==> !mask[i]
    ensures TrueIndices(mask) == []
  {
    if mask != [] {
      NoTrueIndices(mask[..|mask| - 1]);
    }
  }

  /** A 2-D mask with no true cell selects no position. */
  lemma {:induction false} NoTruePositions(mask: seq<seq<bool>>)
    requires forall j, i :: 0 <= j < |mask| && 0 <= i < |mask[j]| ==> !mask[j][i]
    ensures TruePositions(mask) == []
  {
    if mask != [] {
      var n := |mask| - 1;
      NoTruePositions(mask[..n]);
      NoTrueIndices(mask[n]);
    }
  }
}
