/**
 * The six statistics computed over the thickness values matched to one point:
 * the NaN-ignoring mean, minimum, maximum, median, population standard
 * deviation and count, stated over exact reals. The square root is the
 * caller's `root`; `IsSqrt` says when it is a true square root.
 */
module Statistics {
  import opened Sorting

  function Sum(s: seq<real>): real {
    if s == [] then 0.0 else s[0] + Sum(s[1..])
  }

  function Mean(s: seq<real>): real
    requires |s| > 0
  {
    Sum(s) / (|s| as real)
  }

  /** The smallest value: it occurs in `s` and no element is below it. */
  function Min(s: seq<real>): (m: real)
    requires |s| > 0
    ensures m in s
    ensures forall k :: 0 <= k < |s| ==> m <= s[k]
  {
    if |s| == 1 then s[0]
    else
      var rest := Min(s[1..]);
      assert forall k :: 1 <= k < |s| ==> s[k] == s[1..][k - 1];
      if s[0] <= rest then s[0] else rest
  }

  /** The largest value: it occurs in `s` and no element is above it. */
  function Max(s: seq<real>): (m: real)
    requires |s| > 0
    ensures m in s
    ensures forall k :: 0 <= k < |s| ==> s[k] <= m
  {
    if |s| == 1 then s[0]
    else
      var rest := Max(s[1..]);
      assert forall k :: 1 <= k < |s| ==> s[k] == s[1..][k - 1];
      if rest <= s[0] then s[0] else rest
  }

  /** The middle of the sorted values; the mean of the two middle ones when their number is even. */
  function Median(s: seq<real>): real
    requires |s| > 0
  {
    var t := InsertionSort(s, RealLe);
    var n := |t|;
    if n % 2 == 1 then t[n / 2] else (t[n / 2 - 1] + t[n / 2]) / 2.0
  }

  /** The squared distance of every value from `m`. */
  function SquaredDeviations(s: seq<real>, m: real): (r: seq<real>)
    ensures |r| == |s|
  {
    seq(|s|, k requires 0 <= k < |s| => (s[k] - m) * (s[k] - m))
  }

  /** Population variance (divisor n, numpy's default `ddof=0`). */
  function Variance(s: seq<real>): real
    requires |s| > 0
  {
    Sum(SquaredDeviations(s, Mean(s))) / (|s| as real)
  }

  function Std(s: seq<real>, root: real -> real): real
    requires |s| > 0
  {
    root(Variance(s))
  }

  function Square(y: real): real {
    y * y
  }

  /**
   * `root` is the square root: on a non-negative real it is non-negative and
   * squares back, and it returns `y` on the square of every non-negative `y`.
   */
  ghost predicate IsSqrt(root: real -> real) {
    && (forall x :: 0.0 <= x ==> 0.0 <= root(x) && Square(root(x)) == x)
    && (forall y :: 0.0 <= y ==> root(Square(y)) == y)
  }

  /** A lower bound on every element bounds the sum from below. */
  lemma {:induction false} SumAtLeast(s: seq<real>, lo: real)
    requires forall k :: 0 <= k < |s| ==> lo <= s[k]
    ensures (|s| as real) * lo <= Sum(s)
  {
    if s != [] {
      assert forall k :: 0 <= k < |s| - 1 ==> s[1..][k] == s[k + 1];
      SumAtLeast(s[1..], lo);
      assert (|s| as real) * lo == lo + ((|s| - 1) as real) * lo;
    }
  }

  /** An upper bound on every element bounds the sum from above. */
  lemma {:induction false} SumAtMost(s: seq<real>, hi: real)
    requires forall k :: 0 <= k < |s| ==> s[k] <= hi
    ensures Sum(s) <= (|s| as real) * hi
  {
    if s != [] {
      assert forall k :: 0 <= k < |s| - 1 ==> s[1..][k] == s[k + 1];
      SumAtMost(s[1..], hi);
      assert (|s| as real) * hi == hi + ((|s| - 1) as real) * hi;
    }
  }

  /** Dividing by a positive count keeps a lower bound on the total. */
  lemma QuotientAtLeast(total: real, n: real, lo: real)
    requires 0.0 < n && n * lo <= total
    ensures lo <= total / n
  {
    var q := total / n;
    assert q * n == total;
  }

  /** Dividing by a positive count keeps an upper bound on the total. */
  lemma QuotientAtMost(total: real, n: real, hi: real)
    requires 0.0 < n && total <= n * hi
    ensures total / n <= hi
  {
    var q := total / n;
    assert q * n == total;
  }

  /** A lower bound on every value bounds the mean. */
  lemma MeanAtLeast(s: seq<real>, lo: real)
    requires |s| > 0
    requires forall k :: 0 <= k < |s| ==> lo <= s[k]
    ensures lo <= Mean(s)
  {
    SumAtLeast(s, lo);
    QuotientAtLeast(Sum(s), |s| as real, lo);
  }

  /** An upper bound on every value bounds the mean. */
  lemma MeanAtMost(s: seq<real>, hi: real)
    requires |s| > 0
    requires forall k :: 0 <= k < |s| ==> s[k] <= hi
    ensures Mean(s) <= hi
  {
    SumAtMost(s, hi);
    QuotientAtMost(Sum(s), |s| as real, hi);
  }

  /** The mean lies between the minimum and the maximum. */
  lemma MeanBounds(s: seq<real>)
    requires |s| > 0
    ensures Min(s) <= Mean(s) <= Max(s)
  {
    MeanAtLeast(s, Min(s));
    MeanAtMost(s, Max(s));
  }

  /** The median lies between the minimum and the maximum. */
  lemma MedianBounds(s: seq<real>)
    requires |s| > 0
    ensures Min(s) <= Median(s) <= Max(s)
  {
    var t := InsertionSort(s, RealLe);
    var n := |t|;
    forall k | 0 <= k < n ensures Min(s) <= t[k] <= Max(s) {
      assert t[k] in multiset(t);
      assert t[k] in multiset(s);
      var j :| 0 <= j < |s| && s[j] == t[k];
    }
    if n % 2 == 0 {
      assert Min(s) <= t[n / 2 - 1] && Min(s) <= t[n / 2];
      assert t[n / 2 - 1] <= Max(s) && t[n / 2] <= Max(s);
    }
  }

  /** The variance is never negative. */
  lemma VarianceNonnegative(s: seq<real>)
    requires |s| > 0
    ensures 0.0 <= Variance(s)
  {
    var d := SquaredDeviations(s, Mean(s));
    forall k | 0 <= k < |d| ensures 0.0 <= d[k] {
      var e := s[k] - Mean(s);
      assert d[k] == e * e;
    }
    SumAtLeast(d, 0.0);
  }

  /** With a true square root the deviation is non-negative and squares to the variance. */
  lemma StdIsRootOfVariance(s: seq<real>, root: real -> real)
    requires |s| > 0 && IsSqrt(root)
    ensures 0.0 <= Std(s, root)
    ensures Square(Std(s, root)) == Variance(s)
  {
    VarianceNonnegative(s);
  }

  /** One value: every location statistic is that value and the spread is zero. */
  lemma SingleValue(x: real, root: real -> real)
    ensures Mean([x]) == Min([x]) == Max([x]) == Median([x]) == x
    ensures Variance([x]) == 0.0
    ensures IsSqrt(root) ==> Std([x], root) == 0.0
  {
    var s := [x];
    assert s[1..] == [];
    assert Sum(s) == x;
    assert InsertionSort(s, RealLe) == [x] by {
      assert s[1..] == [];
    }
    assert Mean(s) == x;
    var d := SquaredDeviations(s, Mean(s));
    assert d[0] == 0.0;
    assert d[1..] == [];
    assert Sum(d) == 0.0;
    assert Variance(s) == 0.0;
    if IsSqrt(root) {
      assert Square(0.0) == 0.0;
      assert root(Square(0.0)) == 0.0;
    }
  }
}
