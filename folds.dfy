/**
 * Folds over the per-philosopher meal counts: the maximum, the minimum and
 * the sum of a sequence. The table uses them for maxMeals, minMeals and
 * totalMeals, and the minimum also for the fairness throttle.
 */
module Folds {

  /** The largest element of a non-empty sequence. */
  function Max(s: seq<int>): (r: int)
    requires |s| > 0
    ensures r in s
    ensures forall k :: 0 <= k < |s| ==> s[k] <= r
  {
    if |s| == 1 then s[0]
    else
      var rest := Max(s[1..]);
      if s[0] >= rest then s[0] else rest
  }

  /** The smallest element of a non-empty sequence. */
  function Min(s: seq<int>): (r: int)
    requires |s| > 0
    ensures r in s
    ensures forall k :: 0 <= k < |s| ==> r <= s[k]
  {
    if |s| == 1 then s[0]
    else
      var rest := Min(s[1..]);
      if s[0] <= rest then s[0] else rest
  }

  /** The sum of all elements; 0 for the empty sequence. */
  function Sum(s: seq<int>): int
  {
    if s == [] then 0 else s[0] + Sum(s[1..])
  }

  /** Pointwise order of two sequences of the same length. */
  predicate PointwiseLe(s: seq<int>, t: seq<int>)
  {
    |s| == |t| && forall k :: 0 <= k < |s| ==> s[k] <= t[k]
  }

  /** The sum of a sequence is at least its length times its minimum. */
  lemma {:induction false} SumAtLeastMin(s: seq<int>)
    requires |s| > 0
    ensures |s| * Min(s) <= Sum(s)
  {
    if |s| > 1 {
      var t := s[1..];
      SumAtLeastMin(t);
      var m, mt := Min(s), Min(t);
      assert m <= mt by { assert mt in t; }
      MulSucc(|t|, m);
      MulLeMonotone(|t|, m, mt);
      assert |s| * m == m + |t| * m;
    }
  }

  /** The sum of a sequence is at most its length times its maximum. */
  lemma {:induction false} SumAtMostMax(s: seq<int>)
    requires |s| > 0
    ensures Sum(s) <= |s| * Max(s)
  {
    if |s| > 1 {
      var t := s[1..];
      SumAtMostMax(t);
      var m, mt := Max(s), Max(t);
      assert mt <= m by { assert mt in t; }
      MulSucc(|t|, m);
      MulLeMonotone(|t|, mt, m);
      assert |s| * m == m + |t| * m;
    }
  }

  /** In a sequence without negative elements, every element is at most the sum. */
  lemma {:induction false} SumAtLeastElement(s: seq<int>, k: nat)
    requires k < |s|
    requires forall j :: 0 <= j < |s| ==> 0 <= s[j]
    ensures 0 <= s[k] <= Sum(s)
  {
    var t := s[1..];
    assert forall j :: 0 <= j < |t| ==> t[j] == s[j + 1];
    if k == 0 {
      if t != [] {
        SumAtLeastElement(t, 0);
      }
    } else {
      SumAtLeastElement(t, k - 1);
    }
  }

  lemma MulSucc(n: nat, a: int)
    ensures (n + 1) * a == a + n * a
  {
  }

  lemma MulLeMonotone(n: nat, a: int, b: int)
    requires a <= b
    ensures n * a <= n * b
  {
  }

  /** Sums are monotonic in the pointwise order. */
  lemma {:induction false} SumMonotone(s: seq<int>, t: seq<int>)
    requires PointwiseLe(s, t)
    ensures Sum(s) <= Sum(t)
  {
    if s != [] {
      assert PointwiseLe(s[1..], t[1..]) by {
        assert forall k :: 0 <= k < |s| - 1 ==> s[1..][k] == s[k + 1] && t[1..][k] == t[k + 1];
      }
      SumMonotone(s[1..], t[1..]);
    }
  }

  /** Minima are monotonic in the pointwise order. */
  lemma MinMonotone(s: seq<int>, t: seq<int>)
    requires |s| > 0 && PointwiseLe(s, t)
    ensures Min(s) <= Min(t)
  {
  }

  /** Maxima are monotonic in the pointwise order. */
  lemma MaxMonotone(s: seq<int>, t: seq<int>)
    requires |s| > 0 && PointwiseLe(s, t)
    ensures Max(s) <= Max(t)
  {
  }

  /** Raising one element of a sequence never lowers its minimum. */
  lemma MinOfRaise(s: seq<int>, i: nat, v: int)
    requires i < |s| && s[i] <= v
    ensures Min(s) <= Min(s[i := v])
  {
  }
}
