/** The column statistics pandas computes for `df.mean()` and `df.median()`,
    over exact reals. */
module Stats {

  function Sum(xs: seq<real>): real {
    if |xs| == 0 then 0.0 else Sum(xs[..|xs| - 1]) + xs[|xs| - 1]
  }

  predicate Within(xs: seq<real>, lo: real, hi: real) {
    forall k :: 0 <= k < |xs| ==> lo <= xs[k] <= hi
  }

  /** The arithmetic mean of the values: the value that, taken as many times
      as there are values, gives their sum. */
  function Mean(xs: seq<real>): (m: real)
    requires |xs| > 0
    ensures m * (|xs| as real) == Sum(xs)
  {
    Sum(xs) / (|xs| as real)
  }

  /** A sum of n values in [lo, hi] lies in [n * lo, n * hi]. */
  lemma {:induction false} SumBounds(xs: seq<real>, lo: real, hi: real)
    requires Within(xs, lo, hi)
    ensures (|xs| as real) * lo <= Sum(xs) <= (|xs| as real) * hi
  {
    if |xs| > 0 {
      var front := xs[..|xs| - 1];
      assert Within(front, lo, hi);
      SumBounds(front, lo, hi);
      var m := |front| as real;
      assert (|xs| as real) * lo == m * lo + lo && (|xs| as real) * hi == m * hi + hi;
      assert Sum(xs) == Sum(front) + xs[|xs| - 1];
    }
  }

  /** The mean lies between any lower and upper bound of the values. */
  lemma MeanBounds(xs: seq<real>, lo: real, hi: real)
    requires |xs| > 0 && Within(xs, lo, hi)
    ensures lo <= Mean(xs) <= hi
  {
    SumBounds(xs, lo, hi);
    var n := |xs| as real;
    assert Sum(xs) / n >= (n * lo) / n;
    assert Sum(xs) / n <= (n * hi) / n;
  }

  predicate Sorted(s: seq<real>) {
    forall i, j :: 0 <= i < j < |s| ==> s[i] <= s[j]
  }

  /** A bound on every element carries over to any permutation. */
  lemma PermutationBound(a: seq<real>, b: seq<real>, lo: real)
    requires multiset(a) == multiset(b)
    requires forall k :: 0 <= k < |b| ==> lo <= b[k]
    ensures forall k :: 0 <= k < |a| ==> lo <= a[k]
  {
    forall k | 0 <= k < |a| ensures lo <= a[k] {
      assert a[k] in multiset(a);
      assert a[k] in multiset(b);
      var j :| 0 <= j < |b| && b[j] == a[k];
    }
  }

  /** A value at or below every element of a sorted sequence can go in front. */
  lemma SortedCons(h: real, s: seq<real>)
    requires Sorted(s) && forall k :: 0 <= k < |s| ==> h <= s[k]
    ensures Sorted([h] + s)
  {
    var r := [h] + s;
    forall i, j | 0 <= i < j < |r| ensures r[i] <= r[j] {
      assert r[j] == s[j - 1];
      if i > 0 {
        assert r[i] == s[i - 1];
      }
    }
  }

  /** Insert x into a sorted sequence, keeping it sorted. */
  function Insert(x: real, s: seq<real>): (r: seq<real>)
    requires Sorted(s)
    ensures Sorted(r)
    ensures multiset(r) == multiset(s) + multiset{x}
    ensures |r| == |s| + 1
  {
    if |s| == 0 then [x]
    else if x <= s[0] then
      SortedCons(x, s);
      [x] + s
    else
      var tail := s[1..];
      var rest := Insert(x, tail);
      assert s == [s[0]] + tail;
      assert multiset(rest) == multiset(tail + [x]);
      assert forall k :: 0 <= k < |tail + [x]| ==> s[0] <= (tail + [x])[k];
      PermutationBound(rest, tail + [x], s[0]);
      SortedCons(s[0], rest);
      assert multiset([s[0]] + rest) == multiset{s[0]} + multiset(rest);
      [s[0]] + rest
  }

  /** The values in ascending order. */
  function Sort(xs: seq<real>): (s: seq<real>)
    ensures Sorted(s)
    ensures multiset(s) == multiset(xs)
    ensures |s| == |xs|
  {
    if |xs| == 0 then []
    else
      assert xs == xs[..|xs| - 1] + [xs[|xs| - 1]];
      Insert(xs[|xs| - 1], Sort(xs[..|xs| - 1]))
  }

  /** The middle of a sorted sequence: its middle value, or the average of
      its two middle values when its length is even. */
  function Middle(s: seq<real>): real
    requires |s| > 0
  {
    var n := |s|;
    if n % 2 == 1 then s[n / 2] else (s[n / 2 - 1] + s[n / 2]) / 2.0
  }

  /** pandas' median: the middle of the values in sorted order. It lies
      between the lower and the upper middle value. */
  function Median(xs: seq<real>): (m: real)
    requires |xs| > 0
    ensures var s := Sort(xs); s[(|xs| - 1) / 2] <= m <= s[|xs| / 2]
  {
    var s := Sort(xs);
    MiddleSplits(s);
    Middle(s)
  }

  /** Every value of the sorted sequence comes from the original. */
  lemma SortedMember(xs: seq<real>, k: nat)
    requires k < |xs|
    ensures exists j :: 0 <= j < |xs| && xs[j] == Sort(xs)[k]
  {
    var s := Sort(xs);
    assert s[k] in multiset(s);
    assert s[k] in multiset(xs);
  }

  /** A value of the sorted sequence inherits any bound on the values. */
  lemma SortedWithin(xs: seq<real>, lo: real, hi: real, k: nat)
    requires k < |xs| && Within(xs, lo, hi)
    ensures lo <= Sort(xs)[k] <= hi
  {
    SortedMember(xs, k);
    var j :| 0 <= j < |xs| && xs[j] == Sort(xs)[k];
  }

  /** The median lies between any lower and upper bound of the values. */
  lemma MedianBounds(xs: seq<real>, lo: real, hi: real)
    requires |xs| > 0 && Within(xs, lo, hi)
    ensures lo <= Median(xs) <= hi
  {
    var s := Sort(xs);
    forall k | 0 <= k < |s| ensures lo <= s[k] <= hi {
      SortedWithin(xs, lo, hi, k);
    }
    MiddleWithin(s, lo, hi);
  }

  /** The middle of values in [lo, hi] lies in [lo, hi]. */
  lemma MiddleWithin(s: seq<real>, lo: real, hi: real)
    requires |s| > 0 && Within(s, lo, hi)
    ensures lo <= Middle(s) <= hi
  {
    var n := |s|;
    assert lo <= s[n / 2] <= hi;
    if n % 2 == 0 {
      assert lo <= s[n / 2 - 1] <= hi;
    }
  }

  /** The middle splits sorted values: the lower half lies at or below it and
      the upper half at or above it. */
  lemma MiddleSplits(s: seq<real>)
    requires |s| > 0 && Sorted(s)
    ensures forall k :: 0 <= k < (|s| + 1) / 2 ==> s[k] <= Middle(s)
    ensures forall k :: |s| / 2 <= k < |s| ==> Middle(s) <= s[k]
  {
    var n := |s|;
    if n % 2 == 0 {
      assert s[n / 2 - 1] <= s[n / 2];
    }
  }

  /** The median splits the values: at least half of them, in sorted order,
      lie at or below it, and at least half at or above it. */
  lemma MedianSplits(xs: seq<real>)
    requires |xs| > 0
    ensures var s := Sort(xs);
      (forall k :: 0 <= k < (|s| + 1) / 2 ==> s[k] <= Median(xs)) &&
      (forall k :: |s| / 2 <= k < |s| ==> Median(xs) <= s[k])
  {
    MiddleSplits(Sort(xs));
  }

  /** With an odd number of values, the median is one of them. */
  lemma MedianOddIsValue(xs: seq<real>)
    requires |xs| % 2 == 1
    ensures Median(xs) in xs
  {
    SortedMember(xs, |xs| / 2);
  }
}
