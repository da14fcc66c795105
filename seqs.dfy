/** Order-preserving selection and counting over sequences, the shapes that
    pandas' row filtering, column dropping and `sum()` reduce to. */
module Seqs {

  /** The positions k >= from of xs whose element satisfies keep, in increasing order. */
  function Positions<T>(xs: seq<T>, keep: T -> bool, from: nat): (ks: seq<nat>)
    requires from <= |xs|
    decreases |xs| - from
    ensures forall p :: 0 <= p < |ks| ==> from <= ks[p] < |xs| && keep(xs[ks[p]])
    ensures forall p, q :: 0 <= p < q < |ks| ==> ks[p] < ks[q]
  {
    if from == |xs| then []
    else if keep(xs[from]) then [from] + Positions(xs, keep, from + 1)
    else Positions(xs, keep, from + 1)
  }

  /** Positions misses no kept element. */
  lemma {:induction false} PositionsComplete<T>(xs: seq<T>, keep: T -> bool, from: nat)
    requires from <= |xs|
    decreases |xs| - from
    ensures forall k :: from <= k < |xs| && keep(xs[k]) ==> k in Positions(xs, keep, from)
  {
    if from < |xs| {
      PositionsComplete(xs, keep, from + 1);
    }
  }

  /** The elements of xs at the positions ks, in the order of ks. */
  function Pick<T>(xs: seq<T>, ks: seq<nat>): seq<T>
    requires forall p :: 0 <= p < |ks| ==> ks[p] < |xs|
  {
    seq(|ks|, p requires 0 <= p < |ks| => xs[ks[p]])
  }

  /** The subsequence of xs whose elements satisfy keep. */
  function Filter<T>(xs: seq<T>, keep: T -> bool): (r: seq<T>)
    ensures |r| <= |xs|
    ensures forall y :: y in r ==> y in xs && keep(y)
    ensures forall x :: x in xs && keep(x) ==> x in r
  {
    var ks := Positions(xs, keep, 0);
    PositionsBounded(ks, |xs|);
    PositionsComplete(xs, keep, 0);
    var r := Pick(xs, ks);
    assert forall x :: x in xs && keep(x) ==> x in r by {
      forall x | x in xs && keep(x) ensures x in r {
        var k :| 0 <= k < |xs| && xs[k] == x;
        var p :| 0 <= p < |ks| && ks[p] == k;
        assert r[p] == x;
      }
    }
    r
  }

  /** A strictly increasing sequence of positions below n has at most n elements. */
  lemma {:induction false} PositionsBounded(ks: seq<nat>, n: nat)
    requires forall p :: 0 <= p < |ks| ==> ks[p] < n
    requires forall p, q :: 0 <= p < q < |ks| ==> ks[p] < ks[q]
    ensures |ks| <= n
  {
    if |ks| > 0 {
      var last := ks[|ks| - 1];
      var front := ks[..|ks| - 1];
      assert forall p :: 0 <= p < |front| ==> front[p] < last;
      PositionsBounded(front, last);
    }
  }

  /** When every element from position `from` on is kept, Positions lists them all. */
  lemma {:induction false} PositionsOfAllKept<T>(xs: seq<T>, keep: T -> bool, from: nat)
    requires from <= |xs|
    requires forall k :: from <= k < |xs| ==> keep(xs[k])
    decreases |xs| - from
    ensures var ks := Positions(xs, keep, from);
      |ks| == |xs| - from && forall p :: 0 <= p < |ks| ==> ks[p] == from + p
  {
    if from < |xs| {
      PositionsOfAllKept(xs, keep, from + 1);
    }
  }

  /** Filtering keeps a sequence whose every element passes. */
  lemma FilterAllKept<T>(xs: seq<T>, keep: T -> bool)
    requires forall k :: 0 <= k < |xs| ==> keep(xs[k])
    ensures Filter(xs, keep) == xs
  {
    PositionsOfAllKept(xs, keep, 0);
  }

  /** Filtering twice with the same predicate is filtering once. */
  lemma FilterIdempotent<T>(xs: seq<T>, keep: T -> bool)
    ensures Filter(Filter(xs, keep), keep) == Filter(xs, keep)
  {
    var once := Filter(xs, keep);
    assert forall k :: 0 <= k < |once| ==> keep(once[k]) by {
      forall k | 0 <= k < |once| ensures keep(once[k]) {
        assert once[k] in once;
      }
    }
    FilterAllKept(once, keep);
  }

  /** The number of elements of xs that satisfy p, counted from the end. */
  function Count<T>(xs: seq<T>, p: T -> bool): (n: nat)
    ensures n <= |xs|
  {
    if |xs| == 0 then 0
    else Count(xs[..|xs| - 1], p) + (if p(xs[|xs| - 1]) then 1 else 0)
  }

  /** Nothing is counted exactly when no element passes. */
  lemma {:induction false} CountZero<T>(xs: seq<T>, p: T -> bool)
    ensures Count(xs, p) == 0 <==> forall k :: 0 <= k < |xs| ==> !p(xs[k])
  {
    if |xs| > 0 {
      var front := xs[..|xs| - 1];
      CountZero(front, p);
      assert forall k :: 0 <= k < |front| ==> front[k] == xs[k];
    }
  }

  /** A sequence is what lies before j, the element at j, and what lies after. */
  lemma SplitAt<T>(xs: seq<T>, j: nat)
    requires j < |xs|
    ensures xs == xs[..j] + [xs[j]] + xs[j + 1..]
  {
  }

  /** A non-empty prefix is the shorter prefix followed by its last element. */
  lemma PrefixSnoc<T>(xs: seq<T>, k: nat)
    requires 0 < k <= |xs|
    ensures xs[..k] == xs[..k - 1] + [xs[k - 1]]
  {
  }

  /** Appending one element counts it when it passes. */
  lemma CountSnoc<T>(xs: seq<T>, x: T, p: T -> bool)
    ensures Count(xs + [x], p) == Count(xs, p) + (if p(x) then 1 else 0)
  {
    assert (xs + [x])[..|xs|] == xs;
  }

  /** Counting distributes over concatenation. */
  lemma {:induction false} CountAppend<T>(a: seq<T>, b: seq<T>, p: T -> bool)
    ensures Count(a + b, p) == Count(a, p) + Count(b, p)
  {
    if |b| > 0 {
      var b' := b[..|b| - 1];
      assert (a + b)[..|a + b| - 1] == a + b';
      CountAppend(a, b', p);
    } else {
      assert a + b == a;
    }
  }
  /** Taking out the element at j takes one copy of it out of the multiset. */
  lemma RemoveAt<T>(b: seq<T>, j: nat)
    requires j < |b|
    ensures multiset(b[..j] + b[j + 1..]) == multiset(b) - multiset{b[j]}
  {
    SplitAt(b, j);
    assert multiset(b) == multiset(b[..j]) + multiset{b[j]} + multiset(b[j + 1..]);
  }

  /** Taking out the element at j takes it out of the count. */
  lemma CountRemoveAt<T>(b: seq<T>, j: nat, p: T -> bool)
    requires j < |b|
    ensures Count(b, p) == Count(b[..j] + b[j + 1..], p) + (if p(b[j]) then 1 else 0)
  {
    var x, l, r := b[j], b[..j], b[j + 1..];
    SplitAt(b, j);
    CountAppend(l + [x], r, p);
    CountSnoc(l, x, p);
    CountAppend(l, r, p);
  }

  /** The count depends only on the multiset of the elements. */
  lemma {:induction false} CountOrder<T>(a: seq<T>, b: seq<T>, p: T -> bool)
    requires multiset(a) == multiset(b)
    ensures Count(a, p) == Count(b, p)
    decreases |a|
  {
    if |a| > 0 {
      var x := a[|a| - 1];
      var a' := a[..|a| - 1];
      assert a == a' + [x];
      assert multiset(a') == multiset(a) - multiset{x};
      assert x in multiset(b);
      var j :| 0 <= j < |b| && b[j] == x;
      RemoveAt(b, j);
      CountOrder(a', b[..j] + b[j + 1..], p);
      CountRemoveAt(b, j, p);
    } else {
      assert b == [];
    }
  }

  /** ks lists every position below n exactly once. */
  predicate IsPermutation(ks: seq<nat>, n: nat) {
    && |ks| == n
    && (forall p :: 0 <= p < |ks| ==> ks[p] < n)
    && (forall p, q :: 0 <= p < q < |ks| ==> ks[p] != ks[q])
    && (forall i :: 0 <= i < n ==> i in ks)
  }

  /** A permutation of the positions below n without the entry n - 1 is a
      permutation of the positions below n - 1. */
  lemma PermutationWithout(ks: seq<nat>, n: nat, j: nat)
    requires n > 0 && IsPermutation(ks, n) && j < |ks| && ks[j] == n - 1
    ensures IsPermutation(ks[..j] + ks[j + 1..], n - 1)
  {
    var ks' := ks[..j] + ks[j + 1..];
    assert forall p :: 0 <= p < |ks'| ==> ks'[p] == ks[if p < j then p else p + 1];
    forall i | 0 <= i < n - 1 ensures i in ks' {
      assert i in ks;
      var p :| 0 <= p < |ks| && ks[p] == i;
      if p < j {
        assert ks'[p] == i;
      } else {
        assert ks'[p - 1] == i;
      }
    }
  }

  /** Picking the elements of xs in the order of a permutation of its
      positions rearranges xs. */
  lemma {:induction false} PickPermutation<T>(xs: seq<T>, ks: seq<nat>)
    requires IsPermutation(ks, |xs|)
    ensures multiset(Pick(xs, ks)) == multiset(xs)
    decreases |xs|
  {
    var n := |xs|;
    if n > 0 {
      var front := xs[..n - 1];
      assert n - 1 in ks;
      var j :| 0 <= j < |ks| && ks[j] == n - 1;
      var ks' := ks[..j] + ks[j + 1..];
      PermutationWithout(ks, n, j);
      PickPermutation(front, ks');
      PickFront(xs, ks');
      PickAround(xs, ks, j);
      assert xs == front + [xs[n - 1]];
      MultisetAround(Pick(xs, ks), Pick(xs, ks[..j]), xs[n - 1], Pick(xs, ks[j + 1..]), Pick(front, ks'), front, xs);
    }
  }

  /** l + [x] + r rearranges front + [x] when l + r rearranges front. */
  lemma MultisetAround<T>(p: seq<T>, l: seq<T>, x: T, r: seq<T>, q: seq<T>, front: seq<T>, xs: seq<T>)
    requires p == l + [x] + r && q == l + r && multiset(q) == multiset(front) && xs == front + [x]
    ensures multiset(p) == multiset(xs)
  {
  }

  /** Picking around position j: what is picked before it, the element it
      picks, what is picked after it; and both sides together. */
  lemma PickAround<T>(xs: seq<T>, ks: seq<nat>, j: nat)
    requires j < |ks| && forall p :: 0 <= p < |ks| ==> ks[p] < |xs|
    ensures Pick(xs, ks) == Pick(xs, ks[..j]) + [xs[ks[j]]] + Pick(xs, ks[j + 1..])
    ensures Pick(xs, ks[..j] + ks[j + 1..]) == Pick(xs, ks[..j]) + Pick(xs, ks[j + 1..])
  {
  }

  /** Positions below |xs| - 1 pick the same from xs and from xs without its last element. */
  lemma PickFront<T>(xs: seq<T>, ks: seq<nat>)
    requires |xs| > 0 && forall p :: 0 <= p < |ks| ==> ks[p] < |xs| - 1
    ensures Pick(xs[..|xs| - 1], ks) == Pick(xs, ks)
  {
  }

  /** Picking by a permutation tells sequences of the same length apart. */
  lemma PickInjective<T>(x: seq<T>, y: seq<T>, ks: seq<nat>)
    requires |x| == |y| && IsPermutation(ks, |x|)
    ensures Pick(x, ks) == Pick(y, ks) ==> x == y
  {
    if Pick(x, ks) == Pick(y, ks) {
      forall i | 0 <= i < |x| ensures x[i] == y[i] {
        assert i in ks;
        var p :| 0 <= p < |ks| && ks[p] == i;
        assert Pick(x, ks)[p] == x[i] && Pick(y, ks)[p] == y[i];
      }
    }
  }
}
