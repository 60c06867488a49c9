/** Sequence operations the dashboards and pages are built from: the
    order-preserving `Array.prototype.filter`, PostgreSQL's ORDER BY and LIMIT,
    and the `reduce` that sums credits. */
module Seqs {

  /** No element occurs twice. */
  predicate Distinct<T(==)>(xs: seq<T>) {
    forall i, j :: 0 <= i < j < |xs| ==> xs[i] != xs[j]
  }

  /** `idx` lists, in increasing order, positions of `b` holding the elements of `a`. */
  ghost predicate Embedding<T>(a: seq<T>, b: seq<T>, idx: seq<int>) {
    && |idx| == |a|
    && (forall k :: 0 <= k < |idx| ==> 0 <= idx[k] < |b| && b[idx[k]] == a[k])
    && (forall k, l :: 0 <= k < l < |idx| ==> idx[k] < idx[l])
  }

  /** `a` is an order-preserving subsequence of `b`. */
  ghost predicate IsSubsequence<T>(a: seq<T>, b: seq<T>) {
    exists idx :: Embedding(a, b, idx)
  }

  /** The elements of `xs` that `keep` accepts, in their original order. */
  function Filter<T(!new)>(xs: seq<T>, keep: T -> bool): (r: seq<T>)
    ensures |r| <= |xs|
    ensures forall k :: 0 <= k < |r| ==> keep(r[k])
    ensures forall x :: x in r <==> x in xs && keep(x)
  {
    if xs == [] then []
    else (if keep(xs[0]) then [xs[0]] else []) + Filter(xs[1..], keep)
  }

  /** Every index shifted up by one. */
  function Shift(idx: seq<int>): (r: seq<int>)
    ensures |r| == |idx|
    ensures forall k :: 0 <= k < |r| ==> r[k] == idx[k] + 1
  {
    seq(|idx|, k requires 0 <= k < |idx| => idx[k] + 1)
  }

  /** The positions of `xs` that `keep` accepts: the witness that `Filter` keeps order. */
  ghost function KeptPositions<T(!new)>(xs: seq<T>, keep: T -> bool): seq<int> {
    if xs == [] then []
    else (if keep(xs[0]) then [0] else []) + Shift(KeptPositions(xs[1..], keep))
  }

  /** An embedding into the tail of `b` shifts to an embedding into `b` that avoids position 0. */
  lemma EmbeddingShift<T>(a: seq<T>, b: seq<T>, idx: seq<int>)
    requires b != []
    requires Embedding(a, b[1..], idx)
    ensures Embedding(a, b, Shift(idx))
    ensures forall k :: 0 <= k < |idx| ==> Shift(idx)[k] >= 1
  {
    var tail := b[1..];
    var sh := Shift(idx);
    forall k | 0 <= k < |sh|
      ensures 0 <= sh[k] < |b| && b[sh[k]] == a[k]
    {
      var i := idx[k];
      assert 0 <= i < |tail| && tail[i] == a[k];
      assert tail[i] == b[i + 1];
    }
    forall k, l | 0 <= k < l < |sh|
      ensures sh[k] < sh[l]
    {
      assert idx[k] < idx[l];
    }
  }

  /** Position 0 of `b` can be prepended to an embedding that avoids it. */
  lemma EmbeddingCons<T>(a: seq<T>, b: seq<T>, idx: seq<int>)
    requires b != []
    requires Embedding(a, b, idx)
    requires forall k :: 0 <= k < |idx| ==> idx[k] >= 1
    ensures Embedding([b[0]] + a, b, [0] + idx)
  {
    var a' := [b[0]] + a;
    var idx' := [0] + idx;
    forall k | 0 < k < |idx'|
      ensures 0 <= idx'[k] < |b| && b[idx'[k]] == a'[k]
    {
      assert idx'[k] == idx[k - 1] && a'[k] == a[k - 1];
    }
    forall k, l | 0 <= k < l < |idx'|
      ensures idx'[k] < idx'[l]
    {
      if k > 0 {
        assert idx'[k] == idx[k - 1] && idx'[l] == idx[l - 1];
      }
    }
  }

  lemma {:induction false} FilterEmbedding<T(!new)>(xs: seq<T>, keep: T -> bool)
    ensures Embedding(Filter(xs, keep), xs, KeptPositions(xs, keep))
  {
    if xs != [] {
      var tail := KeptPositions(xs[1..], keep);
      FilterEmbedding(xs[1..], keep);
      EmbeddingShift(Filter(xs[1..], keep), xs, tail);
      if keep(xs[0]) {
        EmbeddingCons(Filter(xs[1..], keep), xs, Shift(tail));
      }
    }
  }

  /** The result of `Filter` is an order-preserving subsequence of its input. */
  lemma FilterIsSubsequence<T(!new)>(xs: seq<T>, keep: T -> bool)
    ensures IsSubsequence(Filter(xs, keep), xs)
  {
    FilterEmbedding(xs, keep);
  }

  /** A filter that accepts every element returns the whole sequence. */
  lemma {:induction false} FilterKeepsAll<T(!new)>(xs: seq<T>, keep: T -> bool)
    requires forall k :: 0 <= k < |xs| ==> keep(xs[k])
    ensures Filter(xs, keep) == xs
  {
    if xs != [] {
      FilterKeepsAll(xs[1..], keep);
      assert xs == [xs[0]] + xs[1..];
    }
  }

  /** Two filters that agree on every element of `xs` give the same result. */
  lemma {:induction false} FilterCongruent<T(!new)>(xs: seq<T>, p: T -> bool, q: T -> bool)
    requires forall k :: 0 <= k < |xs| ==> p(xs[k]) == q(xs[k])
    ensures Filter(xs, p) == Filter(xs, q)
  {
    if xs != [] {
      FilterCongruent(xs[1..], p, q);
    }
  }

  /** Filtering a duplicate-free sequence keeps it duplicate-free. */
  lemma {:induction false} FilterDistinct<T(!new)>(xs: seq<T>, keep: T -> bool)
    requires Distinct(xs)
    ensures Distinct(Filter(xs, keep))
  {
    if xs != [] {
      FilterDistinct(xs[1..], keep);
      var rest := Filter(xs[1..], keep);
      assert xs[0] !in xs[1..];
      assert xs[0] !in rest;
    }
  }

  /** Filtering first by a weaker condition changes nothing for the stronger one. */
  lemma {:induction false} FilterImplied<T(!new)>(xs: seq<T>, weaker: T -> bool, stronger: T -> bool)
    requires forall k :: 0 <= k < |xs| && stronger(xs[k]) ==> weaker(xs[k])
    ensures Filter(Filter(xs, weaker), stronger) == Filter(xs, stronger)
  {
    if xs != [] {
      FilterImplied(xs[1..], weaker, stronger);
      var head: seq<T> := if weaker(xs[0]) then [xs[0]] else [];
      assert Filter(xs, weaker) == head + Filter(xs[1..], weaker);
      FilterAppend(head, Filter(xs[1..], weaker), stronger);
    }
  }

  lemma {:induction false} FilterAppend<T(!new)>(a: seq<T>, b: seq<T>, keep: T -> bool)
    ensures Filter(a + b, keep) == Filter(a, keep) + Filter(b, keep)
  {
    if a != [] {
      assert (a + b)[1..] == a[1..] + b;
      FilterAppend(a[1..], b, keep);
    } else {
      assert a + b == b;
    }
  }

  /** Two conditions that never hold together select at most every element between them. */
  lemma {:induction false} FilterDisjointCount<T(!new)>(xs: seq<T>, p: T -> bool, q: T -> bool)
    requires forall k :: 0 <= k < |xs| ==> !(p(xs[k]) && q(xs[k]))
    ensures |Filter(xs, p)| + |Filter(xs, q)| <= |xs|
  {
    if xs != [] {
      FilterDisjointCount(xs[1..], p, q);
    }
  }

  /** `le` is a total preorder: the comparator of an ORDER BY on one column. */
  ghost predicate TotalPreorder<T(!new)>(le: (T, T) -> bool) {
    && (forall a, b :: le(a, b) || le(b, a))
    && (forall a, b, c :: le(a, b) && le(b, c) ==> le(a, c))
  }

  /** Every element comes no later, in the order `le`, than those after it. */
  predicate SortedBy<T>(xs: seq<T>, le: (T, T) -> bool) {
    forall i, j :: 0 <= i < j < |xs| ==> le(xs[i], xs[j])
  }

  /** Places `x` into the sorted `xs` before the first element it precedes. */
  function InsertSorted<T(!new)>(x: T, xs: seq<T>, le: (T, T) -> bool): (r: seq<T>)
    requires TotalPreorder(le)
    requires SortedBy(xs, le)
    ensures SortedBy(r, le)
    ensures multiset(r) == multiset(xs) + multiset{x}
    ensures |r| == |xs| + 1
  {
    if xs == [] then [x]
    else if le(x, xs[0]) then [x] + xs
    else
      var rest := InsertSorted(x, xs[1..], le);
      assert xs == [xs[0]] + xs[1..];
      assert forall k :: 0 <= k < |rest| ==> le(xs[0], rest[k]) by {
        forall k | 0 <= k < |rest|
          ensures le(xs[0], rest[k])
        {
          assert rest[k] in multiset(rest);
          assert rest[k] == x || rest[k] in multiset(xs[1..]);
        }
      }
      [xs[0]] + rest
  }

  /** The rows of `xs` in the order `le` (insertion sort; ties in no specified order). */
  function SortBy<T(!new)>(xs: seq<T>, le: (T, T) -> bool): (r: seq<T>)
    requires TotalPreorder(le)
    ensures SortedBy(r, le)
    ensures multiset(r) == multiset(xs)
    ensures |r| == |xs|
  {
    if xs == [] then []
    else
      assert xs == [xs[0]] + xs[1..];
      InsertSorted(xs[0], SortBy(xs[1..], le), le)
  }

  /** The first `n` elements (SQL LIMIT n). */
  function Take<T>(xs: seq<T>, n: nat): (r: seq<T>)
    ensures |r| == if |xs| < n then |xs| else n
    ensures r <= xs
  {
    if |xs| <= n then xs else xs[..n]
  }

  /** ORDER BY `le` LIMIT `n`: the first `n` rows in the order `le`. */
  function Top<T(!new)>(xs: seq<T>, le: (T, T) -> bool, n: nat): (r: seq<T>)
    requires TotalPreorder(le)
    ensures |r| == if |xs| < n then |xs| else n
    ensures SortedBy(r, le)
    ensures multiset(r) <= multiset(xs)
    ensures forall u, v :: u in xs && u !in r && v in r ==> le(v, u)
  {
    var sorted := SortBy(xs, le);
    var r := Take(sorted, n);
    assert sorted == r + sorted[|r|..];
    assert multiset(sorted) == multiset(r) + multiset(sorted[|r|..]);
    forall u, v | u in xs && u !in r && v in r
      ensures le(v, u)
    {
      assert u in multiset(sorted);
      var j :| 0 <= j < |sorted| && sorted[j] == u;
      var i :| 0 <= i < |r| && r[i] == v;
      assert sorted[i] == v;
    }
    r
  }

  /** Sum of `f` over the sequence (an `Array.prototype.reduce` from 0). */
  function SumOf<T>(xs: seq<T>, f: T -> int): int {
    if xs == [] then 0 else f(xs[0]) + SumOf(xs[1..], f)
  }

  lemma {:induction false} SumOfNonNegative<T>(xs: seq<T>, f: T -> int)
    requires forall k :: 0 <= k < |xs| ==> f(xs[k]) >= 0
    ensures SumOf(xs, f) >= 0
  {
    if xs != [] {
      SumOfNonNegative(xs[1..], f);
    }
  }

  lemma {:induction false} SumOfAppend<T>(a: seq<T>, b: seq<T>, f: T -> int)
    ensures SumOf(a + b, f) == SumOf(a, f) + SumOf(b, f)
  {
    if a == [] {
      assert a + b == b;
    } else {
      assert (a + b)[1..] == a[1..] + b;
      SumOfAppend(a[1..], b, f);
    }
  }

  /** A sum does not depend on the order of the rows. */
  lemma {:induction false} SumOfPermutation<T>(a: seq<T>, b: seq<T>, f: T -> int)
    requires multiset(a) == multiset(b)
    ensures SumOf(a, f) == SumOf(b, f)
    decreases |a|
  {
    if a != [] {
      assert a[0] in multiset(b);
      var i :| 0 <= i < |b| && b[i] == a[0];
      var rest := b[..i] + b[i + 1..];
      assert b == b[..i] + [b[i]] + b[i + 1..];
      assert a == [a[0]] + a[1..];
      assert multiset(a) == multiset{a[0]} + multiset(a[1..]);
      assert multiset(b) == multiset(b[..i]) + multiset{b[i]} + multiset(b[i + 1..]);
      assert multiset(rest) == multiset(b[..i]) + multiset(b[i + 1..]);
      assert multiset(a[1..]) == multiset(a) - multiset{a[0]};
      assert multiset(rest) == multiset(b) - multiset{b[i]};
      assert multiset(a[1..]) == multiset(rest);
      SumOfPermutation(a[1..], rest, f);
      SumOfAppend(b[..i] + [b[i]], b[i + 1..], f);
      SumOfAppend(b[..i], [b[i]], f);
      SumOfAppend(b[..i], b[i + 1..], f);
    } else {
      assert |b| == |multiset(b)| == 0;
    }
  }
}
