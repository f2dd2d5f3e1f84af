/** Sorting by a total preorder: the model of `Array.prototype.sort` with a
    comparator. The source's comparators do not pin down the relative order of
    equal keys, so the model commits only to "a permutation, in order"; the
    insertion sort below happens to be stable. */
module Sorting {
  import opened Seqs

  /** `le` is total and transitive: a comparator that never contradicts itself. */
  ghost predicate IsTotalPreorder<T(!new)>(le: (T, T) -> bool) {
    && (forall a, b :: le(a, b) || le(b, a))
    && (forall a, b, c :: le(a, b) && le(b, c) ==> le(a, c))
  }

  predicate SortedBy<T>(xs: seq<T>, le: (T, T) -> bool) {
    forall i, j :: 0 <= i < j < |xs| ==> le(xs[i], xs[j])
  }

  /** Places `x` into a sorted list, before the first element it precedes. */
  function Insert<T(!new)>(x: T, xs: seq<T>, le: (T, T) -> bool): (r: seq<T>)
    requires IsTotalPreorder(le)
    requires SortedBy(xs, le)
    ensures SortedBy(r, le)
    ensures multiset(r) == multiset(xs) + multiset{x}
  {
    if xs == [] || le(x, xs[0]) then
      [x] + xs
    else
      var tail := Insert(x, xs[1..], le);
      assert xs == [xs[0]] + xs[1..];
      HeadPrecedesAll(xs[0], x, xs[1..], tail, le);
      [xs[0]] + tail
  }

  /** A head that precedes `x` and every element of `rest` can be put in
      front of any sorted arrangement of `rest` and `x`. */
  lemma {:induction false} HeadPrecedesAll<T(!new)>(h: T, x: T, rest: seq<T>, tail: seq<T>, le: (T, T) -> bool)
    requires IsTotalPreorder(le)
    requires !le(x, h)
    requires SortedBy([h] + rest, le)
    requires SortedBy(tail, le)
    requires multiset(tail) == multiset(rest) + multiset{x}
    ensures SortedBy([h] + tail, le)
  {
    assert le(h, x) || le(x, h);
    forall k | 0 <= k < |tail| ensures le(h, tail[k]) {
      assert tail[k] in multiset(tail);
      if tail[k] != x {
        assert tail[k] in multiset(rest);
        var j :| 0 <= j < |rest| && rest[j] == tail[k];
        assert ([h] + rest)[0] == h && ([h] + rest)[j + 1] == rest[j];
      }
    }
    var r := [h] + tail;
    forall i, j | 0 <= i < j < |r| ensures le(r[i], r[j]) {
      assert r[j] == tail[j - 1];
      if i > 0 {
        assert r[i] == tail[i - 1];
      }
    }
  }

  /** A sorted permutation of `xs`. */
  function SortBy<T(!new)>(xs: seq<T>, le: (T, T) -> bool): (r: seq<T>)
    requires IsTotalPreorder(le)
    ensures SortedBy(r, le)
    ensures multiset(r) == multiset(xs)
    ensures |r| == |xs|
  {
    if xs == [] then []
    else
      assert xs == [xs[0]] + xs[1..];
      var r := Insert(xs[0], SortBy(xs[1..], le), le);
      assert |r| == |multiset(r)|;
      r
  }

  /** Any subsequence picked by a filter keeps the order of a sorted list. */
  lemma {:induction false} FilterSorted<T(!new)>(xs: seq<T>, p: T -> bool, le: (T, T) -> bool)
    requires SortedBy(xs, le)
    ensures SortedBy(Filter(xs, p), le)
  {
    if xs != [] {
      FilterSorted(xs[1..], p, le);
      var rest := Filter(xs[1..], p);
      assert forall k :: 0 <= k < |rest| ==> rest[k] in xs[1..];
    }
  }
}
