/** Order-preserving filtering, the model of JavaScript's `Array.prototype.filter`. */
module Seqs {

  /** The elements of `xs` that satisfy `p`, in their original order. */
  function Filter<T(!new)>(xs: seq<T>, p: T -> bool): (r: seq<T>)
    ensures |r| <= |xs|
    ensures forall x :: x in r <==> x in xs && p(x)
    ensures multiset(r) <= multiset(xs)
  {
    if xs == [] then []
    else
      assert xs == [xs[0]] + xs[1..];
      (if p(xs[0]) then [xs[0]] else []) + Filter(xs[1..], p)
  }

  /** Filtering distributes over concatenation. */
  lemma {:induction false} FilterAppend<T(!new)>(a: seq<T>, b: seq<T>, p: T -> bool)
    ensures Filter(a + b, p) == Filter(a, p) + Filter(b, p)
  {
    if a == [] {
      assert a + b == b;
    } else {
      assert (a + b)[0] == a[0];
      assert (a + b)[1..] == a[1..] + b;
      FilterAppend(a[1..], b, p);
    }
  }

  /** A filter keeping every element is the identity. */
  lemma {:induction false} FilterAll<T(!new)>(xs: seq<T>, p: T -> bool)
    requires forall i :: 0 <= i < |xs| ==> p(xs[i])
    ensures Filter(xs, p) == xs
  {
    if xs != [] {
      FilterAll(xs[1..], p);
    }
  }

  /** A filter no element passes keeps nothing. */
  lemma {:induction false} FilterNone<T(!new)>(xs: seq<T>, p: T -> bool)
    requires forall i :: 0 <= i < |xs| ==> !p(xs[i])
    ensures Filter(xs, p) == []
  {
    if xs != [] {
      FilterNone(xs[1..], p);
    }
  }

  /** The first element a filter keeps is the first element of the input
      that passes the test. */
  lemma {:induction false} FilterFirst<T(!new)>(xs: seq<T>, p: T -> bool)
    requires Filter(xs, p) != []
    ensures exists i :: 0 <= i < |xs| && p(xs[i]) && Filter(xs, p)[0] == xs[i] &&
                        forall j :: 0 <= j < i ==> !p(xs[j])
  {
    var rest := xs[1..];
    if p(xs[0]) {
      assert Filter(xs, p) == [xs[0]] + Filter(rest, p);
      assert Filter(xs, p)[0] == xs[0];
    } else {
      assert Filter(xs, p) == [] + Filter(rest, p);
      assert Filter(xs, p) == Filter(rest, p);
      FilterFirst(rest, p);
      var i :| 0 <= i < |rest| && p(rest[i]) && Filter(rest, p)[0] == rest[i] &&
               forall j :: 0 <= j < i ==> !p(rest[j]);
      forall j | 0 <= j < i + 1 ensures !p(xs[j]) {
        if j > 0 {
          assert xs[j] == rest[j - 1];
        }
      }
      assert xs[i + 1] == rest[i];
      assert p(xs[i + 1]) && Filter(xs, p)[0] == xs[i + 1];
    }
  }

  /** Filtering one more element appends it exactly when it passes: with
      `Filter([], p) == []` this fixes the result, in order and with
      multiplicity. */
  lemma {:induction false} FilterSnoc<T(!new)>(xs: seq<T>, x: T, p: T -> bool)
    ensures Filter([], p) == []
    ensures Filter(xs + [x], p) == Filter(xs, p) + (if p(x) then [x] else [])
  {
    FilterAppend(xs, [x], p);
    assert [x][1..] == [];
  }

  /** Where the parts of `a + [x] + b` sit. */
  lemma {:induction false} AroundAt<T>(a: seq<T>, x: T, b: seq<T>)
    ensures |a + [x] + b| == |a| + 1 + |b|
    ensures forall k :: 0 <= k < |a| ==> (a + [x] + b)[k] == a[k]
    ensures (a + [x] + b)[|a|] == x
    ensures (a + [x] + b)[|a| + 1..] == b
  {
    assert (a + [x] + b)[|a| + 1..] == b;
  }

  lemma {:induction false} ConcatAssoc<T>(a: seq<T>, b: seq<T>, c: seq<T>)
    ensures a + (b + c) == (a + b) + c
  {
  }
}
