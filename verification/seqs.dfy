/** Generic sequence operations the aggregations are built from: position
    lookup (`indexOf`), keeping first occurrences, and a descending sort. */
module Seqs {

  /** A non-empty sequence is its front followed by its last element. */
  lemma LastSplit<T>(xs: seq<T>)
    requires |xs| > 0
    ensures xs == xs[..|xs| - 1] + [xs[|xs| - 1]]
  {
  }

  predicate Distinct<T(==)>(xs: seq<T>) {
    forall i, j :: 0 <= i < j < |xs| ==> xs[i] != xs[j]
  }

  /** `xs.indexOf(x)`: the first position holding `x`, or -1. */
  function IndexOf<T(==)>(xs: seq<T>, x: T): (i: int)
    ensures -1 <= i < |xs|
    ensures i >= 0 ==> xs[i] == x && forall j :: 0 <= j < i ==> xs[j] != x
    ensures i < 0 <==> x !in xs
  {
    if |xs| == 0 then -1
    else if xs[0] == x then 0
    else
      var k := IndexOf(xs[1..], x);
      if k < 0 then -1 else k + 1
  }

  /** Appending never moves the first occurrence of an element already
      present, and a new element is found at the end. */
  lemma IndexOfAppend<T>(xs: seq<T>, x: T, y: T)
    ensures y in xs ==> IndexOf(xs + [x], y) == IndexOf(xs, y)
    ensures y !in xs && y == x ==> IndexOf(xs + [x], y) == |xs|
  {
    var i := IndexOf(xs + [x], y);
    if y in xs {
      var k := IndexOf(xs, y);
      assert (xs + [x])[k] == y;
    }
  }

  /** `xs.filter((x, i, self) => self.indexOf(x) === i)`: the first
      occurrence of every element, in order. */
  function Dedupe<T(==)>(xs: seq<T>): (r: seq<T>)
    ensures Distinct(r)
    ensures forall i :: 0 <= i < |r| ==> r[i] in xs
    ensures forall i :: 0 <= i < |xs| ==> xs[i] in r
    ensures |r| <= |xs|
  {
    if |xs| == 0 then []
    else
      var p := Dedupe(xs[..|xs| - 1]);
      var x := xs[|xs| - 1];
      LastSplit(xs);
      if x in xs[..|xs| - 1] then p else p + [x]
  }

  /** Keeping first occurrences of a longer sequence keeps the new last
      element exactly when it was not seen before. */
  lemma DedupeSnoc<T>(xs: seq<T>, x: T)
    ensures Dedupe(xs + [x]) == if x in xs then Dedupe(xs) else Dedupe(xs) + [x]
  {
    assert (xs + [x])[..|xs|] == xs;
  }

  /** The kept elements appear in the order of their first occurrences. */
  lemma {:induction false} DedupeOrder<T>(xs: seq<T>)
    ensures forall i, j :: 0 <= i < j < |Dedupe(xs)| ==>
      IndexOf(xs, Dedupe(xs)[i]) < IndexOf(xs, Dedupe(xs)[j])
  {
    if |xs| > 0 {
      var pre := xs[..|xs| - 1];
      var x := xs[|xs| - 1];
      var p := Dedupe(pre);
      DedupeOrder(pre);
      LastSplit(xs);
      forall y | y in pre
        ensures IndexOf(xs, y) == IndexOf(pre, y)
      {
        IndexOfAppend(pre, x, y);
      }
      if x !in pre {
        IndexOfAppend(pre, x, x);
      }
    }
  }

  // ---------------------------------------------------------------------
  // Descending sort of distinct integers
  // ---------------------------------------------------------------------

  predicate StrictlyDecreasing(xs: seq<int>) {
    forall i, j :: 0 <= i < j < |xs| ==> xs[i] > xs[j]
  }

  /** Inserts `x` at its place in a strictly decreasing sequence. */
  function InsertDesc(xs: seq<int>, x: int): (r: seq<int>)
    requires StrictlyDecreasing(xs) && x !in xs
    ensures StrictlyDecreasing(r)
    ensures multiset(r) == multiset(xs) + multiset{x}
  {
    if |xs| == 0 || x > xs[0] then
      PrependAbove(x, xs);
      [x] + xs
    else
      TailDecreasing(xs);
      var t := InsertDesc(xs[1..], x);
      PrependLarger(xs, x, t);
      [xs[0]] + t
  }

  lemma TailDecreasing(xs: seq<int>)
    requires StrictlyDecreasing(xs) && |xs| > 0
    ensures StrictlyDecreasing(xs[1..])
    ensures multiset(xs) == multiset{xs[0]} + multiset(xs[1..])
  {
    assert xs == [xs[0]] + xs[1..];
  }

  /** A value above the head of a strictly decreasing sequence can go in
      front of it. */
  lemma PrependAbove(x: int, xs: seq<int>)
    requires StrictlyDecreasing(xs) && (|xs| == 0 || x > xs[0])
    ensures StrictlyDecreasing([x] + xs)
  {
    var r := [x] + xs;
    forall i, j | 0 <= i < j < |r|
      ensures r[i] > r[j]
    {
      assert r[j] == xs[j - 1];
      if i > 0 {
        assert r[i] == xs[i - 1];
      } else if j > 1 {
        assert xs[0] > xs[j - 1];
      }
    }
  }

  /** The head of `xs` is above every element of an insertion into its
      tail, so it can be put back in front. */
  lemma PrependLarger(xs: seq<int>, x: int, t: seq<int>)
    requires StrictlyDecreasing(xs) && x !in xs && |xs| > 0 && x < xs[0]
    requires StrictlyDecreasing(t) && multiset(t) == multiset(xs[1..]) + multiset{x}
    ensures StrictlyDecreasing([xs[0]] + t)
    ensures multiset([xs[0]] + t) == multiset(xs) + multiset{x}
  {
    forall k | 0 <= k < |t|
      ensures xs[0] > t[k]
    {
      assert t[k] in multiset(t);
      if t[k] != x {
        assert t[k] in multiset(xs[1..]);
        var j :| 0 <= j < |xs[1..]| && xs[1..][j] == t[k];
        assert xs[j + 1] == t[k];
      }
    }
    var r := [xs[0]] + t;
    forall i, j | 0 <= i < j < |r|
      ensures r[i] > r[j]
    {
      if i > 0 {
        assert r[i] == t[i - 1] && r[j] == t[j - 1];
      } else {
        assert r[j] == t[j - 1];
      }
    }
    assert xs == [xs[0]] + xs[1..];
  }

  /** Sorts distinct integers, latest first. */
  function SortDesc(xs: seq<int>): (r: seq<int>)
    requires Distinct(xs)
    ensures StrictlyDecreasing(r)
    ensures multiset(r) == multiset(xs)
  {
    if |xs| == 0 then []
    else
      var pre := xs[..|xs| - 1];
      var x := xs[|xs| - 1];
      LastSplit(xs);
      var p := SortDesc(pre);
      assert x !in multiset(p);
      InsertDesc(p, x)
  }
}
