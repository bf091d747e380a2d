/** Searching, filtering and joining sequences. */
module Sequences {

  /** The first index whose element satisfies `p`, or the length if there is none. */
  function FirstIndex<T>(xs: seq<T>, p: T -> bool): (i: nat)
    ensures i <= |xs|
    ensures i < |xs| ==> p(xs[i])
    ensures forall j :: 0 <= j < i ==> !p(xs[j])
  {
    FirstIndexFrom(xs, p, 0)
  }

  function FirstIndexFrom<T>(xs: seq<T>, p: T -> bool, from: nat): (i: nat)
    requires from <= |xs|
    ensures from <= i <= |xs|
    ensures i < |xs| ==> p(xs[i])
    ensures forall j :: from <= j < i ==> !p(xs[j])
    decreases |xs| - from
  {
    if from == |xs| || p(xs[from]) then from else FirstIndexFrom(xs, p, from + 1)
  }

  /** The elements that satisfy `p`, in order. */
  function Filter<T>(xs: seq<T>, p: T -> bool): (r: seq<T>)
    ensures |r| <= |xs|
  {
    if xs == [] then []
    else Filter(xs[..|xs| - 1], p) + if p(xs[|xs| - 1]) then [xs[|xs| - 1]] else []
  }

  lemma {:induction false} FilterMembers<T>(xs: seq<T>, p: T -> bool)
    ensures forall x :: x in Filter(xs, p) ==> x in xs && p(x)
    ensures forall x :: x in xs && p(x) ==> x in Filter(xs, p)
  {
    if xs != [] {
      FilterMembers(xs[..|xs| - 1], p);
      assert xs == xs[..|xs| - 1] + [xs[|xs| - 1]];
    }
  }

  /** Two elements kept stood in the same order. */
  lemma {:induction false} FilterPlaces<T>(xs: seq<T>, p: T -> bool, i: nat, j: nat) returns (a: nat, b: nat)
    requires i < j < |Filter(xs, p)|
    ensures a < b < |xs| && Filter(xs, p)[i] == xs[a] && Filter(xs, p)[j] == xs[b]
  {
    var init, n := xs[..|xs| - 1], |xs| - 1;
    if j < |Filter(init, p)| {
      a, b := FilterPlaces(init, p, i, j);
    } else {
      FilterMembers(init, p);
      var x := Filter(init, p)[i];
      assert x in Filter(init, p) && x in init;
      var q :| 0 <= q < |init| && init[q] == x;
      a, b := q, n;
    }
  }

  /** The retain pass: one element at a time. */
  method Retain<T>(xs: seq<T>, p: T -> bool) returns (kept: seq<T>)
    ensures kept == Filter(xs, p)
  {
    kept := [];
    var i := 0;
    while i < |xs|
      invariant i <= |xs| && kept == Filter(xs[..i], p)
    {
      assert xs[..i + 1][..i] == xs[..i];
      if p(xs[i]) {
        kept := kept + [xs[i]];
      }
      i := i + 1;
    }
    assert xs[..|xs|] == xs;
  }

  lemma Associates<T>(a: seq<T>, b: seq<T>, c: seq<T>)
    ensures a + (b + c) == (a + b) + c
  {
  }
}
