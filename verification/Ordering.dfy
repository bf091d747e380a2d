/** Rearrangements of sequences, stable sorting by a comparison, and the order of strings. */
module Ordering {
  import opened Sequences

  // Rearrangements

  function Map<T, U>(xs: seq<T>, f: T -> U): (r: seq<U>)
    ensures |r| == |xs| && forall i :: 0 <= i < |xs| ==> r[i] == f(xs[i])
  {
    seq(|xs|, i requires 0 <= i < |xs| => f(xs[i]))
  }

  lemma MapHead<T, U>(x: T, xs: seq<T>, f: T -> U)
    ensures Map([x] + xs, f) == [f(x)] + Map(xs, f)
  {
  }

  ghost predicate Unique<T>(xs: seq<T>)
  {
    forall i, j :: 0 <= i < j < |xs| ==> xs[i] != xs[j]
  }

  lemma RemoveOne<T>(xs: seq<T>, k: nat)
    requires k < |xs|
    ensures multiset(xs[..k] + xs[k + 1..]) == multiset(xs) - multiset{xs[k]}
  {
    assert xs == xs[..k] + ([xs[k]] + xs[k + 1..]);
    assert multiset(xs) == multiset(xs[..k]) + (multiset{xs[k]} + multiset(xs[k + 1..]));
  }

  lemma MapRemove<T, U>(xs: seq<T>, k: nat, f: T -> U)
    requires k < |xs|
    ensures multiset(Map(xs[..k] + xs[k + 1..], f)) == multiset(Map(xs, f)) - multiset{f(xs[k])}
    ensures f(xs[k]) in multiset(Map(xs, f))
  {
    RemoveOne(Map(xs, f), k);
    assert Map(xs[..k] + xs[k + 1..], f) == Map(xs, f)[..k] + Map(xs, f)[k + 1..];
    assert Map(xs, f)[k] in Map(xs, f);
  }

  lemma PutBack<T>(a: multiset<T>, b: multiset<T>, x: T)
    requires x in a && x in b && a - multiset{x} == b - multiset{x}
    ensures a == b
  {
    assert a == (a - multiset{x}) + multiset{x};
    assert b == (b - multiset{x}) + multiset{x};
  }

  lemma PutBackMapped<T, U>(a: seq<T>, b: seq<T>, k: nat, f: T -> U)
    requires a != [] && k < |b| && b[k] == a[0]
    requires multiset(Map(a[..0] + a[1..], f)) == multiset(Map(b[..k] + b[k + 1..], f))
    ensures multiset(Map(a, f)) == multiset(Map(b, f))
  {
    MapRemove(a, 0, f);
    MapRemove(b, k, f);
    PutBack(multiset(Map(a, f)), multiset(Map(b, f)), f(a[0]));
  }

  /** Mapping commutes with rearranging. */
  lemma {:induction false} MapPermutes<T, U>(a: seq<T>, b: seq<T>, f: T -> U)
    requires multiset(a) == multiset(b)
    ensures multiset(Map(a, f)) == multiset(Map(b, f))
    decreases |a|
  {
    assert |multiset(a)| == |a| && |multiset(b)| == |b|;
    if a != [] {
      assert a[0] in multiset(b);
      var k :| 0 <= k < |b| && b[k] == a[0];
      RemoveOne(a, 0);
      RemoveOne(b, k);
      MapPermutes(a[..0] + a[1..], b[..k] + b[k + 1..], f);
      PutBackMapped(a, b, k, f);
    }
  }

  lemma {:induction false} UniqueIffCounts<T(!new)>(xs: seq<T>)
    ensures Unique(xs) <==> forall x :: multiset(xs)[x] <= 1
  {
    if xs != [] {
      var head, rest := xs[0], xs[1..];
      UniqueIffCounts(rest);
      assert xs == [head] + rest;
      assert multiset(xs) == multiset{head} + multiset(rest);
      assert forall i :: 0 <= i < |rest| ==> rest[i] == xs[i + 1];
      assert Unique(xs) <==> head !in rest && Unique(rest);
      if head in rest {
        assert multiset(xs)[head] >= 2;
      } else if !Unique(rest) {
        var x :| multiset(rest)[x] > 1;
        assert multiset(xs)[x] > 1;
      } else {
        forall x ensures multiset(xs)[x] <= 1 {
          assert multiset(rest)[x] <= 1;
        }
      }
    }
  }

  lemma UniquePermutes<T(!new)>(a: seq<T>, b: seq<T>)
    requires Unique(a) && multiset(a) == multiset(b)
    ensures Unique(b)
  {
    UniqueIffCounts(a);
    UniqueIffCounts(b);
  }

  // Sorting

  ghost predicate TotalPreorder<T(!new)>(le: (T, T) -> bool)
  {
    && (forall x, y :: le(x, y) || le(y, x))
    && (forall x, y, z :: le(x, y) && le(y, z) ==> le(x, z))
  }

  ghost predicate Sorted<T>(xs: seq<T>, le: (T, T) -> bool)
  {
    forall i, j :: 0 <= i < j < |xs| ==> le(xs[i], xs[j])
  }

  /** Elements the comparison cannot tell apart. */
  predicate Tied<T>(x: T, y: T, le: (T, T) -> bool)
  {
    le(x, y) && le(y, x)
  }

  ghost predicate TiesAreEqual<T>(xs: seq<T>, le: (T, T) -> bool)
  {
    forall i, j :: 0 <= i < |xs| && 0 <= j < |xs| && Tied(xs[i], xs[j], le) ==> xs[i] == xs[j]
  }

  function Insert<T>(x: T, xs: seq<T>, le: (T, T) -> bool): (r: seq<T>)
  {
    if xs == [] || le(x, xs[0]) then [x] + xs else [xs[0]] + Insert(x, xs[1..], le)
  }

  /** The stable sort: elements that tie keep the order they came in. */
  function SortBy<T>(xs: seq<T>, le: (T, T) -> bool): (r: seq<T>)
  {
    if xs == [] then [] else Insert(xs[0], SortBy(xs[1..], le), le)
  }

  lemma {:induction false} InsertSorts<T(!new)>(x: T, xs: seq<T>, le: (T, T) -> bool)
    requires TotalPreorder(le) && Sorted(xs, le)
    ensures Sorted(Insert(x, xs, le), le)
  {
    if xs != [] && !le(x, xs[0]) {
      InsertSorts(x, xs[1..], le);
      InsertMembers(x, xs[1..], le);
      assert forall y :: y in xs[1..] ==> le(xs[0], y);
    }
  }

  lemma {:induction false} InsertCounts<T>(x: T, xs: seq<T>, le: (T, T) -> bool)
    ensures multiset(Insert(x, xs, le)) == multiset{x} + multiset(xs)
  {
    if xs == [] || le(x, xs[0]) {
      assert multiset([x] + xs) == multiset{x} + multiset(xs);
    } else {
      InsertCounts(x, xs[1..], le);
      assert xs == [xs[0]] + xs[1..];
    }
  }

  lemma {:induction false} InsertMembers<T>(x: T, xs: seq<T>, le: (T, T) -> bool)
    ensures forall y :: y in Insert(x, xs, le) ==> y == x || y in xs
  {
    if xs != [] && !le(x, xs[0]) {
      InsertMembers(x, xs[1..], le);
    }
  }

  lemma {:induction false} SortBySorts<T(!new)>(xs: seq<T>, le: (T, T) -> bool)
    requires TotalPreorder(le)
    ensures Sorted(SortBy(xs, le), le) && multiset(SortBy(xs, le)) == multiset(xs)
    ensures |SortBy(xs, le)| == |xs|
  {
    if xs != [] {
      SortBySorts(xs[1..], le);
      InsertSorts(xs[0], SortBy(xs[1..], le), le);
      InsertCounts(xs[0], SortBy(xs[1..], le), le);
      assert xs == [xs[0]] + xs[1..];
    }
    assert |multiset(SortBy(xs, le))| == |SortBy(xs, le)|;
    assert |multiset(xs)| == |xs|;
  }

  /** Two sorted arrangements of the same elements differ at most within ties. */
  lemma {:induction false} SortedUnique<T(!new)>(a: seq<T>, b: seq<T>, le: (T, T) -> bool)
    requires Sorted(a, le) && Sorted(b, le) && multiset(a) == multiset(b) && TiesAreEqual(a, le)
    requires TotalPreorder(le)
    ensures a == b
  {
    SameLength(a, b);
    if a != [] {
      SameFirst(a, b, le);
      SameTails(a, b);
      SortedUnique(a[1..], b[1..], le);
    }
  }

  lemma SameLength<T>(a: seq<T>, b: seq<T>)
    requires multiset(a) == multiset(b)
    ensures |a| == |b|
  {
    assert |multiset(a)| == |a| && |multiset(b)| == |b|;
  }

  lemma SameTails<T>(a: seq<T>, b: seq<T>)
    requires a != [] && b != [] && a[0] == b[0] && multiset(a) == multiset(b)
    ensures multiset(a[1..]) == multiset(b[1..])
  {
    HeadCounts(a);
    HeadCounts(b);
  }

  lemma HeadCounts<T>(a: seq<T>)
    requires a != []
    ensures multiset(a[1..]) == multiset(a) - multiset{a[0]}
  {
    assert a == [a[0]] + a[1..];
  }

  lemma SameFirst<T(!new)>(a: seq<T>, b: seq<T>, le: (T, T) -> bool)
    requires Sorted(a, le) && Sorted(b, le) && multiset(a) == multiset(b) && TiesAreEqual(a, le)
    requires TotalPreorder(le) && a != [] && b != []
    ensures a[0] == b[0]
  {
    assert a[0] in multiset(b) && b[0] in multiset(a);
    var i :| 0 <= i < |b| && b[i] == a[0];
    var j :| 0 <= j < |a| && a[j] == b[0];
    assert Tied(a[0], a[j], le);
  }

  lemma SortIsArrangementOfSet<T(!new)>(a: seq<T>, b: seq<T>, le: (T, T) -> bool)
    requires TotalPreorder(le) && multiset(a) == multiset(b) && TiesAreEqual(a, le)
    ensures SortBy(a, le) == SortBy(b, le)
  {
    SortBySorts(a, le);
    SortBySorts(b, le);
    TiesPermute(a, SortBy(a, le), le);
    SortedUnique(SortBy(a, le), SortBy(b, le), le);
  }

  lemma TiesPermute<T>(a: seq<T>, b: seq<T>, le: (T, T) -> bool)
    requires multiset(a) == multiset(b) && TiesAreEqual(a, le)
    ensures TiesAreEqual(b, le)
  {
    forall i, j | 0 <= i < |b| && 0 <= j < |b| && Tied(b[i], b[j], le) ensures b[i] == b[j] {
      assert b[i] in multiset(a) && b[j] in multiset(a);
      var k :| 0 <= k < |a| && a[k] == b[i];
      var l :| 0 <= l < |a| && a[l] == b[j];
      assert Tied(a[k], a[l], le);
    }
  }

  lemma {:induction false} SortedStays<T(!new)>(xs: seq<T>, le: (T, T) -> bool)
    requires Sorted(xs, le)
    ensures SortBy(xs, le) == xs
  {
    if xs != [] {
      SortedStays(xs[1..], le);
      assert xs == [xs[0]] + xs[1..];
    }
  }

  // Stability, and when the incoming order can be seen

  function TiedWith<T>(x: T, xs: seq<T>, le: (T, T) -> bool): (r: seq<T>)
  {
    if xs == [] then []
    else (if Tied(x, xs[0], le) then [xs[0]] else []) + TiedWith(x, xs[1..], le)
  }

  lemma {:induction false} InsertStable<T(!new)>(k: T, x: T, xs: seq<T>, le: (T, T) -> bool)
    requires forall y :: !le(x, y) && Tied(k, x, le) ==> !Tied(k, y, le)
    ensures TiedWith(k, Insert(x, xs, le), le) == (if Tied(k, x, le) then [x] else []) + TiedWith(k, xs, le)
  {
    if xs == [] || le(x, xs[0]) {
      TiedWithHead(k, x, xs, le);
    } else {
      InsertStable(k, x, xs[1..], le);
      TiedWithHead(k, xs[0], Insert(x, xs[1..], le), le);
    }
  }

  lemma TiedWithHead<T>(k: T, x: T, xs: seq<T>, le: (T, T) -> bool)
    ensures TiedWith(k, [x] + xs, le) == (if Tied(k, x, le) then [x] else []) + TiedWith(k, xs, le)
  {
    assert ([x] + xs)[1..] == xs;
  }

  lemma {:induction false} SortStable<T(!new)>(k: T, xs: seq<T>, le: (T, T) -> bool)
    requires TotalPreorder(le)
    ensures TiedWith(k, SortBy(xs, le), le) == TiedWith(k, xs, le)
  {
    if xs != [] {
      SortStable(k, xs[1..], le);
      InsertStable(k, xs[0], SortBy(xs[1..], le), le);
    }
  }

  lemma {:induction false} TiedWithConcat<T>(k: T, a: seq<T>, b: seq<T>, le: (T, T) -> bool)
    ensures TiedWith(k, a + b, le) == TiedWith(k, a, le) + TiedWith(k, b, le)
  {
    if a == [] {
      assert a + b == b;
    } else {
      TiedWithConcat(k, a[1..], b, le);
      TiedWithHead(k, a[0], a[1..] + b, le);
      assert a + b == [a[0]] + (a[1..] + b);
      Associates(if Tied(k, a[0], le) then [a[0]] else [], TiedWith(k, a[1..], le), TiedWith(k, b, le));
    }
  }

  /** Two sorted sequences that show every class of ties alike. */
  ghost predicate SameTies<T(!new)>(a: seq<T>, b: seq<T>, le: (T, T) -> bool)
  {
    forall k :: TiedWith(k, a, le) == TiedWith(k, b, le)
  }

  lemma {:induction false} TiedMember<T>(k: T, xs: seq<T>, le: (T, T) -> bool)
    ensures TiedWith(k, xs, le) != [] <==> exists i :: 0 <= i < |xs| && Tied(k, xs[i], le)
  {
    if xs != [] {
      TiedMember(k, xs[1..], le);
      assert forall i :: 0 < i < |xs| ==> xs[i] == xs[1..][i - 1];
      if TiedWith(k, xs[1..], le) != [] {
        var i :| 0 <= i < |xs| - 1 && Tied(k, xs[1..][i], le);
        assert Tied(k, xs[i + 1], le);
      }
    }
  }

  lemma SameTiesHead<T(!new)>(a: seq<T>, b: seq<T>, le: (T, T) -> bool)
    requires TotalPreorder(le) && Sorted(a, le) && Sorted(b, le) && SameTies(a, b, le) && a != []
    ensures b != [] && a[0] == b[0]
  {
    var x := a[0];
    assert Tied(x, x, le);
    assert TiedWith(x, a, le)[0] == x;
    TiedMember(x, b, le);
    var j :| 0 <= j < |b| && Tied(x, b[j], le);
    var y := b[0];
    assert le(y, b[j]) && le(y, x);
    assert Tied(y, y, le) && TiedWith(y, b, le) != [];
    TiedMember(y, a, le);
    var i :| 0 <= i < |a| && Tied(y, a[i], le);
    assert le(x, a[i]) && le(x, y);
  }

  lemma SameTiesTail<T(!new)>(a: seq<T>, b: seq<T>, le: (T, T) -> bool)
    requires SameTies(a, b, le) && a != [] && b != [] && a[0] == b[0]
    ensures SameTies(a[1..], b[1..], le)
  {
    forall k ensures TiedWith(k, a[1..], le) == TiedWith(k, b[1..], le) {
      var head := if Tied(k, a[0], le) then [a[0]] else [];
      assert TiedWith(k, a, le) == head + TiedWith(k, a[1..], le);
      assert TiedWith(k, b, le) == head + TiedWith(k, b[1..], le);
      DropHead(head, TiedWith(k, a[1..], le), TiedWith(k, b[1..], le));
    }
  }

  lemma DropHead<T>(head: seq<T>, x: seq<T>, y: seq<T>)
    requires head + x == head + y
    ensures x == y
  {
    assert x == (head + x)[|head|..] && y == (head + y)[|head|..];
  }

  lemma {:induction false} SortedSameTies<T(!new)>(a: seq<T>, b: seq<T>, le: (T, T) -> bool)
    requires TotalPreorder(le) && Sorted(a, le) && Sorted(b, le) && SameTies(a, b, le)
    ensures a == b
  {
    if a == [] {
      if b != [] {
        SameTiesHead(b, a, le);
      }
    } else {
      SameTiesHead(a, b, le);
      SameTiesTail(a, b, le);
      SortedSameTies(a[1..], b[1..], le);
    }
  }

  /** There is one stable sort: whatever sorts and keeps each class of ties in order is this one. */
  lemma StableSortIsUnique<T(!new)>(xs: seq<T>, r: seq<T>, le: (T, T) -> bool)
    requires TotalPreorder(le)
    ensures Sorted(r, le) && SameTies(r, xs, le) <==> r == SortBy(xs, le)
  {
    SortBySorts(xs, le);
    forall k ensures TiedWith(k, SortBy(xs, le), le) == TiedWith(k, xs, le) {
      SortStable(k, xs, le);
    }
    if Sorted(r, le) && SameTies(r, xs, le) {
      SortedSameTies(r, SortBy(xs, le), le);
    }
  }

  /** The library's stable sort on an array, by insertion from the right. */
  method StableSort<T(!new)>(a: array<T>, le: (T, T) -> bool)
    requires TotalPreorder(le)
    modifies a
    ensures Sorted(a[..], le) && SameTies(a[..], old(a[..]), le)
    ensures multiset(a[..]) == multiset(old(a[..]))
  {
    ghost var xs := a[..];
    var i := a.Length;
    while i > 0
      invariant 0 <= i <= a.Length
      invariant a[..i] == xs[..i] && a[i..] == SortBy(xs[i..], le)
    {
      i := i - 1;
      assert xs[i..][1..] == xs[i + 1..] && a[i] == xs[i];
      InsertAt(a, i, le);
      assert a[..i] == xs[..i];
    }
    assert a[..] == a[0..] && xs == xs[0..];
    StableSortIsUnique(xs, a[..], le);
    SortBySorts(xs, le);
  }

  /** Move the element at `i` up to its place among the sorted elements above it. */
  method InsertAt<T>(a: array<T>, i: nat, le: (T, T) -> bool)
    requires i < a.Length
    modifies a
    ensures a[..i] == old(a[..i]) && a[i..] == Insert(old(a[i]), old(a[i + 1..]), le)
  {
    ghost var below, above := a[..i], a[i + 1..];
    var x := a[i];
    var j := OpenGap(a, i, x, le, below, above);
    a[j] := x;
    InsertPlace(x, above, j - i, le);
    assert a[..i] == below;
  }

  /** Shift down the elements `x` does not precede, leaving a gap for it at `j`. */
  method OpenGap<T>(a: array<T>, i: nat, x: T, le: (T, T) -> bool, ghost below: seq<T>, ghost above: seq<T>)
    returns (j: nat)
    requires i < a.Length && below == a[..i] && above == a[i + 1..]
    modifies a
    ensures i <= j < a.Length && (j - i < |above| ==> le(x, above[j - i]))
    ensures forall q :: 0 <= q < j - i ==> !le(x, above[q])
    ensures forall q :: 0 <= q < i ==> a[q] == below[q]
    ensures forall q :: i <= q < j ==> a[q] == above[q - i]
    ensures forall q :: j < q < a.Length ==> a[q] == above[q - i - 1]
  {
    j := i;
    while j + 1 < a.Length && !le(x, a[j + 1])
      invariant i <= j < a.Length
      invariant forall q :: 0 <= q < i ==> a[q] == below[q]
      invariant forall q :: i <= q < j ==> a[q] == above[q - i]
      invariant forall q :: j < q < a.Length ==> a[q] == above[q - i - 1]
      invariant forall q :: 0 <= q < j - i ==> !le(x, above[q])
    {
      a[j] := a[j + 1];
      j := j + 1;
    }
  }

  lemma {:induction false} InsertPlace<T>(x: T, xs: seq<T>, p: nat, le: (T, T) -> bool)
    requires p <= |xs| && (p < |xs| ==> le(x, xs[p])) && forall q :: 0 <= q < p ==> !le(x, xs[q])
    ensures Insert(x, xs, le) == xs[..p] + [x] + xs[p..]
  {
    if p > 0 {
      InsertPlace(x, xs[1..], p - 1, le);
      PlaceInTail(x, xs, p);
    }
  }

  lemma PlaceInTail<T>(x: T, xs: seq<T>, p: nat)
    requires 0 < p <= |xs|
    ensures [xs[0]] + (xs[1..][..p - 1] + [x] + xs[1..][p - 1..]) == xs[..p] + [x] + xs[p..]
  {
  }

  /** Sorting forgets the incoming order iff elements that tie are equal. */
  lemma OrderForgottenIff<T(!new)>(a: seq<T>, le: (T, T) -> bool)
    requires TotalPreorder(le)
    ensures (forall b: seq<T> :: multiset(b) == multiset(a) ==> SortBy(b, le) == SortBy(a, le)) <==> TiesAreEqual(a, le)
  {
    if TiesAreEqual(a, le) {
      forall b: seq<T> | multiset(b) == multiset(a) ensures SortBy(b, le) == SortBy(a, le) {
        SortIsArrangementOfSet(a, b, le);
      }
    } else {
      var i, j :| 0 <= i < |a| && 0 <= j < |a| && Tied(a[i], a[j], le) && a[i] != a[j];
      var b := SwapVisible(a, a[i], a[j], Removed(a, a[i], a[j], i, j), le);
    }
  }

  lemma SwapVisible<T(!new)>(a: seq<T>, x: T, y: T, rest: seq<T>, le: (T, T) -> bool) returns (b: seq<T>)
    requires TotalPreorder(le) && Tied(x, y, le) && x != y && multiset(a) == multiset{x, y} + multiset(rest)
    ensures multiset(b) == multiset(a) && SortBy(b, le) != SortBy(a, le)
  {
    LeadingPair(x, y, rest);
    LeadingPair(y, x, rest);
    LeadersShow(x, y, rest, le);
    b := if SortBy([x] + ([y] + rest), le) != SortBy(a, le) then [x] + ([y] + rest) else [y] + ([x] + rest);
  }

  lemma LeadingPair<T>(x: T, y: T, rest: seq<T>)
    ensures multiset([x] + ([y] + rest)) == multiset{x, y} + multiset(rest)
  {
    assert multiset([y] + rest) == multiset{y} + multiset(rest);
    assert multiset([x] + ([y] + rest)) == multiset{x} + multiset([y] + rest);
  }

  lemma LeadersShow<T(!new)>(x: T, y: T, rest: seq<T>, le: (T, T) -> bool)
    requires TotalPreorder(le) && Tied(x, y, le) && x != y
    ensures SortBy([x] + ([y] + rest), le) != SortBy([y] + ([x] + rest), le)
  {
    var p, q := [x] + ([y] + rest), [y] + ([x] + rest);
    SortStable(x, p, le);
    SortStable(x, q, le);
    assert p[1..] == [y] + rest && q[1..] == [x] + rest;
    assert TiedWith(x, p, le)[0] == x && TiedWith(x, q, le)[0] == y;
  }

  ghost function Removed<T>(a: seq<T>, x: T, y: T, i: nat, j: nat): (r: seq<T>)
    requires i < |a| && j < |a| && i != j && a[i] == x && a[j] == y
    ensures multiset(a) == multiset{x, y} + multiset(r)
  {
    var lo, hi := if i < j then i else j, if i < j then j else i;
    RemoveTwo(a, lo, hi);
    Twice(a, lo, hi)
  }

  ghost function Twice<T>(a: seq<T>, lo: nat, hi: nat): (r: seq<T>)
    requires lo < hi < |a|
  {
    var once := a[..hi] + a[hi + 1..];
    once[..lo] + once[lo + 1..]
  }

  lemma RemoveTwo<T>(a: seq<T>, lo: nat, hi: nat)
    requires lo < hi < |a|
    ensures multiset(a) == multiset{a[lo], a[hi]} + multiset(Twice(a, lo, hi))
  {
    var once := a[..hi] + a[hi + 1..];
    RemoveOne(a, hi);
    RemoveOne(once, lo);
    assert a[hi] in a && once[lo] in once;
    AddTwo(multiset(a), multiset(once), multiset(Twice(a, lo, hi)), a[lo], a[hi]);
  }

  lemma AddTwo<T>(m: multiset<T>, once: multiset<T>, rest: multiset<T>, x: T, y: T)
    requires y in m && once == m - multiset{y} && x in once && rest == once - multiset{x}
    ensures m == multiset{x, y} + rest
  {
  }

  // Strings

  /** Lexicographic by code point, which is also the byte order of the UTF-8 encodings. */
  predicate StringLe(a: string, b: string)
  {
    a == [] || (b != [] && (a[0] < b[0] || (a[0] == b[0] && StringLe(a[1..], b[1..]))))
  }

  lemma {:induction false} StringLeTotal(a: string, b: string)
    ensures StringLe(a, b) || StringLe(b, a)
    ensures StringLe(a, b) && StringLe(b, a) ==> a == b
  {
    if a != [] && b != [] {
      StringLeTotal(a[1..], b[1..]);
      assert a == [a[0]] + a[1..] && b == [b[0]] + b[1..];
    }
  }

  lemma {:induction false} StringLeTransitive(a: string, b: string, c: string)
    requires StringLe(a, b) && StringLe(b, c)
    ensures StringLe(a, c)
  {
    if a != [] && a[0] == b[0] == c[0] {
      StringLeTransitive(a[1..], b[1..], c[1..]);
    }
  }
}
