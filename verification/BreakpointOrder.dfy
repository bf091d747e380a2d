/**
 The rows of the breakpoint list over successive snapshots: who was shown before stays where it was,
 newcomers come last by identity, and so for the members of each row and for the selection.
 */
module BreakpointOrder {
  import opened Wrappers
  import opened Ordering

  datatype Member = Member(id: string, body: string)

  datatype Breakpoint = Breakpoint(id: string, body: string, members: seq<Member>)

  function BreakpointIds(bps: seq<Breakpoint>): (ids: seq<string>)
  {
    Map(bps, (bp: Breakpoint) => bp.id)
  }

  function MemberIds(ms: seq<Member>): (ids: seq<string>)
  {
    Map(ms, (m: Member) => m.id)
  }

  /** The row an identity had; a map built from the rows keeps the last of equal identities. */
  function LastRow(ids: seq<string>, id: string): (row: Option<nat>)
    ensures row.Some? <==> id in ids
    ensures row.Some? ==> row.value < |ids| && ids[row.value] == id
    ensures row.Some? ==> forall j :: row.value < j < |ids| ==> ids[j] != id
  {
    if ids == [] then None
    else if ids[|ids| - 1] == id then Some(|ids| - 1)
    else LastRow(ids[..|ids| - 1], id)
  }

  /** Known identities first, by their row; unknown ones after them, by identity. */
  predicate Precedes(ids: seq<string>, a: string, b: string)
  {
    match (LastRow(ids, a), LastRow(ids, b))
    case (Some(i), Some(j)) => i < j || (i == j && StringLe(a, b))
    case (Some(_), None) => true
    case (None, Some(_)) => false
    case (None, None) => StringLe(a, b)
  }

  function ByRow(ids: seq<string>): (le: (Breakpoint, Breakpoint) -> bool)
  {
    (a: Breakpoint, b: Breakpoint) => Precedes(ids, a.id, b.id)
  }

  function MembersByRow(ids: seq<string>): (le: (Member, Member) -> bool)
  {
    (a: Member, b: Member) => Precedes(ids, a.id, b.id)
  }

  /** The members a breakpoint was shown with. */
  function KnownMembers(previous: seq<Breakpoint>, id: string): (ms: seq<Member>)
  {
    match LastRow(BreakpointIds(previous), id)
    case Some(i) => previous[i].members
    case None => []
  }

  function Arrange(bp: Breakpoint, previous: seq<Breakpoint>): (r: Breakpoint)
  {
    bp.(members := SortBy(bp.members, MembersByRow(MemberIds(KnownMembers(previous, bp.id)))))
  }

  function Arranger(previous: seq<Breakpoint>): (f: Breakpoint -> Breakpoint)
  {
    (bp: Breakpoint) => Arrange(bp, previous)
  }

  function Stabilize(incoming: seq<Breakpoint>, previous: seq<Breakpoint>): (r: seq<Breakpoint>)
  {
    Map(SortBy(incoming, ByRow(BreakpointIds(previous))), Arranger(previous))
  }

  /** In place: a stable sort of the rows, then of the members of each row. */
  method StabilizeInPlace(incoming: array<Breakpoint>, previous: seq<Breakpoint>)
    modifies incoming
    ensures incoming[..] == Stabilize(old(incoming[..]), previous)
  {
    ghost var was, ids := incoming[..], BreakpointIds(previous);
    PrecedesOrders(ids);
    StableSort(incoming, ByRow(BreakpointIds(previous)));
    StableSortIsUnique(was, incoming[..], ByRow(ids));
    ArrangeEach(incoming, previous);
  }

  method ArrangeEach(incoming: array<Breakpoint>, previous: seq<Breakpoint>)
    modifies incoming
    ensures incoming[..] == Map(old(incoming[..]), Arranger(previous))
  {
    ghost var sorted := incoming[..];
    for i := 0 to incoming.Length
      invariant forall j :: 0 <= j < i ==> incoming[j] == Arrange(sorted[j], previous)
      invariant forall j :: i <= j < incoming.Length ==> incoming[j] == sorted[j]
    {
      var members := SortMembers(incoming[i].members, MemberIds(KnownMembers(previous, incoming[i].id)));
      incoming[i] := incoming[i].(members := members);
    }
  }

  method SortMembers(members: seq<Member>, ids: seq<string>) returns (r: seq<Member>)
    ensures r == SortBy(members, MembersByRow(ids))
  {
    var a := new Member[|members|](i requires 0 <= i < |members| => members[i]);
    assert a[..] == members;
    PrecedesOrders(ids);
    StableSort(a, MembersByRow(ids));
    StableSortIsUnique(members, a[..], MembersByRow(ids));
    r := a[..];
  }

  /** Whatever sorts rows and members and keeps ties in order gives this arrangement and no other. */
  lemma StabilizeIsUnique(incoming: seq<Breakpoint>, previous: seq<Breakpoint>, sorted: seq<Breakpoint>, r: seq<Breakpoint>)
    requires Sorted(sorted, ByRow(BreakpointIds(previous))) && SameTies(sorted, incoming, ByRow(BreakpointIds(previous)))
    requires |r| == |sorted|
    requires forall i :: 0 <= i < |r| ==>
               var le := MembersByRow(MemberIds(KnownMembers(previous, sorted[i].id)));
               && r[i].id == sorted[i].id && r[i].body == sorted[i].body
               && Sorted(r[i].members, le) && SameTies(r[i].members, sorted[i].members, le)
    ensures r == Stabilize(incoming, previous)
  {
    PrecedesOrders(BreakpointIds(previous));
    StableSortIsUnique(incoming, sorted, ByRow(BreakpointIds(previous)));
    forall i | 0 <= i < |r| ensures r[i] == Arrange(sorted[i], previous) {
      var ids := MemberIds(KnownMembers(previous, sorted[i].id));
      PrecedesOrders(ids);
      StableSortIsUnique(sorted[i].members, r[i].members, MembersByRow(ids));
    }
  }

  // The comparison

  lemma PrecedesTransitive(ids: seq<string>, a: string, b: string, c: string)
    requires Precedes(ids, a, b) && Precedes(ids, b, c)
    ensures Precedes(ids, a, c)
  {
    if StringLe(a, b) && StringLe(b, c) {
      StringLeTransitive(a, b, c);
    }
  }

  lemma PrecedesTotal(ids: seq<string>, a: string, b: string)
    ensures Precedes(ids, a, b) || Precedes(ids, b, a)
    ensures Precedes(ids, a, b) && Precedes(ids, b, a) <==> a == b
  {
    StringLeTotal(a, b);
  }

  lemma PrecedesOrders(ids: seq<string>)
    ensures TotalPreorder(ByRow(ids)) && TotalPreorder(MembersByRow(ids)) && TotalPreorder(LooseByRow(ids))
  {
    forall a, b ensures Precedes(ids, a, b) || Precedes(ids, b, a) {
      PrecedesTotal(ids, a, b);
    }
    forall a, b, c | Precedes(ids, a, b) && Precedes(ids, b, c) ensures Precedes(ids, a, c) {
      PrecedesTransitive(ids, a, b, c);
    }
  }

  ghost predicate UniqueRows(bps: seq<Breakpoint>)
  {
    && Unique(BreakpointIds(bps))
    && forall i :: 0 <= i < |bps| ==> Unique(MemberIds(bps[i].members))
  }

  // What the arrangement keeps

  /** A breakpoint with its members as the set the snapshot meant. */
  datatype Loose = Loose(id: string, body: string, members: multiset<Member>)

  ghost function Loosen(bp: Breakpoint): (l: Loose)
  {
    Loose(bp.id, bp.body, multiset(bp.members))
  }

  ghost function LoosenAll(bps: seq<Breakpoint>): (r: seq<Loose>)
  {
    Map(bps, Loosen)
  }

  lemma ArrangeKeeps(bp: Breakpoint, previous: seq<Breakpoint>)
    ensures Loosen(Arrange(bp, previous)) == Loosen(bp)
  {
    var ids := MemberIds(KnownMembers(previous, bp.id));
    PrecedesOrders(ids);
    SortBySorts(bp.members, MembersByRow(ids));
  }

  /** Nothing is lost, added or altered: rows and members are rearranged only. */
  lemma StabilizePermutes(incoming: seq<Breakpoint>, previous: seq<Breakpoint>)
    ensures multiset(LoosenAll(Stabilize(incoming, previous))) == multiset(LoosenAll(incoming))
  {
    var ids := BreakpointIds(previous);
    PrecedesOrders(ids);
    SortBySorts(incoming, ByRow(ids));
    var sorted := SortBy(incoming, ByRow(ids));
    MapPermutes(sorted, incoming, Loosen);
    forall i | 0 <= i < |sorted| ensures Loosen(Arrange(sorted[i], previous)) == Loosen(sorted[i]) {
      ArrangeKeeps(sorted[i], previous);
    }
    assert LoosenAll(Stabilize(incoming, previous)) == LoosenAll(sorted);
  }

  /** Survivors keep their relative rows, newcomers follow them in identity order. */
  lemma StabilizeOrders(incoming: seq<Breakpoint>, previous: seq<Breakpoint>, i: nat, j: nat)
    requires i < j < |Stabilize(incoming, previous)|
    ensures var ids := BreakpointIds(previous);
            var a, b := Stabilize(incoming, previous)[i].id, Stabilize(incoming, previous)[j].id;
            && (b in ids ==> a in ids)
            && (a in ids && b in ids ==> LastRow(ids, a).value <= LastRow(ids, b).value)
            && (a !in ids && b !in ids ==> StringLe(a, b))
  {
    var ids := BreakpointIds(previous);
    PrecedesOrders(ids);
    SortBySorts(incoming, ByRow(ids));
    var sorted := SortBy(incoming, ByRow(ids));
    assert ByRow(ids)(sorted[i], sorted[j]);
  }

  lemma StabilizeOrdersMembers(incoming: seq<Breakpoint>, previous: seq<Breakpoint>, k: nat, i: nat, j: nat)
    requires k < |Stabilize(incoming, previous)|
    requires i < j < |Stabilize(incoming, previous)[k].members|
    ensures var bp := Stabilize(incoming, previous)[k];
            var ids := MemberIds(KnownMembers(previous, bp.id));
            var a, b := bp.members[i].id, bp.members[j].id;
            && (b in ids ==> a in ids)
            && (a in ids && b in ids ==> LastRow(ids, a).value <= LastRow(ids, b).value)
            && (a !in ids && b !in ids ==> StringLe(a, b))
  {
    var sorted := SortBy(incoming, ByRow(BreakpointIds(previous)));
    var ids := MemberIds(KnownMembers(previous, sorted[k].id));
    PrecedesOrders(ids);
    SortBySorts(sorted[k].members, MembersByRow(ids));
    assert MembersByRow(ids)(Stabilize(incoming, previous)[k].members[i], Stabilize(incoming, previous)[k].members[j]);
  }

  // The snapshot's own order is forgotten

  /** Identities decide: rows that share one mean the same, and so do members of a row. */
  ghost predicate IdsDecide(a: seq<Breakpoint>)
  {
    && (forall i, j :: 0 <= i < |a| && 0 <= j < |a| && a[i].id == a[j].id ==> Loosen(a[i]) == Loosen(a[j]))
    && (forall i :: 0 <= i < |a| ==> MemberIdsDecide(a[i].members))
  }

  ghost predicate MemberIdsDecide(ms: seq<Member>)
  {
    forall p, q :: 0 <= p < |ms| && 0 <= q < |ms| && ms[p].id == ms[q].id ==> ms[p] == ms[q]
  }

  lemma MemberTiesIff(ms: seq<Member>, ids: seq<string>)
    ensures MemberIdsDecide(ms) <==> TiesAreEqual(ms, MembersByRow(ids))
  {
    forall p, q | 0 <= p < |ms| && 0 <= q < |ms|
      ensures Tied(ms[p], ms[q], MembersByRow(ids)) <==> ms[p].id == ms[q].id
    {
      PrecedesTotal(ids, ms[p].id, ms[q].id);
    }
  }

  lemma ArrangeForgets(a: Breakpoint, b: Breakpoint, previous: seq<Breakpoint>)
    requires Loosen(a) == Loosen(b) && MemberIdsDecide(a.members)
    ensures Arrange(a, previous) == Arrange(b, previous)
  {
    var ids := MemberIds(KnownMembers(previous, a.id));
    PrecedesOrders(ids);
    MemberTiesIff(a.members, ids);
    SortIsArrangementOfSet(a.members, b.members, MembersByRow(ids));
  }

  ghost function LooseByRow(ids: seq<string>): (le: (Loose, Loose) -> bool)
  {
    (a: Loose, b: Loose) => Precedes(ids, a.id, b.id)
  }

  lemma SortedLooseUnique(a: seq<Breakpoint>, b: seq<Breakpoint>, ids: seq<string>)
    requires multiset(LoosenAll(a)) == multiset(LoosenAll(b))
    requires Sorted(a, ByRow(ids)) && Sorted(b, ByRow(ids)) && IdsDecide(a)
    ensures LoosenAll(a) == LoosenAll(b)
  {
    var la, lb, le := LoosenAll(a), LoosenAll(b), LooseByRow(ids);
    PrecedesOrders(ids);
    forall i, j | 0 <= i < |la| && 0 <= j < |la| && Tied(la[i], la[j], le) ensures la[i] == la[j] {
      PrecedesTotal(ids, a[i].id, a[j].id);
    }
    SortedUnique(la, lb, le);
  }

  lemma DecidePermutes(a: seq<Breakpoint>, s: seq<Breakpoint>)
    requires IdsDecide(a) && multiset(a) == multiset(s)
    ensures IdsDecide(s)
  {
    forall i | 0 <= i < |s| ensures s[i] in a {
      assert s[i] in multiset(a);
    }
  }

  /** Where identities decide, the result does not depend on the order of rows or members received. */
  lemma DecidedForgets(a: seq<Breakpoint>, b: seq<Breakpoint>, previous: seq<Breakpoint>)
    requires IdsDecide(a) && multiset(LoosenAll(a)) == multiset(LoosenAll(b))
    ensures Stabilize(a, previous) == Stabilize(b, previous)
  {
    var ids := BreakpointIds(previous);
    PrecedesOrders(ids);
    SortBySorts(a, ByRow(ids));
    SortBySorts(b, ByRow(ids));
    var sa, sb := SortBy(a, ByRow(ids)), SortBy(b, ByRow(ids));
    MapPermutes(sa, a, Loosen);
    MapPermutes(sb, b, Loosen);
    DecidePermutes(a, sa);
    SortedLooseUnique(sa, sb, ids);
    forall i | 0 <= i < |sa| ensures Arrange(sa[i], previous) == Arrange(sb[i], previous) {
      assert LoosenAll(sa)[i] == LoosenAll(sb)[i];
      ArrangeForgets(sa[i], sb[i], previous);
    }
  }

  lemma UniqueDecides(a: seq<Breakpoint>)
    requires UniqueRows(a)
    ensures IdsDecide(a)
  {
    forall i, j | 0 <= i < |a| && 0 <= j < |a| && a[i].id == a[j].id ensures i == j {
      assert BreakpointIds(a)[i] == BreakpointIds(a)[j];
    }
    forall i | 0 <= i < |a| ensures MemberIdsDecide(a[i].members) {
      UniqueMembersDecide(a[i].members);
    }
  }

  lemma UniqueMembersDecide(ms: seq<Member>)
    requires Unique(MemberIds(ms))
    ensures MemberIdsDecide(ms)
  {
    forall p, q | 0 <= p < |ms| && 0 <= q < |ms| && ms[p].id == ms[q].id ensures p == q {
      assert MemberIds(ms)[p] == MemberIds(ms)[q];
    }
  }

  /** With unique identities the result does not depend on the order of rows or members received. */
  lemma StabilizeForgetsOrder(a: seq<Breakpoint>, b: seq<Breakpoint>, previous: seq<Breakpoint>)
    requires UniqueRows(a) && multiset(LoosenAll(a)) == multiset(LoosenAll(b))
    ensures Stabilize(a, previous) == Stabilize(b, previous)
  {
    UniqueDecides(a);
    DecidedForgets(a, b, previous);
  }

  // When it is not forgotten

  lemma {:induction false} TiedArranged(k: Breakpoint, xs: seq<Breakpoint>, previous: seq<Breakpoint>, ids: seq<string>)
    ensures TiedWith(k, Map(xs, Arranger(previous)), ByRow(ids)) == Map(TiedWith(k, xs, ByRow(ids)), Arranger(previous))
  {
    if xs != [] {
      var f, rest := Arranger(previous), xs[1..];
      TiedArranged(k, rest, previous, ids);
      MapHead(xs[0], rest, f);
      assert xs == [xs[0]] + rest;
      TiedWithHead(k, f(xs[0]), Map(rest, f), ByRow(ids));
      MapHead(xs[0], TiedWith(k, rest, ByRow(ids)), f);
    }
  }

  /** The rows of one identity, arranged, in the order received. */
  lemma ShownTies(k: Breakpoint, a: seq<Breakpoint>, previous: seq<Breakpoint>)
    ensures TiedWith(k, Stabilize(a, previous), ByRow(BreakpointIds(previous))) ==
            Map(TiedWith(k, a, ByRow(BreakpointIds(previous))), Arranger(previous))
  {
    var ids := BreakpointIds(previous);
    PrecedesOrders(ids);
    SortStable(k, a, ByRow(ids));
    TiedArranged(k, SortBy(a, ByRow(ids)), previous, ids);
  }

  lemma TiesAt(k: Breakpoint, a: seq<Breakpoint>, i: nat, ids: seq<string>)
    requires i < |a| && a[i].id == k.id
    ensures var before := |TiedWith(k, a[..i], ByRow(ids))|;
            before < |TiedWith(k, a, ByRow(ids))| && TiedWith(k, a, ByRow(ids))[before] == a[i]
  {
    var le := ByRow(ids);
    PrecedesTotal(ids, k.id, a[i].id);
    assert a == a[..i] + ([a[i]] + a[i + 1..]);
    TiedWithConcat(k, a[..i], [a[i]] + a[i + 1..], le);
    TiedWithHead(k, a[i], a[i + 1..], le);
  }

  /** Where two receptions first differ in a row of the same identity, equal results show it alike. */
  lemma FirstDifference(a: seq<Breakpoint>, b: seq<Breakpoint>, i: nat, previous: seq<Breakpoint>)
    requires i < |a| && i < |b| && a[..i] == b[..i] && a[i].id == b[i].id
    requires Stabilize(a, previous) == Stabilize(b, previous)
    ensures Arrange(a[i], previous) == Arrange(b[i], previous)
  {
    var ids := BreakpointIds(previous);
    ShownTies(a[i], a, previous);
    ShownTies(a[i], b, previous);
    TiesAt(a[i], a, i, ids);
    TiesAt(a[i], b, i, ids);
    var n := |TiedWith(a[i], a[..i], ByRow(ids))|;
    assert Map(TiedWith(a[i], a, ByRow(ids)), Arranger(previous))[n] == Arrange(a[i], previous);
    assert Map(TiedWith(a[i], b, ByRow(ids)), Arranger(previous))[n] == Arrange(b[i], previous);
  }

  ghost predicate Forgotten(a: seq<Breakpoint>, previous: seq<Breakpoint>)
  {
    forall b: seq<Breakpoint> :: multiset(LoosenAll(b)) == multiset(LoosenAll(a)) ==>
      Stabilize(b, previous) == Stabilize(a, previous)
  }

  lemma ForgottenRows(a: seq<Breakpoint>, previous: seq<Breakpoint>, i: nat, j: nat)
    requires Forgotten(a, previous) && i < j < |a| && a[i].id == a[j].id
    ensures Loosen(a[i]) == Loosen(a[j])
  {
    var b := a[i := a[j]][j := a[i]];
    SwapKeeps(a, i, j);
    MapPermutes(b, a, Loosen);
    assert Stabilize(b, previous) == Stabilize(a, previous);
    assert a[..i] == b[..i] && b[i] == a[j];
    FirstDifference(a, b, i, previous);
    ArrangedAlike(a[i], a[j], previous);
  }

  lemma SwapKeeps<T>(a: seq<T>, i: nat, j: nat)
    requires i < j < |a|
    ensures multiset(a[i := a[j]][j := a[i]]) == multiset(a)
  {
  }

  lemma ArrangedAlike(a: Breakpoint, b: Breakpoint, previous: seq<Breakpoint>)
    requires Arrange(a, previous) == Arrange(b, previous)
    ensures Loosen(a) == Loosen(b)
  {
    ArrangeKeeps(a, previous);
    ArrangeKeeps(b, previous);
  }

  lemma ForgottenMembers(a: seq<Breakpoint>, previous: seq<Breakpoint>, i: nat)
    requires Forgotten(a, previous) && i < |a|
    ensures MemberIdsDecide(a[i].members)
  {
    var ids := MemberIds(KnownMembers(previous, a[i].id));
    var le := MembersByRow(ids);
    PrecedesOrders(ids);
    forall ms: seq<Member> | multiset(ms) == multiset(a[i].members) ensures SortBy(ms, le) == SortBy(a[i].members, le) {
      var b := a[i := a[i].(members := ms)];
      assert LoosenAll(b) == LoosenAll(a);
      assert Stabilize(b, previous) == Stabilize(a, previous);
      assert a[..i] == b[..i];
      FirstDifference(a, b, i, previous);
    }
    OrderForgottenIff(a[i].members, le);
    MemberTiesIff(a[i].members, ids);
  }

  /** The order received cannot be seen in the result iff identities decide what they identify. */
  lemma StabilizeForgetsIff(a: seq<Breakpoint>, previous: seq<Breakpoint>)
    ensures Forgotten(a, previous) <==> IdsDecide(a)
  {
    if Forgotten(a, previous) {
      forall i, j | 0 <= i < |a| && 0 <= j < |a| && a[i].id == a[j].id ensures Loosen(a[i]) == Loosen(a[j]) {
        if i < j {
          ForgottenRows(a, previous, i, j);
        } else if j < i {
          ForgottenRows(a, previous, j, i);
        }
      }
      forall i | 0 <= i < |a| ensures MemberIdsDecide(a[i].members) {
        ForgottenMembers(a, previous, i);
      }
    }
    if IdsDecide(a) {
      forall b: seq<Breakpoint> | multiset(LoosenAll(b)) == multiset(LoosenAll(a))
        ensures Stabilize(b, previous) == Stabilize(a, previous)
      {
        DecidedForgets(a, b, previous);
      }
    }
  }

  lemma SortedUniqueRows(a: seq<Breakpoint>, s: seq<Breakpoint>)
    requires UniqueRows(a) && multiset(a) == multiset(s)
    ensures UniqueRows(s)
  {
    forall i | 0 <= i < |s| ensures Unique(MemberIds(s[i].members)) {
      assert s[i] in multiset(a);
    }
    MapPermutes(a, s, (bp: Breakpoint) => bp.id);
    UniquePermutes(BreakpointIds(a), BreakpointIds(s));
  }

  /** Two different breakpoints under one identity show the order they came in. */
  lemma SharedIdShows(previous: seq<Breakpoint>)
    ensures !Forgotten([Breakpoint("x", "first", []), Breakpoint("x", "second", [])], previous)
  {
    var a := [Breakpoint("x", "first", []), Breakpoint("x", "second", [])];
    StabilizeForgetsIff(a, previous);
    assert a[0].id == a[1].id && Loosen(a[0]) != Loosen(a[1]);
  }

  /** Receiving the same snapshot again, in whatever order, changes no row. */
  lemma StabilizeIdempotent(a: seq<Breakpoint>, b: seq<Breakpoint>, previous: seq<Breakpoint>)
    requires UniqueRows(a) && multiset(LoosenAll(a)) == multiset(LoosenAll(b))
    ensures Stabilize(b, Stabilize(a, previous)) == Stabilize(a, previous)
  {
    var r := Stabilize(a, previous);
    StabilizePermutes(a, previous);
    StabilizeUnique(a, previous);
    StabilizeForgetsOrder(r, b, r);
    StabilizeSelf(r);
  }

  lemma StabilizeUnique(a: seq<Breakpoint>, previous: seq<Breakpoint>)
    requires UniqueRows(a)
    ensures UniqueRows(Stabilize(a, previous))
  {
    var ids := BreakpointIds(previous);
    PrecedesOrders(ids);
    SortBySorts(a, ByRow(ids));
    var s := SortBy(a, ByRow(ids));
    SortedUniqueRows(a, s);
    var r := Stabilize(a, previous);
    assert BreakpointIds(r) == BreakpointIds(s);
    forall i | 0 <= i < |r| ensures Unique(MemberIds(r[i].members)) {
      ArrangeUnique(s[i], previous);
    }
  }

  lemma ArrangeUnique(bp: Breakpoint, previous: seq<Breakpoint>)
    requires Unique(MemberIds(bp.members))
    ensures Unique(MemberIds(Arrange(bp, previous).members))
  {
    ArrangeKeeps(bp, previous);
    MapPermutes(bp.members, Arrange(bp, previous).members, (m: Member) => m.id);
    UniquePermutes(MemberIds(bp.members), MemberIds(Arrange(bp, previous).members));
  }

  /** Rows measured against themselves are already in order. */
  lemma StabilizeSelf(r: seq<Breakpoint>)
    requires UniqueRows(r)
    ensures Stabilize(r, r) == r
  {
    var ids := BreakpointIds(r);
    RowsInOrder(r);
    SortedStays(r, ByRow(ids));
    forall i | 0 <= i < |r| ensures Arrange(r[i], r) == r[i] {
      RowArrangesSelf(r, i);
    }
    assert Stabilize(r, r) == r;
  }

  lemma RowArrangesSelf(r: seq<Breakpoint>, i: nat)
    requires UniqueRows(r) && i < |r|
    ensures Arrange(r[i], r) == r[i]
  {
    var ids := BreakpointIds(r);
    assert ids[i] == r[i].id;
    assert LastRow(ids, ids[i]) == Some(i);
    ArrangeSelf(r[i], r);
  }

  lemma RowsInOrder(r: seq<Breakpoint>)
    requires Unique(BreakpointIds(r))
    ensures Sorted(r, ByRow(BreakpointIds(r)))
  {
    var ids := BreakpointIds(r);
    forall i, j | 0 <= i < j < |r| ensures ByRow(ids)(r[i], r[j]) {
      assert LastRow(ids, ids[i]) == Some(i) && LastRow(ids, ids[j]) == Some(j);
    }
  }

  lemma ArrangeSelf(bp: Breakpoint, r: seq<Breakpoint>)
    requires Unique(MemberIds(bp.members)) && KnownMembers(r, bp.id) == bp.members
    ensures Arrange(bp, r) == bp
  {
    var ms := MemberIds(bp.members);
    forall p, q | 0 <= p < q < |bp.members| ensures MembersByRow(ms)(bp.members[p], bp.members[q]) {
      assert LastRow(ms, ms[p]) == Some(p) && LastRow(ms, ms[q]) == Some(q);
    }
    SortedStays(bp.members, MembersByRow(ms));
  }

  // The selection

  function FirstRow(ids: seq<string>, id: string): (row: Option<nat>)
    ensures row.Some? <==> id in ids
    ensures row.Some? ==> row.value < |ids| && ids[row.value] == id
  {
    if ids == [] then None
    else if ids[0] == id then Some(0)
    else match FirstRow(ids[1..], id) case Some(k) => Some(k + 1) case None => None
  }

  datatype Selection = Selection(row: nat, site: Option<nat>)

  function SelectedMember(bps: seq<Breakpoint>, s: Selection): (id: Option<string>)
  {
    if s.row < |bps| && s.site.Some? && s.site.value < |bps[s.row].members|
    then Some(bps[s.row].members[s.site.value].id) else None
  }

  /** Re-find the selected identities among the new rows; a member without an identity is dropped. */
  function Reselect(was: seq<Breakpoint>, s: Selection, rows: seq<Breakpoint>): (r: Selection)
  {
    var kept := Selection(Bounded(s.row, |rows|), None);
    if s.row >= |was| then kept
    else match FirstRow(BreakpointIds(rows), was[s.row].id)
         case None => kept
         case Some(row) =>
           var member := SelectedMember(was, s);
           if member.None? || member.value == "" then Selection(row, None)
           else Selection(row, FirstRow(MemberIds(rows[row].members), member.value))
  }

  /** Across any snapshot the selection names the same breakpoint and member, or lets go of them. */
  lemma SelectionFollowsIdentity(was: seq<Breakpoint>, s: Selection, incoming: seq<Breakpoint>)
    requires s.row < |was|
    ensures var rows := Stabilize(incoming, was);
            var r := Reselect(was, s, rows);
            && (rows != [] ==> r.row < |rows|)
            && (was[s.row].id in BreakpointIds(incoming) ==> r.row < |rows| && rows[r.row].id == was[s.row].id)
            && (r.site.Some? ==>
                  r.row < |rows| && SelectedMember(rows, r).Some? && SelectedMember(rows, r) == SelectedMember(was, s))
            && ((was[s.row].id in BreakpointIds(incoming) && SelectedMember(was, s).Some?
                 && SelectedMember(was, s).value != ""
                 && SelectedMember(was, s).value in MemberIds(rows[r.row].members))
                ==> r.site.Some?)
  {
    var rows := Stabilize(incoming, was);
    if was[s.row].id in BreakpointIds(incoming) {
      IdSurvives(incoming, was, was[s.row].id);
    }
    ReselectFollows(was, s, rows);
  }

  lemma ReselectFollows(was: seq<Breakpoint>, s: Selection, rows: seq<Breakpoint>)
    requires s.row < |was|
    ensures var r := Reselect(was, s, rows);
            && (rows != [] ==> r.row < |rows|)
            && (was[s.row].id in BreakpointIds(rows) ==> r.row < |rows| && rows[r.row].id == was[s.row].id)
            && (r.site.Some? ==>
                  r.row < |rows| && SelectedMember(rows, r).Some? && SelectedMember(rows, r) == SelectedMember(was, s))
            && ((was[s.row].id in BreakpointIds(rows) && SelectedMember(was, s).Some?
                 && SelectedMember(was, s).value != ""
                 && SelectedMember(was, s).value in MemberIds(rows[r.row].members))
                ==> r.site.Some?)
  {
  }

  lemma IdSurvives(incoming: seq<Breakpoint>, previous: seq<Breakpoint>, id: string)
    requires id in BreakpointIds(incoming)
    ensures id in BreakpointIds(Stabilize(incoming, previous))
  {
    StabilizePermutes(incoming, previous);
    var i :| 0 <= i < |incoming| && incoming[i].id == id;
    assert LoosenAll(incoming)[i] in multiset(LoosenAll(Stabilize(incoming, previous)));
    var r := Stabilize(incoming, previous);
    var j :| 0 <= j < |r| && LoosenAll(r)[j] == LoosenAll(incoming)[i];
    assert BreakpointIds(r)[j] == id;
  }
}
