/**
 Runs that leave the wrong name in the owner table, or a cycle in the tables that is no deadlock.
 */
module LockHandoff {
  import opened Wrappers
  import opened SlotTable
  import opened LockTracking
  import opened LockIdentity
  import opened LockDeadlock
  import Sequences
  import Paths

  ghost function Next(s: State, step: Step): (r: Option<State>)
  {
    if Enabled(s, {}, step) then Some(After(s, {}, step)) else None
  }

  /** `to` is reached from `from` by `steps`. */
  ghost predicate Reaches(from: State, steps: seq<Step>, to: State)
  {
    Paths.Leads(Next, from, steps, to)
  }

  lemma ReachesTwice(a: State, p: seq<Step>, b: State, q: seq<Step>, c: State)
    requires Reaches(a, p, b) && Reaches(b, q, c)
    ensures Reaches(a, p + q, c)
  {
    Paths.LeadsTwice(Next, a, p, b, q, c);
  }

  lemma ReachesBy(a: State, step: Step, rest: seq<Step>, b: State)
    requires Enabled(a, {}, step) && Reaches(After(a, {}, step), rest, b)
    ensures Reaches(a, [step] + rest, b)
  {
    assert ([step] + rest)[1..] == rest;
  }

  ghost function Locked(t: Tid, m: Mutex): (steps: seq<Step>)
  {
    [Announce(t, m), Acquire(t), ClearWait(t), Register(t)]
  }

  /** Taking a free mutex without interference. */
  lemma LockReaches(s: State, t: Tid, m: Mutex)
    requires t in s.pc && s.pc[t].Idle? && t in s.waits && s.waits[t] == Table([], 0) && m !in s.held
    ensures Reaches(s, Locked(t, m),
              s.(owners := Claim(s.owners, Owner(m, t)), held := s.held[m := Hold(t, 1)]))
  {
    var s1 := After(s, {}, Announce(t, m));
    assert ClaimIndex(s.waits[t]) == 0;
    assert s1.waits[t] == Table([Some(m)], 1);
    var s2 := After(s1, {}, Acquire(t));
    var s3 := After(s2, {}, ClearWait(t));
    assert s3.waits[t] == Table([], 0);
    var s4 := After(s3, {}, Register(t));
    assert s4.waits == s.waits;
    assert s4.pc == s.pc;
    assert Reaches(s4, [], s4);
    ReachesBy(s3, Register(t), [], s4);
    ReachesBy(s2, ClearWait(t), [Register(t)] + [], s4);
    ReachesBy(s1, Acquire(t), [ClearWait(t)] + ([Register(t)] + []), s4);
    ReachesBy(s, Announce(t, m), [Acquire(t)] + ([ClearWait(t)] + ([Register(t)] + [])), s4);
    assert Locked(t, m) == [Announce(t, m)] + ([Acquire(t)] + ([ClearWait(t)] + ([Register(t)] + [])));
  }

  const MAIN: Tid := 1
  const PEER: Tid := 2
  const FIRST: Mutex := 5
  const SHARED: Mutex := 7

  /** Both threads are idle with nothing announced. */
  ghost predicate Rested(s: State)
  {
    && s.pc == map[MAIN := Idle, PEER := Idle]
    && s.waits == map[MAIN := Table([], 0), PEER := Table([], 0)]
  }

  ghost function Opening(): (steps: seq<Step>)
  {
    [Start(PEER)] + (Locked(MAIN, FIRST) + Locked(MAIN, SHARED))
  }

  lemma OpeningReaches() returns (s: State)
    ensures Reaches(Init(MAIN), Opening(), s) && Rested(s)
    ensures s.held == map[FIRST := Hold(MAIN, 1), SHARED := Hold(MAIN, 1)]
    ensures s.owners == Table([Some(Owner(FIRST, MAIN)), Some(Owner(SHARED, MAIN))], 2) && s.refused == map[]
  {
    var s0 := Init(MAIN);
    var s1 := After(s0, {}, Start(PEER));
    LockReaches(s1, MAIN, FIRST);
    var s2 := s1.(owners := Claim(s1.owners, Owner(FIRST, MAIN)), held := s1.held[FIRST := Hold(MAIN, 1)]);
    assert s2.owners == Table([Some(Owner(FIRST, MAIN))], 1);
    LockReaches(s2, MAIN, SHARED);
    s := s2.(owners := Claim(s2.owners, Owner(SHARED, MAIN)), held := s2.held[SHARED := Hold(MAIN, 1)]);
    ReachesTwice(s1, Locked(MAIN, FIRST), s2, Locked(MAIN, SHARED), s);
    ReachesTwice(s0, [Start(PEER)], s1, Locked(MAIN, FIRST) + Locked(MAIN, SHARED), s);
  }

  ghost function GiveBack(): (steps: seq<Step>)
  {
    [Release(MAIN, FIRST)] + [Unregister(MAIN)]
  }

  lemma GiveBackReaches(s: State) returns (r: State)
    requires Rested(s) && s.held == map[FIRST := Hold(MAIN, 1), SHARED := Hold(MAIN, 1)]
    requires s.owners == Table([Some(Owner(FIRST, MAIN)), Some(Owner(SHARED, MAIN))], 2)
    ensures Reaches(s, GiveBack(), r) && Rested(r)
    ensures r.held == map[SHARED := Hold(MAIN, 1)]
    ensures r.owners == Table([None, Some(Owner(SHARED, MAIN))], 1)
  {
    var s1 := After(s, {}, Release(MAIN, FIRST));
    assert s1.pc[MAIN] == Releasing(FIRST);
    CountZeroIff(s1.owners.slots, OnLock(FIRST));
    assert OnLock(FIRST)(s1.owners.slots[0].value);
    assert FirstOn(s1.owners, FIRST) == 0;
    r := After(s1, {}, Unregister(MAIN));
    ReachesTwice(s, [Release(MAIN, FIRST)], s1, [Unregister(MAIN)], r);
  }

  ghost function Handoff(): (steps: seq<Step>)
  {
    [Release(MAIN, SHARED)] + (Locked(PEER, SHARED) + [Unregister(MAIN)])
  }

  lemma HandoffReaches(s: State) returns (r: State)
    requires Rested(s) && s.held == map[SHARED := Hold(MAIN, 1)]
    requires s.owners == Table([None, Some(Owner(SHARED, MAIN))], 1)
    ensures Reaches(s, Handoff(), r) && Rested(r)
    ensures r.held == map[SHARED := Hold(PEER, 1)]
    ensures r.owners == Table([None, Some(Owner(SHARED, MAIN))], 1)
  {
    var s1 := After(s, {}, Release(MAIN, SHARED));
    LockReaches(s1, PEER, SHARED);
    var s2 := s1.(owners := Claim(s1.owners, Owner(SHARED, PEER)), held := s1.held[SHARED := Hold(PEER, 1)]);
    assert FirstFree(s1.owners.slots) == 0;
    r := LateRemoval(s2);
    ReachesTwice(s1, Locked(PEER, SHARED), s2, [Unregister(MAIN)], r);
    ReachesBy(s, Release(MAIN, SHARED), Locked(PEER, SHARED) + [Unregister(MAIN)], r);
  }

  /** The late scan meets the peer's entry first. */
  lemma LateRemoval(s: State) returns (r: State)
    requires s.pc == map[MAIN := Releasing(SHARED), PEER := Idle]
    requires s.waits == map[MAIN := Table([], 0), PEER := Table([], 0)]
    requires s.owners == Table([Some(Owner(SHARED, PEER)), Some(Owner(SHARED, MAIN))], 2)
    ensures Reaches(s, [Unregister(MAIN)], r) && Rested(r) && r.held == s.held
    ensures r.owners == Table([None, Some(Owner(SHARED, MAIN))], 1)
  {
    CountZeroIff(s.owners.slots, OnLock(SHARED));
    assert OnLock(SHARED)(s.owners.slots[0].value);
    assert FirstOn(s.owners, SHARED) == 0;
    r := After(s, {}, Unregister(MAIN));
  }

  /**
   The main thread takes FIRST and SHARED and gives FIRST back, so its entry for SHARED sits above a
   free slot. It releases SHARED, the peer takes it and registers in the free slot, and the late
   release scan removes the peer's entry: the table then names the main thread while the peer holds.
   */
  lemma HandoffMisnames() returns (end: State)
    ensures Reaches(Init(MAIN), Opening() + (GiveBack() + Handoff()), end)
    ensures Rested(end) && end.held == map[SHARED := Hold(PEER, 1)]
    ensures end.owners == Table([None, Some(Owner(SHARED, MAIN))], 1)
    ensures !NamesAgree(end, SHARED)
  {
    var s := OpeningReaches();
    var r := GiveBackReaches(s);
    end := HandoffReaches(r);
    ReachesTwice(s, GiveBack(), r, Handoff(), end);
    ReachesTwice(Init(MAIN), Opening(), s, GiveBack() + Handoff(), end);
    PeerUnnamed(end);
  }

  lemma PeerUnnamed(s: State)
    requires s.owners == Table([None, Some(Owner(SHARED, MAIN))], 1)
    requires s.held == map[SHARED := Hold(PEER, 1)] && Rested(s)
    ensures !NamesAgree(s, SHARED)
  {
    CountZeroIff(s.owners.slots, Exactly(SHARED, PEER));
    assert Named(s, SHARED, PEER) == 0;
    assert Expected(s, SHARED, PEER) > 0;
  }

  // Cycles in the tables that are no deadlock

  const THIRD: Tid := 3
  const OTHER: Mutex := 9

  ghost function Crossing(): (steps: seq<Step>)
  {
    [Start(THIRD)] + (Locked(THIRD, OTHER) + ([Announce(THIRD, SHARED)] + [Announce(MAIN, OTHER)]))
  }

  ghost function Phantom(): (c: seq<Link>)
  {
    [Link(MAIN, OTHER), Link(THIRD, SHARED)]
  }

  lemma CrossingLocks(s: State) returns (r: State)
    requires Rested(s) && s.held == map[SHARED := Hold(PEER, 1)]
    requires s.owners == Table([None, Some(Owner(SHARED, MAIN))], 1)
    ensures Reaches(s, [Start(THIRD)] + Locked(THIRD, OTHER), r)
    ensures r.pc == map[MAIN := Idle, PEER := Idle, THIRD := Idle] && r.held[SHARED := Hold(PEER, 1)] == r.held
    ensures r.waits == map[MAIN := Table([], 0), PEER := Table([], 0), THIRD := Table([], 0)]
    ensures r.owners == Table([Some(Owner(OTHER, THIRD)), Some(Owner(SHARED, MAIN))], 2)
  {
    var s1 := After(s, {}, Start(THIRD));
    LockReaches(s1, THIRD, OTHER);
    r := s1.(owners := Claim(s1.owners, Owner(OTHER, THIRD)), held := s1.held[OTHER := Hold(THIRD, 1)]);
    assert FirstFree(s1.owners.slots) == 0;
    ReachesTwice(s, [Start(THIRD)], s1, Locked(THIRD, OTHER), r);
  }

  lemma CrossingWaits(s: State) returns (r: State)
    requires s.pc == map[MAIN := Idle, PEER := Idle, THIRD := Idle]
    requires s.waits == map[MAIN := Table([], 0), PEER := Table([], 0), THIRD := Table([], 0)]
    ensures Reaches(s, [Announce(THIRD, SHARED)] + [Announce(MAIN, OTHER)], r)
    ensures r.pc == map[MAIN := Waiting(OTHER, 0), PEER := Idle, THIRD := Waiting(SHARED, 0)]
    ensures r.waits[MAIN := Table([Some(OTHER)], 1)][THIRD := Table([Some(SHARED)], 1)] == r.waits
    ensures r.owners == s.owners && r.held == s.held
  {
    var s1 := After(s, {}, Announce(THIRD, SHARED));
    assert s1.waits[THIRD] == Table([Some(SHARED)], 1);
    r := After(s1, {}, Announce(MAIN, OTHER));
    assert r.waits[MAIN] == Table([Some(OTHER)], 1);
    ReachesTwice(s, [Announce(THIRD, SHARED)], s1, [Announce(MAIN, OTHER)], r);
  }

  lemma PhantomShown(s: State)
    requires s.pc == map[MAIN := Waiting(OTHER, 0), PEER := Idle, THIRD := Waiting(SHARED, 0)]
    requires s.waits[MAIN := Table([Some(OTHER)], 1)][THIRD := Table([Some(SHARED)], 1)] == s.waits
    requires s.owners == Table([Some(Owner(OTHER, THIRD)), Some(Owner(SHARED, MAIN))], 2)
    requires s.held[SHARED := Hold(PEER, 1)] == s.held
    ensures TableCycle(s, Phantom()) && NoneTurnedAway(s, Phantom()) && !Deadlocked(s, Phantom())
  {
    var c := Phantom();
    assert s.waits[MAIN] == Table([Some(OTHER)], 1) && IsLive(s.waits[MAIN], 0);
    assert s.waits[THIRD] == Table([Some(SHARED)], 1) && IsLive(s.waits[THIRD], 0);
    assert IsLive(s.owners, 0) && IsLive(s.owners, 1);
    assert s.held[SHARED].tid == PEER && Succ(c, 1) == MAIN;
    assert c[1] == Link(THIRD, SHARED);
  }

  /**
   After the handoff a third thread takes OTHER and waits for SHARED while the main thread waits for
   OTHER. The tables show a cycle, nobody was turned away, and nothing is stuck: the peer holds SHARED
   and is free to release it.
   */
  lemma PhantomCycle() returns (end: State)
    ensures Reaches(Init(MAIN), Opening() + (GiveBack() + Handoff()) + Crossing(), end)
    ensures IsCycle(Phantom()) && TableCycle(end, Phantom()) && NoneTurnedAway(end, Phantom())
    ensures !Deadlocked(end, Phantom())
  {
    var s := HandoffMisnames();
    var r := CrossingLocks(s);
    end := CrossingWaits(r);
    PhantomShown(end);
    var waits := [Announce(THIRD, SHARED)] + [Announce(MAIN, OTHER)];
    ReachesTwice(s, [Start(THIRD)] + Locked(THIRD, OTHER), r, waits, end);
    Sequences.Associates([Start(THIRD)], Locked(THIRD, OTHER), waits);
    ReachesTwice(Init(MAIN), Opening() + (GiveBack() + Handoff()), s, Crossing(), end);
  }

  /** A thread turned away from a mutex it holds is shown waiting for itself until its entry is cleared. */
  lemma TurnedAwayCycle() returns (end: State)
    ensures Reaches(Init(MAIN), Locked(MAIN, SHARED) + ([Announce(MAIN, SHARED)] + [Refuse(MAIN)]), end)
    ensures var c := [Link(MAIN, SHARED)];
            IsCycle(c) && TableCycle(end, c) && TurnedAway(end, MAIN) && !Deadlocked(end, c)
  {
    var s := Init(MAIN);
    LockReaches(s, MAIN, SHARED);
    var s1 := s.(owners := Claim(s.owners, Owner(SHARED, MAIN)), held := s.held[SHARED := Hold(MAIN, 1)]);
    assert s1.owners == Table([Some(Owner(SHARED, MAIN))], 1);
    var s2 := After(s1, {}, Announce(MAIN, SHARED));
    assert s2.waits[MAIN] == Table([Some(SHARED)], 1);
    end := After(s2, {}, Refuse(MAIN));
    ReachesTwice(s1, [Announce(MAIN, SHARED)], s2, [Refuse(MAIN)], end);
    ReachesTwice(s, Locked(MAIN, SHARED), s1, [Announce(MAIN, SHARED)] + [Refuse(MAIN)], end);
    assert IsLive(end.waits[MAIN], 0) && IsLive(end.owners, 0);
    assert [Link(MAIN, SHARED)][0] == Link(MAIN, SHARED);
  }
}
