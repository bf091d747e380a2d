/**
 What the debugger reads off the tables: who waits for which mutex and who owns it.
 */
module LockDeadlock {
  import opened Wrappers
  import opened SlotTable
  import opened LockTracking
  import opened LockIdentity

  /** One link of a cycle: thread `t` wants mutex `m`. */
  datatype Link = Link(t: Tid, m: Mutex)

  ghost predicate ShowsWait(s: State, t: Tid, m: Mutex)
  {
    t in s.waits && exists i :: IsLive(s.waits[t], i) && s.waits[t].slots[i] == Some(m)
  }

  ghost predicate ShowsOwner(s: State, m: Mutex, t: Tid)
  {
    exists i :: IsLive(s.owners, i) && s.owners.slots[i] == Some(Owner(m, t))
  }

  ghost function Succ(c: seq<Link>, i: nat): (t: Tid)
    requires i < |c|
  {
    if i + 1 < |c| then c[i + 1].t else c[0].t
  }

  ghost predicate IsCycle(c: seq<Link>)
  {
    |c| > 0 && forall i, j :: 0 <= i < j < |c| ==> c[i].t != c[j].t
  }

  /** Each thread of the cycle is shown waiting for a mutex shown as owned by the next one. */
  ghost predicate TableCycle(s: State, c: seq<Link>)
  {
    forall i :: 0 <= i < |c| ==> ShowsWait(s, c[i].t, c[i].m) && ShowsOwner(s, c[i].m, Succ(c, i))
  }

  /** Each thread of the cycle is blocked in the real lock of a mutex really held by the next one. */
  ghost predicate Deadlocked(s: State, c: seq<Link>)
  {
    forall i :: 0 <= i < |c| ==>
      && c[i].t in s.pc && s.pc[c[i].t].Waiting? && s.pc[c[i].t].m == c[i].m
      && c[i].m in s.held && s.held[c[i].m].tid == Succ(c, i)
  }

  /** The real lock has turned the thread away but its wait entry is still shown. */
  ghost predicate TurnedAway(s: State, t: Tid)
  {
    t in s.pc && s.pc[t].Returned? && !s.pc[t].ok
  }

  lemma ShowsWaitIff(s: State, t: Tid, m: Mutex)
    requires Invariant(s)
    ensures ShowsWait(s, t, m) <==>
              t in s.pc && (s.pc[t].Waiting? || s.pc[t].Returned?) && s.pc[t].m == m
  {
    if t in s.pc && (s.pc[t].Waiting? || s.pc[t].Returned?) {
      assert s.waits[t] == Table([Some(s.pc[t].m)], 1);
      assert IsLive(s.waits[t], 0);
    }
  }

  lemma ShowsOwnerIff(s: State, m: Mutex, t: Tid)
    requires NamesAgree(s, m)
    ensures ShowsOwner(s, m, t) <==> Expected(s, m, t) > 0
  {
    assert Named(s, m, t) == Expected(s, m, t);
    CountZeroIff(s.owners.slots, Exactly(m, t));
    if Named(s, m, t) > 0 {
      var i :| 0 <= i < |s.owners.slots| && s.owners.slots[i].Some? && Exactly(m, t)(s.owners.slots[i].value);
      assert IsLive(s.owners, i);
    }
    if i :| IsLive(s.owners, i) && s.owners.slots[i] == Some(Owner(m, t)) {
      assert Exactly(m, t)(s.owners.slots[i].value);
    }
  }

  /** A thread that is shown waiting can only be shown owning what it really holds. */
  lemma WaitingOwnerHolds(s: State, recursive: set<Mutex>, t: Tid, m: Mutex, w: Mutex)
    requires Invariant(s) && DepthsAgree(s, recursive) && NamesAgree(s, m)
    requires ShowsWait(s, t, w) && ShowsOwner(s, m, t)
    ensures m in s.held && s.held[m].tid == t
    ensures m !in recursive ==> !InFlight(s, t, m)
  {
    ShowsWaitIff(s, t, w);
    ShowsOwnerIff(s, m, t);
  }

  /** A thread never blocks on a recursive mutex it holds itself, so alone it makes no deadlock. */
  ghost predicate CanBlock(recursive: set<Mutex>, c: seq<Link>)
  {
    |c| == 1 ==> c[0].m !in recursive
  }

  ghost predicate NoneTurnedAway(s: State, c: seq<Link>)
  {
    forall i :: 0 <= i < |c| ==> !TurnedAway(s, c[i].t)
  }

  /**
   While the names are right, a cycle in the tables is a deadlock of the real mutexes unless the real
   lock has just turned one of its threads away, and every deadlock is a cycle in the tables.
   */
  lemma CycleIffDeadlock(s: State, recursive: set<Mutex>, c: seq<Link>)
    requires Invariant(s) && DepthsAgree(s, recursive) && IsCycle(c) && CanBlock(recursive, c)
    requires forall i :: 0 <= i < |c| ==> NamesAgree(s, c[i].m)
    ensures Deadlocked(s, c) <==> TableCycle(s, c) && NoneTurnedAway(s, c)
  {
    if Deadlocked(s, c) {
      forall i | 0 <= i < |c|
        ensures ShowsWait(s, c[i].t, c[i].m) && ShowsOwner(s, c[i].m, Succ(c, i))
      {
        DeadlockShows(s, c, i);
      }
    }
    if TableCycle(s, c) && NoneTurnedAway(s, c) {
      forall i | 0 <= i < |c|
        ensures c[i].t in s.pc && s.pc[c[i].t].Waiting? && s.pc[c[i].t].m == c[i].m
        ensures c[i].m in s.held && s.held[c[i].m].tid == Succ(c, i)
      {
        ShowsOwnerIff(s, c[i].m, Succ(c, i));
        var j := if i + 1 < |c| then i + 1 else 0;
        OwedBlocks(s, recursive, c[i].t, c[i].m, c[j].t, c[j].m);
      }
    }
  }

  /**
   Whatever the names, a cycle nobody was turned away from is a deadlock iff every owner it shows still
   has a registration of its own to answer for.
   */
  lemma ShownCycleIff(s: State, recursive: set<Mutex>, c: seq<Link>)
    requires Invariant(s) && DepthsAgree(s, recursive) && IsCycle(c) && CanBlock(recursive, c)
    requires TableCycle(s, c) && NoneTurnedAway(s, c)
    ensures Deadlocked(s, c) <==> forall i :: 0 <= i < |c| ==> Expected(s, c[i].m, Succ(c, i)) > 0
  {
    if forall i :: 0 <= i < |c| ==> Expected(s, c[i].m, Succ(c, i)) > 0 {
      forall i | 0 <= i < |c|
        ensures c[i].t in s.pc && s.pc[c[i].t].Waiting? && s.pc[c[i].t].m == c[i].m
        ensures c[i].m in s.held && s.held[c[i].m].tid == Succ(c, i)
      {
        var j := if i + 1 < |c| then i + 1 else 0;
        OwedBlocks(s, recursive, c[i].t, c[i].m, c[j].t, c[j].m);
      }
    }
    if Deadlocked(s, c) {
      forall i | 0 <= i < |c| ensures Expected(s, c[i].m, Succ(c, i)) > 0 {
      }
    }
  }

  /** A thread shown waiting for a mutex on which another waiting thread still has a registration is blocked by it. */
  lemma OwedBlocks(s: State, recursive: set<Mutex>, t: Tid, m: Mutex, u: Tid, w: Mutex)
    requires Invariant(s) && DepthsAgree(s, recursive) && (t == u ==> m !in recursive)
    requires ShowsWait(s, t, m) && ShowsWait(s, u, w) && !TurnedAway(s, t) && Expected(s, m, u) > 0
    ensures t in s.pc && s.pc[t].Waiting? && s.pc[t].m == m && m in s.held && s.held[m].tid == u
  {
    ShowsWaitIff(s, t, m);
    ShowsWaitIff(s, u, w);
    assert u !in Releasers(s, m);
    assert s.pc[t].Returned? ==> InFlight(s, t, m);
  }

  /** In any run whose steps so far were honest about the mutexes of a cycle, its tables can be trusted. */
  lemma CycleIffDeadlockInRun(
      main: Tid, recursive: set<Mutex>, states: seq<State>, steps: seq<Step>, k: nat, c: seq<Link>)
    requires LockIdentity.IsRun(main, recursive, states, steps) && k < |states| && IsCycle(c) && CanBlock(recursive, c)
    requires forall i, x :: 0 <= i < k && 0 <= x < |c| ==> Honest(states[i], steps[i], c[x].m)
    ensures Deadlocked(states[k], c) <==> TableCycle(states[k], c) && NoneTurnedAway(states[k], c)
  {
    InvariantAt(main, recursive, states, steps, k);
    forall x | 0 <= x < |c| ensures NamesAgree(states[k], c[x].m) {
      NamesAt(main, recursive, states, steps, c[x].m, k);
    }
    CycleIffDeadlock(states[k], recursive, c);
  }

  /** It is enough that no lock of them was refused and none registered before a release was recorded. */
  lemma CycleIffDeadlockNoHandoff(
      main: Tid, recursive: set<Mutex>, states: seq<State>, steps: seq<Step>, k: nat, c: seq<Link>)
    requires LockIdentity.IsRun(main, recursive, states, steps) && k < |states| && IsCycle(c) && CanBlock(recursive, c)
    requires forall x :: 0 <= x < |c| ==> NoHandoff(states, steps, c[x].m, k)
    ensures Deadlocked(states[k], c) <==> TableCycle(states[k], c) && NoneTurnedAway(states[k], c)
  {
    InvariantAt(main, recursive, states, steps, k);
    forall x | 0 <= x < |c| ensures NamesAgree(states[k], c[x].m) {
      NoHandoffKeepsNames(main, recursive, states, steps, c[x].m, k);
    }
    CycleIffDeadlock(states[k], recursive, c);
  }

  lemma DeadlockShows(s: State, c: seq<Link>, i: nat)
    requires Invariant(s) && IsCycle(c) && Deadlocked(s, c) && i < |c| && NamesAgree(s, c[i].m)
    ensures ShowsWait(s, c[i].t, c[i].m) && ShowsOwner(s, c[i].m, Succ(c, i))
  {
    ShowsWaitIff(s, c[i].t, c[i].m);
    ShowsOwnerIff(s, c[i].m, Succ(c, i));
  }

  /** A deadlock outlives every step except the real lock turning one of its own threads away. */
  lemma DeadlockPersists(s: State, recursive: set<Mutex>, step: Step, c: seq<Link>)
    requires Enabled(s, recursive, step) && IsCycle(c) && Deadlocked(s, c)
    requires CanBlock(recursive, c)
    requires forall i :: 0 <= i < |c| ==> step != Refuse(c[i].t)
    ensures Deadlocked(After(s, recursive, step), c)
  {
    forall i | 0 <= i < |c|
      ensures c[i].t != step.t && !(step.Release? && step.m == c[i].m)
      ensures !(step.Acquire? && s.pc[step.t].m == c[i].m)
    {
      var j := if i + 1 < |c| then i + 1 else 0;
      assert Succ(c, i) == c[j].t && s.pc[c[j].t].Waiting?;
    }
  }

  /** No step from `i` up to `j` turns a thread of the cycle away. */
  ghost predicate NoneRefused(steps: seq<Step>, i: nat, j: nat, c: seq<Link>)
    requires j <= |steps|
  {
    forall k, x :: i <= k < j && 0 <= x < |c| ==> steps[k] != Refuse(c[x].t)
  }

  /** Through any stretch of any run a deadlock stays iff the real lock turns none of its threads away. */
  lemma {:induction false} DeadlockStaysIff(
      main: Tid, recursive: set<Mutex>, states: seq<State>, steps: seq<Step>, i: nat, j: nat, c: seq<Link>)
    requires LockIdentity.IsRun(main, recursive, states, steps) && i <= j < |states| && IsCycle(c) && Deadlocked(states[i], c)
    requires CanBlock(recursive, c)
    ensures (forall k :: i <= k <= j ==> Deadlocked(states[k], c)) <==> NoneRefused(steps, i, j, c)
    decreases j - i
  {
    if i < j {
      DeadlockStaysIff(main, recursive, states, steps, i, j - 1, c);
      var s, step := states[j - 1], steps[j - 1];
      assert Enabled(s, recursive, step) && states[j] == After(s, recursive, step);
      if x :| 0 <= x < |c| && step == Refuse(c[x].t) {
        assert !Deadlocked(states[j], c);
      } else if Deadlocked(s, c) {
        DeadlockPersists(s, recursive, step, c);
      }
    }
  }
}
