/**
 Real unlocks that fail. The shim ignores the return value of the real unlock, so a thread that does
 not hold the mutex still removes the first entry for it.
 */
module LockFailures {
  import opened Wrappers
  import opened SlotTable
  import opened LockTracking
  import LockHandoff

  /** A step of the shim, or an unlock of `m` by a thread that does not hold it. */
  datatype Move = Do(step: Step) | FailUnlock(t: Tid, m: Mutex)

  /** Nothing real changes; the scan removes an entry, which answers for a refused registration if there is one. */
  ghost function FailedUnlock(s: State, m: Mutex): (r: State)
  {
    s.(owners := Unregistered(s.owners, m),
       refused := if Refusals(s, m) > 0 then s.refused[m := Refusals(s, m) - 1] else s.refused)
  }

  ghost predicate Possible(s: State, recursive: set<Mutex>, move: Move)
  {
    match move
    case Do(step) => Enabled(s, recursive, step)
    case FailUnlock(t, m) => t in s.pc && s.pc[t].Idle? && !(m in s.held && s.held[m].tid == t)
  }

  ghost function Next(s: State, recursive: set<Mutex>, move: Move): (r: State)
    requires Possible(s, recursive, move)
  {
    match move
    case Do(step) => After(s, recursive, step)
    case FailUnlock(_, m) => FailedUnlock(s, m)
  }

  ghost predicate IsRun(main: Tid, recursive: set<Mutex>, states: seq<State>, moves: seq<Move>)
  {
    && |states| == |moves| + 1
    && states[0] == Init(main)
    && forall i :: 0 <= i < |moves| ==>
         Possible(states[i], recursive, moves[i]) && states[i + 1] == Next(states[i], recursive, moves[i])
  }

  /** The scan takes back a refused registration, or finds nothing. */
  ghost predicate Covered(s: State, m: Mutex)
  {
    Refusals(s, m) > 0 || Count(s.owners.slots, OnLock(m)) == 0
  }

  lemma FailedCounts(s: State, m: Mutex, k: Mutex)
    requires Invariant(s)
    ensures Valid(FailedUnlock(s, m).owners)
    ensures Count(FailedUnlock(s, m).owners.slots, OnLock(k)) == Count(s.owners.slots, OnLock(k))
            - if k == m && Count(s.owners.slots, OnLock(m)) > 0 then 1 else 0
  {
    var i := FirstOn(s.owners, m);
    if IsLive(s.owners, i) {
      FreeKeeps(s.owners, i);
      FreeCounts(s.owners, i, OnLock(k));
    }
  }

  lemma FailedAgreesIff(s: State, m: Mutex, k: Mutex)
    requires Invariant(s)
    ensures CountsAgree(FailedUnlock(s, m), k) <==> k != m || Covered(s, m)
  {
    var r := FailedUnlock(s, m);
    assert CountsAgree(s, k);
    FailedCounts(s, m, k);
    assert Releasers(r, k) == Releasers(s, k) && RegisteredHold(r, k) == RegisteredHold(s, k) by {
      assert forall u :: InFlight(r, u, k) <==> InFlight(s, u, k);
    }
    LiveAtLeastRefused(s, m);
  }

  lemma LiveAtLeastRefused(s: State, m: Mutex)
    requires Invariant(s)
    ensures Count(s.owners.slots, OnLock(m)) >= Refusals(s, m)
  {
    assert CountsAgree(s, m);
    assert m in s.held ==> s.held[m].depth > 0;
  }

  /** A failed unlock keeps the counts iff a refused registration covers it, or no entry is there to lose. */
  lemma FailedUnlockKeepsIff(s: State, m: Mutex)
    requires Invariant(s)
    ensures Invariant(FailedUnlock(s, m)) <==> Covered(s, m)
  {
    var r := FailedUnlock(s, m);
    FailedCounts(s, m, m);
    assert forall u, k :: InFlight(r, u, k) <==> InFlight(s, u, k);
    assert TablesAgree(r) && WaitsAgree(r) && HoldsAgree(r);
    forall k ensures CountsAgree(r, k) <==> k != m || Covered(s, m) {
      FailedAgreesIff(s, m, k);
    }
    assert CountsAgree(r, m) <==> Covered(s, m);
  }

  ghost predicate AllCovered(states: seq<State>, moves: seq<Move>, n: nat)
    requires n <= |moves| <= |states|
  {
    forall i :: 0 <= i < n && moves[i].FailUnlock? ==> Covered(states[i], moves[i].m)
  }

  lemma {:induction false} CoveredRunKeeps(
      main: Tid, recursive: set<Mutex>, states: seq<State>, moves: seq<Move>, k: nat)
    requires IsRun(main, recursive, states, moves) && k < |states| && AllCovered(states, moves, k)
    ensures Invariant(states[k])
  {
    if k == 0 {
      InitInvariant(main);
    } else {
      CoveredRunKeeps(main, recursive, states, moves, k - 1);
      var s, move := states[k - 1], moves[k - 1];
      assert Possible(s, recursive, move) && states[k] == Next(s, recursive, move);
      match move
      case Do(step) => StepKeepsInvariant(s, recursive, step);
      case FailUnlock(_, m) => FailedUnlockKeepsIff(s, m);
    }
  }

  /** The invariant holds throughout a run iff every failed unlock in it is covered. */
  lemma RunKeepsIff(main: Tid, recursive: set<Mutex>, states: seq<State>, moves: seq<Move>)
    requires IsRun(main, recursive, states, moves)
    ensures (forall i :: 0 <= i < |states| ==> Invariant(states[i])) <==> AllCovered(states, moves, |moves|)
  {
    if forall i :: 0 <= i < |states| ==> Invariant(states[i]) {
      forall i | 0 <= i < |moves| && moves[i].FailUnlock? ensures Covered(states[i], moves[i].m) {
        assert Invariant(states[i]) && Invariant(states[i + 1]);
        assert states[i + 1] == FailedUnlock(states[i], moves[i].m);
        FailedUnlockKeepsIff(states[i], moves[i].m);
      }
    }
    if AllCovered(states, moves, |moves|) {
      forall i | 0 <= i < |states| ensures Invariant(states[i]) {
        CoveredRunKeeps(main, recursive, states, moves, i);
      }
    }
  }

  /** In such a run every removal after a real release still finds an entry. */
  lemma CoveredRemovalsFind(main: Tid, recursive: set<Mutex>, states: seq<State>, moves: seq<Move>, i: nat)
    requires IsRun(main, recursive, states, moves) && i < |moves| && AllCovered(states, moves, i)
    requires moves[i].Do? && moves[i].step.Unregister?
    ensures IsLive(states[i].owners, FirstOn(states[i].owners, states[i].pc[moves[i].step.t].m))
  {
    CoveredRunKeeps(main, recursive, states, moves, i);
    assert Possible(states[i], recursive, moves[i]);
    UnregisterFinds(states[i], recursive, moves[i].step.t);
  }

  // Pairs of a refused lock and a failed unlock

  ghost predicate RegistersRefused(s: State, move: Move, m: Mutex)
  {
    && move.Do? && move.step.Register? && move.step.t in s.pc
    && s.pc[move.step.t].Cleared? && s.pc[move.step.t].m == m && !s.pc[move.step.t].ok
  }

  ghost predicate FailsOn(move: Move, m: Mutex)
  {
    move.FailUnlock? && move.m == m
  }

  /** Refused registrations of `m` before state `n`, less failed unlocks of it. */
  ghost function Surplus(states: seq<State>, moves: seq<Move>, m: Mutex, n: nat): (c: int)
    requires n <= |moves| <= |states|
  {
    if n == 0 then 0
    else Surplus(states, moves, m, n - 1)
         + (if RegistersRefused(states[n - 1], moves[n - 1], m) then 1 else 0)
         - (if FailsOn(moves[n - 1], m) then 1 else 0)
  }

  /** At no time had more unlocks failed than locks been refused. */
  ghost predicate Paired(states: seq<State>, moves: seq<Move>, m: Mutex, n: nat)
    requires n <= |moves| <= |states|
  {
    forall i :: 0 <= i <= n ==> Surplus(states, moves, m, i) >= 0
  }

  lemma MoveRefusals(s: State, recursive: set<Mutex>, move: Move, m: Mutex)
    requires Possible(s, recursive, move)
    ensures Refusals(Next(s, recursive, move), m) == Refusals(s, m)
            + (if RegistersRefused(s, move, m) then 1 else 0)
            - (if FailsOn(move, m) && Refusals(s, m) > 0 then 1 else 0)
  {
  }

  lemma {:induction false} SurplusIsRefusals(
      main: Tid, recursive: set<Mutex>, states: seq<State>, moves: seq<Move>, m: Mutex, n: nat)
    requires IsRun(main, recursive, states, moves) && n <= |moves| && Paired(states, moves, m, n)
    ensures Refusals(states[n], m) == Surplus(states, moves, m, n)
  {
    if n > 0 {
      SurplusIsRefusals(main, recursive, states, moves, m, n - 1);
      assert Possible(states[n - 1], recursive, moves[n - 1]) && states[n] == Next(states[n - 1], recursive, moves[n - 1]);
      MoveRefusals(states[n - 1], recursive, moves[n - 1], m);
      assert Surplus(states, moves, m, n) >= 0;
    }
  }

  /** Threads that unlock only after a lock of theirs was refused leave every count right. */
  lemma PairedRunKeeps(main: Tid, recursive: set<Mutex>, states: seq<State>, moves: seq<Move>)
    requires IsRun(main, recursive, states, moves)
    requires forall m :: Paired(states, moves, m, |moves|)
    ensures forall i :: 0 <= i < |states| ==> Invariant(states[i])
  {
    forall i | 0 <= i < |moves| && moves[i].FailUnlock? ensures Covered(states[i], moves[i].m) {
      var m := moves[i].m;
      assert Paired(states, moves, m, |moves|);
      SurplusIsRefusals(main, recursive, states, moves, m, i);
      assert Surplus(states, moves, m, i + 1) >= 0;
    }
    RunKeepsIff(main, recursive, states, moves);
  }

  // An unlock that was never due

  /** Another thread unlocks what `h` holds: the entry of `h` goes, and the removal of `h` itself will find none. */
  lemma EntryStolen(s: State, recursive: set<Mutex>, m: Mutex, h: Tid)
    requires Invariant(s) && m in s.held && s.held[m] == Hold(h, 1) && h in s.pc && s.pc[h].Idle?
    requires Releasers(s, m) == {} && Refusals(s, m) == 0
    ensures Enabled(FailedUnlock(s, m), recursive, Release(h, m))
    ensures var r := After(FailedUnlock(s, m), recursive, Release(h, m));
            Enabled(r, recursive, Unregister(h)) && Count(r.owners.slots, OnLock(m)) == 0
  {
    assert CountsAgree(s, m);
    assert !InFlight(s, h, m);
    FailedCounts(s, m, m);
  }

  lemma {:induction false} ReachesKeeps(a: State, steps: seq<Step>, b: State)
    requires LockHandoff.Reaches(a, steps, b) && Invariant(a)
    ensures Invariant(b)
    decreases |steps|
  {
    if steps != [] {
      StepKeepsInvariant(a, {}, steps[0]);
      ReachesKeeps(After(a, {}, steps[0]), steps[1..], b);
    }
  }

  /** Such a state is reached by two locks of the main thread, after which the peer unlocks one of them. */
  lemma EntryStolenReached() returns (s: State)
    ensures LockHandoff.Reaches(Init(LockHandoff.MAIN), LockHandoff.Opening(), s)
    ensures Possible(s, {}, FailUnlock(LockHandoff.PEER, LockHandoff.SHARED)) && !Covered(s, LockHandoff.SHARED)
    ensures Invariant(s) && !Invariant(FailedUnlock(s, LockHandoff.SHARED))
  {
    s := LockHandoff.OpeningReaches();
    InitInvariant(LockHandoff.MAIN);
    ReachesKeeps(Init(LockHandoff.MAIN), LockHandoff.Opening(), s);
    OwnedUncovered(s, LockHandoff.SHARED, 1);
    FailedUnlockKeepsIff(s, LockHandoff.SHARED);
  }

  lemma OwnedUncovered(s: State, m: Mutex, i: nat)
    requires Refusals(s, m) == 0 && i < |s.owners.slots| && s.owners.slots[i].Some? && s.owners.slots[i].value.lid == m
    ensures !Covered(s, m)
  {
    CountZeroIff(s.owners.slots, OnLock(m));
    assert OnLock(m)(s.owners.slots[i].value);
  }
}
