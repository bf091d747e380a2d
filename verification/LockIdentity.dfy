/**
 Whose name an owner entry carries.

 The release scan removes the first entry for the mutex, whoever registered it, and runs after the
 real release. Counts survive that in every interleaving; names do not. This module says exactly
 which steps keep the names right.
 */
module LockIdentity {
  import opened SlotTable
  import opened LockTracking

  /** Entries that should carry the name of `t`: its registered holds and its release in flight. */
  ghost function Expected(s: State, m: Mutex, t: Tid): (n: int)
  {
    (if m in s.held && s.held[m].tid == t then RegisteredHold(s, m) else 0)
    + (if t in Releasers(s, m) then 1 else 0)
  }

  ghost function Named(s: State, m: Mutex, t: Tid): (n: nat)
  {
    Count(s.owners.slots, Exactly(m, t))
  }

  ghost predicate NamesAgree(s: State, m: Mutex)
  {
    forall t :: Named(s, m, t) == Expected(s, m, t)
  }

  /** The registration follows a granted lock; the release scan meets the releaser's own entry first. */
  ghost predicate Honest(s: State, step: Step, m: Mutex)
    requires step.Register? || step.Unregister? ==> step.t in s.pc
  {
    && (step.Register? && s.pc[step.t].Cleared? && s.pc[step.t].m == m ==> s.pc[step.t].ok)
    && (step.Unregister? && s.pc[step.t] == Releasing(m) && IsLive(s.owners, FirstOn(s.owners, m)) ==>
          s.owners.slots[FirstOn(s.owners, m)].value.tid == step.t)
  }

  lemma OtherStepKeepsNames(s: State, recursive: set<Mutex>, step: Step, m: Mutex)
    requires Invariant(s) && Enabled(s, recursive, step) && NamesAgree(s, m)
    requires step.Start? || step.Exit? || step.Announce? || step.Refuse? || step.ClearWait?
    ensures NamesAgree(After(s, recursive, step), m)
  {
    var r := After(s, recursive, step);
    assert forall u :: InFlight(r, u, m) <==> InFlight(s, u, m);
    SameNames(s, r, m);
  }

  lemma SameNames(s: State, r: State, m: Mutex)
    requires NamesAgree(s, m)
    requires r.owners == s.owners && r.held == s.held
    requires forall u :: u in Releasers(r, m) <==> u in Releasers(s, m)
    requires forall u :: InFlight(r, u, m) <==> InFlight(s, u, m)
    ensures NamesAgree(r, m)
  {
    forall t ensures Named(r, m, t) == Expected(r, m, t) {
      assert Named(s, m, t) == Expected(s, m, t);
    }
  }

  lemma AcquireKeepsNames(s: State, recursive: set<Mutex>, t: Tid, m: Mutex)
    requires Invariant(s) && Enabled(s, recursive, Acquire(t)) && NamesAgree(s, m)
    ensures NamesAgree(After(s, recursive, Acquire(t)), m)
  {
    var r := After(s, recursive, Acquire(t));
    forall u ensures Named(r, m, u) == Expected(r, m, u) {
      assert Named(s, m, u) == Expected(s, m, u);
      assert u != t ==> (InFlight(r, u, m) <==> InFlight(s, u, m));
      assert InFlight(r, t, m) <==> s.pc[t].m == m;
    }
  }

  lemma ReleaseKeepsNames(s: State, recursive: set<Mutex>, t: Tid, k: Mutex, m: Mutex)
    requires Invariant(s) && Enabled(s, recursive, Release(t, k)) && NamesAgree(s, m)
    ensures NamesAgree(After(s, recursive, Release(t, k)), m)
  {
    var r := After(s, recursive, Release(t, k));
    forall u ensures Named(r, m, u) == Expected(r, m, u) {
      assert Named(s, m, u) == Expected(s, m, u);
      assert InFlight(r, u, m) <==> InFlight(s, u, m);
      assert u in Releasers(r, m) <==> u in Releasers(s, m) || (u == t && m == k);
    }
  }

  lemma RegisterKeepsNamesIff(s: State, recursive: set<Mutex>, t: Tid, m: Mutex)
    requires Invariant(s) && Enabled(s, recursive, Register(t)) && NamesAgree(s, m)
    ensures NamesAgree(After(s, recursive, Register(t)), m) <==> Honest(s, Register(t), m)
  {
    var r := After(s, recursive, Register(t));
    forall u
      ensures Named(r, m, u) - Expected(r, m, u) == if u == t && m == s.pc[t].m && !s.pc[t].ok then 1 else 0
    {
      RegisterDrift(s, recursive, t, m, u);
    }
    assert NamesAgree(r, m) ==> Named(r, m, t) == Expected(r, m, t);
  }

  /** A registration puts a name too many exactly where the lock was refused. */
  lemma RegisterDrift(s: State, recursive: set<Mutex>, t: Tid, m: Mutex, u: Tid)
    requires Invariant(s) && Enabled(s, recursive, Register(t)) && NamesAgree(s, m)
    ensures var r := After(s, recursive, Register(t));
            Named(r, m, u) - Expected(r, m, u) == if u == t && m == s.pc[t].m && !s.pc[t].ok then 1 else 0
  {
    assert Named(s, m, u) == Expected(s, m, u);
    ClaimCounts(s.owners, Owner(s.pc[t].m, t), Exactly(m, u));
    RegisterExpects(s, recursive, t, m, u);
  }

  lemma RegisterExpects(s: State, recursive: set<Mutex>, t: Tid, m: Mutex, u: Tid)
    requires Invariant(s) && Enabled(s, recursive, Register(t))
    ensures Expected(After(s, recursive, Register(t)), m, u) ==
            Expected(s, m, u) + if u == t && m == s.pc[t].m && s.pc[t].ok then 1 else 0
  {
    assert s.pc[t].ok ==> InFlight(s, t, s.pc[t].m);
    RegisterSettles(s, recursive, t, m);
  }

  lemma UnregisterKeepsNamesIff(s: State, recursive: set<Mutex>, t: Tid, m: Mutex)
    requires Invariant(s) && Enabled(s, recursive, Unregister(t)) && NamesAgree(s, m)
    ensures NamesAgree(After(s, recursive, Unregister(t)), m) <==> Honest(s, Unregister(t), m)
  {
    var r := After(s, recursive, Unregister(t));
    var k := s.pc[t].m;
    UnregisterFinds(s, recursive, t);
    var i := FirstOn(s.owners, k);
    var victim := s.owners.slots[i].value;
    forall u
      ensures Named(r, m, u) - Expected(r, m, u) ==
              (if m == k && u == t then 1 else 0) - (if m == k && u == victim.tid then 1 else 0)
    {
      assert Named(s, m, u) == Expected(s, m, u);
      FreeCounts(s.owners, i, Exactly(m, u));
      assert InFlight(r, u, m) <==> InFlight(s, u, m);
      assert u in Releasers(r, m) <==> u in Releasers(s, m) && u != t;
    }
    assert NamesAgree(r, m) ==> Named(r, m, t) == Expected(r, m, t);
  }

  /** From a state whose names are right, a step keeps them right iff it is honest. */
  lemma StepKeepsNamesIff(s: State, recursive: set<Mutex>, step: Step, m: Mutex)
    requires Invariant(s) && Enabled(s, recursive, step) && NamesAgree(s, m)
    ensures NamesAgree(After(s, recursive, step), m) <==> Honest(s, step, m)
  {
    match step
    case Acquire(t) => AcquireKeepsNames(s, recursive, t, m);
    case Register(t) => RegisterKeepsNamesIff(s, recursive, t, m);
    case Release(t, k) => ReleaseKeepsNames(s, recursive, t, k, m);
    case Unregister(t) => UnregisterKeepsNamesIff(s, recursive, t, m);
    case _ => OtherStepKeepsNames(s, recursive, step, m);
  }

  // Whole runs

  ghost predicate IsRun(main: Tid, recursive: set<Mutex>, states: seq<State>, steps: seq<Step>)
  {
    && |states| == |steps| + 1
    && states[0] == Init(main)
    && forall i :: 0 <= i < |steps| ==>
         && Enabled(states[i], recursive, steps[i])
         && states[i + 1] == After(states[i], recursive, steps[i])
  }

  lemma {:induction false} InvariantAt(
      main: Tid, recursive: set<Mutex>, states: seq<State>, steps: seq<Step>, k: nat)
    requires IsRun(main, recursive, states, steps) && k < |states|
    ensures Invariant(states[k]) && DepthsAgree(states[k], recursive)
  {
    if k == 0 {
      InitInvariant(main);
    } else {
      InvariantAt(main, recursive, states, steps, k - 1);
      StepKeepsInvariant(states[k - 1], recursive, steps[k - 1]);
      StepKeepsDepths(states[k - 1], recursive, steps[k - 1]);
    }
  }

  /** In every state of every interleaving the counts agree, so no release scan comes up empty. */
  lemma RunKeepsInvariant(main: Tid, recursive: set<Mutex>, states: seq<State>, steps: seq<Step>)
    requires IsRun(main, recursive, states, steps)
    ensures forall i :: 0 <= i < |states| ==> Invariant(states[i]) && DepthsAgree(states[i], recursive)
    ensures forall i :: 0 <= i < |steps| && steps[i].Unregister? ==>
              IsLive(states[i].owners, FirstOn(states[i].owners, states[i].pc[steps[i].t].m))
  {
    forall i | 0 <= i < |states| ensures Invariant(states[i]) && DepthsAgree(states[i], recursive) {
      InvariantAt(main, recursive, states, steps, i);
    }
    forall i | 0 <= i < |steps| && steps[i].Unregister?
      ensures IsLive(states[i].owners, FirstOn(states[i].owners, states[i].pc[steps[i].t].m))
    {
      UnregisterFinds(states[i], recursive, steps[i].t);
    }
  }

  lemma {:induction false} NamesAt(
      main: Tid, recursive: set<Mutex>, states: seq<State>, steps: seq<Step>, m: Mutex, k: nat)
    requires IsRun(main, recursive, states, steps) && k < |states|
    requires forall i :: 0 <= i < k ==> Honest(states[i], steps[i], m)
    ensures NamesAgree(states[k], m)
  {
    if k > 0 {
      NamesAt(main, recursive, states, steps, m, k - 1);
      InvariantAt(main, recursive, states, steps, k - 1);
      StepKeepsNamesIff(states[k - 1], recursive, steps[k - 1], m);
    }
  }

  /** The names for `m` are right throughout a run iff every step of the run is honest about `m`. */
  lemma NamesThroughRunIff(main: Tid, recursive: set<Mutex>, states: seq<State>, steps: seq<Step>, m: Mutex)
    requires IsRun(main, recursive, states, steps)
    ensures (forall i :: 0 <= i < |states| ==> NamesAgree(states[i], m))
       <==> (forall i :: 0 <= i < |steps| ==> Honest(states[i], steps[i], m))
  {
    if forall i :: 0 <= i < |states| ==> NamesAgree(states[i], m) {
      forall i | 0 <= i < |steps| ensures Honest(states[i], steps[i], m) {
        InvariantAt(main, recursive, states, steps, i);
        assert NamesAgree(states[i], m) && NamesAgree(states[i + 1], m);
        StepKeepsNamesIff(states[i], recursive, steps[i], m);
      }
    }
    if forall i :: 0 <= i < |steps| ==> Honest(states[i], steps[i], m) {
      forall i | 0 <= i < |states| ensures NamesAgree(states[i], m) {
        NamesAt(main, recursive, states, steps, m, i);
      }
    }
  }

  /** Before state `k` no lock of `m` is refused, and none is registered while a release of `m` is still in flight. */
  ghost predicate NoHandoff(states: seq<State>, steps: seq<Step>, m: Mutex, k: nat)
    requires |states| == |steps| + 1 && k <= |steps|
  {
    forall i :: 0 <= i < k && steps[i].Register? && steps[i].t in states[i].pc
                && states[i].pc[steps[i].t].Cleared? && states[i].pc[steps[i].t].m == m ==>
      states[i].pc[steps[i].t].ok && Releasers(states[i], m) == {}
  }

  /** A release in flight is alone, and nobody else has registered the mutex since. */
  ghost predicate SoleReleaser(s: State, m: Mutex)
  {
    && (forall t, u :: t in Releasers(s, m) && u in Releasers(s, m) ==> t == u)
    && (forall t :: t in Releasers(s, m) && m in s.held && s.held[m].tid != t ==> RegisteredHold(s, m) == 0)
  }

  lemma SoleReleaserRelease(s: State, recursive: set<Mutex>, t: Tid, m: Mutex)
    requires Invariant(s) && Enabled(s, recursive, Release(t, m)) && SoleReleaser(s, m)
    ensures SoleReleaser(After(s, recursive, Release(t, m)), m)
  {
    var r := After(s, recursive, Release(t, m));
    assert RegisteredHold(s, m) == s.held[m].depth > 0;
    assert forall u :: u in Releasers(s, m) ==> u != t;
    assert forall u :: u !in Releasers(s, m);
    assert t in Releasers(r, m);
    assert forall u :: u in Releasers(r, m) ==> u in Releasers(s, m) || u == t;
  }

  lemma SoleReleaserAcquire(s: State, recursive: set<Mutex>, t: Tid, m: Mutex)
    requires Invariant(s) && Enabled(s, recursive, Acquire(t)) && SoleReleaser(s, m)
    ensures SoleReleaser(After(s, recursive, Acquire(t)), m)
  {
    var r := After(s, recursive, Acquire(t));
    assert forall u :: u in Releasers(r, m) <==> u in Releasers(s, m);
    assert !InFlight(s, t, m);
    assert forall u :: u != t ==> (InFlight(r, u, m) <==> InFlight(s, u, m));
    assert InFlight(r, t, m) <==> s.pc[t].m == m;
  }

  /** Steps that neither grant nor release `m` nor show its owner. */
  lemma SoleReleaserOther(s: State, r: State, m: Mutex)
    requires SoleReleaser(s, m)
    requires m in r.held <==> m in s.held
    requires m in s.held ==> r.held[m] == s.held[m]
    requires forall u :: u in Releasers(r, m) ==> u in Releasers(s, m)
    requires forall u :: InFlight(r, u, m) <==> InFlight(s, u, m)
    ensures SoleReleaser(r, m)
  {
    assert RegisteredHold(r, m) == RegisteredHold(s, m);
  }

  lemma SoleReleaserStep(s: State, recursive: set<Mutex>, step: Step, m: Mutex)
    requires Invariant(s) && Enabled(s, recursive, step) && SoleReleaser(s, m)
    requires step.Register? && s.pc[step.t].m == m ==> s.pc[step.t].ok && Releasers(s, m) == {}
    ensures SoleReleaser(After(s, recursive, step), m)
  {
    var r := After(s, recursive, step);
    if step.Acquire? {
      SoleReleaserAcquire(s, recursive, step.t, m);
    } else if step.Release? && step.m == m {
      SoleReleaserRelease(s, recursive, step.t, m);
    } else {
      OtherReleasers(s, recursive, step, m);
      if !(step.Register? && s.pc[step.t].m == m) {
        OtherInFlight(s, recursive, step, m);
        SoleReleaserOther(s, r, m);
      }
    }
  }

  lemma OtherInFlight(s: State, recursive: set<Mutex>, step: Step, m: Mutex)
    requires Enabled(s, recursive, step) && !step.Acquire?
    requires !(step.Register? && s.pc[step.t].m == m)
    ensures forall u :: InFlight(After(s, recursive, step), u, m) <==> InFlight(s, u, m)
  {
    var r := After(s, recursive, step);
    assert forall u :: u != step.t ==> (u in r.pc <==> u in s.pc);
    assert forall u :: u in r.pc && u != step.t ==> r.pc[u] == s.pc[u];
    assert InFlight(r, step.t, m) <==> InFlight(s, step.t, m);
  }

  lemma OtherReleasers(s: State, recursive: set<Mutex>, step: Step, m: Mutex)
    requires Enabled(s, recursive, step) && !(step.Release? && step.m == m)
    ensures forall u :: u in Releasers(After(s, recursive, step), m) ==> u in Releasers(s, m)
  {
    var r := After(s, recursive, step);
    assert forall u :: u in r.pc && u != step.t ==> u in s.pc && r.pc[u] == s.pc[u];
    assert step.t in r.pc ==> r.pc[step.t] != Releasing(m);
  }

  lemma SoleReleaserIsHonest(s: State, recursive: set<Mutex>, step: Step, m: Mutex)
    requires Invariant(s) && Enabled(s, recursive, step) && SoleReleaser(s, m) && NamesAgree(s, m)
    requires step.Register? && s.pc[step.t].m == m ==> s.pc[step.t].ok
    ensures Honest(s, step, m)
  {
    if step.Unregister? && s.pc[step.t] == Releasing(m) {
      UnregisterFinds(s, recursive, step.t);
      var i := FirstOn(s.owners, m);
      var u := s.owners.slots[i].value.tid;
      CountZeroIff(s.owners.slots, Exactly(m, u));
      assert Exactly(m, u)(s.owners.slots[i].value);
      assert Named(s, m, u) == Expected(s, m, u);
      assert step.t in Releasers(s, m);
    }
  }

  /** Without a handoff during a release, every entry names the thread it stands for. */
  lemma {:induction false} NoHandoffKeepsNames(
      main: Tid, recursive: set<Mutex>, states: seq<State>, steps: seq<Step>, m: Mutex, k: nat)
    requires IsRun(main, recursive, states, steps) && k < |states| && NoHandoff(states, steps, m, k)
    ensures NamesAgree(states[k], m) && SoleReleaser(states[k], m)
  {
    if k == 0 {
      NoReleasers(states[0], m);
    } else {
      var s, step := states[k - 1], steps[k - 1];
      NoHandoffKeepsNames(main, recursive, states, steps, m, k - 1);
      InvariantAt(main, recursive, states, steps, k - 1);
      SoleReleaserStep(s, recursive, step, m);
      SoleReleaserIsHonest(s, recursive, step, m);
      StepKeepsNamesIff(s, recursive, step, m);
    }
  }

  /**
   With nothing in flight and no refused lock, a mutex that is not recursive has one entry when it
   is held and none when it is free; if its names are right, that entry is the holder's.
   */
  lemma QuiescentEntries(s: State, recursive: set<Mutex>, m: Mutex)
    requires Invariant(s) && DepthsAgree(s, recursive) && m !in recursive
    requires Releasers(s, m) == {} && Refusals(s, m) == 0 && forall t :: !InFlight(s, t, m)
    ensures Count(s.owners.slots, OnLock(m)) == if m in s.held then 1 else 0
    ensures NamesAgree(s, m) ==>
              forall i :: IsLive(s.owners, i) && s.owners.slots[i].value.lid == m ==>
                m in s.held && s.owners.slots[i].value.tid == s.held[m].tid
  {
    assert CountsAgree(s, m);
    if NamesAgree(s, m) {
      forall i | IsLive(s.owners, i) && s.owners.slots[i].value.lid == m
        ensures m in s.held && s.owners.slots[i].value.tid == s.held[m].tid
      {
        var u := s.owners.slots[i].value.tid;
        CountZeroIff(s.owners.slots, Exactly(m, u));
        assert Exactly(m, u)(s.owners.slots[i].value);
        assert Named(s, m, u) == Expected(s, m, u);
      }
    }
  }
}
