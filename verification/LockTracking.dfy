/**
 The lock-tracking shim as a transition system.

 An interposed `pthread_mutex_lock` announces a wait, calls the real lock, clears the wait and
 registers an owner; an interposed `pthread_mutex_unlock` calls the real unlock and only then
 removes the first owner entry for the mutex. Every critical section is one step of the thread that
 takes it and steps of different threads interleave freely. The real mutex is assumed to exclude;
 its return value is ignored by the shim, so a refused lock registers an owner like any other.
 */
module LockTracking {
  import opened Wrappers
  import opened SlotTable

  type Tid = int
  type Mutex = int

  datatype Owner = Owner(lid: Mutex, tid: Tid)

  datatype Hold = Hold(tid: Tid, depth: nat)

  /** Where a thread is inside the shim. `ok` is whether the real lock was granted. */
  datatype Pc =
    | Idle
    | Waiting(m: Mutex, slot: nat)
    | Returned(m: Mutex, slot: nat, ok: bool)
    | Cleared(m: Mutex, ok: bool)
    | Releasing(m: Mutex)

  datatype State = State(
    infos: Table<Tid>,
    slot: map<Tid, nat>,
    waits: map<Tid, Table<Mutex>>,
    owners: Table<Owner>,
    pc: map<Tid, Pc>,
    held: map<Mutex, Hold>,
    refused: map<Mutex, nat>)

  datatype Step =
    | Start(t: Tid)
    | Exit(t: Tid)
    | Announce(t: Tid, m: Mutex)
    | Acquire(t: Tid)
    | Refuse(t: Tid)
    | ClearWait(t: Tid)
    | Register(t: Tid)
    | Release(t: Tid, m: Mutex)
    | Unregister(t: Tid)

  /** After the initialiser: one thread, one thread slot, an empty owner table, an empty wait buffer. */
  ghost function Init(main: Tid): (s: State)
  {
    State(Claim(Empty(), main), map[main := 0], map[main := Empty()], Empty(), map[main := Idle], map[], map[])
  }

  ghost function OnLock(m: Mutex): Owner -> bool
  {
    (o: Owner) => o.lid == m
  }

  ghost function Exactly(m: Mutex, t: Tid): Owner -> bool
  {
    (o: Owner) => o == Owner(m, t)
  }

  /** The entry the release scan removes. */
  ghost function FirstOn(owners: Table<Owner>, m: Mutex): (i: nat)
    ensures Count(owners.slots, OnLock(m)) > 0 <==> IsLive(owners, i)
    ensures IsLive(owners, i) ==> owners.slots[i].value.lid == m
  {
    CountZeroIff(owners.slots, OnLock(m));
    FirstMatch(owners.slots, OnLock(m))
  }

  /** The critical section of the release: remove the first entry for the mutex, if there is one. */
  ghost function Unregistered(owners: Table<Owner>, m: Mutex): (r: Table<Owner>)
  {
    var i := FirstOn(owners, m);
    if IsLive(owners, i) then Free(owners, i) else owners
  }

  ghost function Refusals(s: State, m: Mutex): (n: nat)
  {
    if m in s.refused then s.refused[m] else 0
  }

  ghost function SlotOf(s: State, t: Tid): (i: nat)
  {
    if t in s.slot then s.slot[t] else 0
  }

  ghost function WaitsOf(s: State, t: Tid): (w: Table<Mutex>)
  {
    if t in s.waits then s.waits[t] else Empty()
  }

  /** The real mutex may be taken: it is free, or recursive and already held by the same thread. */
  ghost predicate Available(s: State, recursive: set<Mutex>, m: Mutex, t: Tid)
  {
    m !in s.held || (m in recursive && s.held[m].tid == t)
  }

  ghost predicate Enabled(s: State, recursive: set<Mutex>, step: Step)
  {
    match step
    case Start(t) => t !in s.pc
    case Exit(t) => t in s.pc && s.pc[t].Idle?
    case Announce(t, m) => t in s.pc && s.pc[t].Idle?
    case Acquire(t) => t in s.pc && s.pc[t].Waiting? && Available(s, recursive, s.pc[t].m, t)
    case Refuse(t) => t in s.pc && s.pc[t].Waiting?
    case ClearWait(t) => t in s.pc && s.pc[t].Returned?
    case Register(t) => t in s.pc && s.pc[t].Cleared?
    case Release(t, m) => t in s.pc && s.pc[t].Idle? && m in s.held && s.held[m].tid == t
    case Unregister(t) => t in s.pc && s.pc[t].Releasing?
  }

  ghost function After(s: State, recursive: set<Mutex>, step: Step): (r: State)
    requires Enabled(s, recursive, step)
  {
    match step
    case Start(t) =>
      s.(infos := Claim(s.infos, t), slot := s.slot[t := ClaimIndex(s.infos)],
         waits := s.waits[t := Empty()], pc := s.pc[t := Idle])
    case Exit(t) =>
      s.(infos := Free(s.infos, SlotOf(s, t)), slot := s.slot - {t}, waits := s.waits - {t}, pc := s.pc - {t})
    case Announce(t, m) =>
      s.(waits := s.waits[t := Claim(WaitsOf(s, t), m)], pc := s.pc[t := Waiting(m, ClaimIndex(WaitsOf(s, t)))])
    case Acquire(t) =>
      var m := s.pc[t].m;
      var depth := if m in s.held then s.held[m].depth + 1 else 1;
      s.(held := s.held[m := Hold(t, depth)], pc := s.pc[t := Returned(m, s.pc[t].slot, true)])
    case Refuse(t) =>
      s.(pc := s.pc[t := Returned(s.pc[t].m, s.pc[t].slot, false)])
    case ClearWait(t) =>
      s.(waits := s.waits[t := Free(WaitsOf(s, t), s.pc[t].slot)], pc := s.pc[t := Cleared(s.pc[t].m, s.pc[t].ok)])
    case Register(t) =>
      var m := s.pc[t].m;
      s.(owners := Claim(s.owners, Owner(m, t)), pc := s.pc[t := Idle],
         refused := if s.pc[t].ok then s.refused else s.refused[m := Refusals(s, m) + 1])
    case Release(t, m) =>
      var held := if s.held[m].depth > 1 then s.held[m := Hold(t, s.held[m].depth - 1)] else s.held - {m};
      s.(held := held, pc := s.pc[t := Releasing(m)])
    case Unregister(t) =>
      s.(owners := Unregistered(s.owners, s.pc[t].m), pc := s.pc[t := Idle])
  }

  // What every reachable state satisfies

  /** A granted lock that the owner table does not show yet. */
  ghost predicate InFlight(s: State, t: Tid, m: Mutex)
  {
    t in s.pc && ((s.pc[t].Returned? && s.pc[t].ok) || (s.pc[t].Cleared? && s.pc[t].ok)) && s.pc[t].m == m
  }

  /** Threads between the real release of `m` and the removal of their entry. */
  ghost function Releasers(s: State, m: Mutex): (r: set<Tid>)
  {
    set t | t in s.pc && s.pc[t] == Releasing(m)
  }

  /** How often the current holder of `m` holds it and has registered. */
  ghost function RegisteredHold(s: State, m: Mutex): (n: int)
  {
    if m !in s.held then 0
    else s.held[m].depth - (if InFlight(s, s.held[m].tid, m) then 1 else 0)
  }

  ghost predicate TablesAgree(s: State)
  {
    && Valid(s.infos) && Valid(s.owners)
    && (forall t :: t in s.waits ==> Valid(s.waits[t]))
    && s.slot.Keys == s.waits.Keys == s.pc.Keys
    && (forall t :: t in s.pc ==> IsLive(s.infos, s.slot[t]) && s.infos.slots[s.slot[t]] == Some(t))
    && (forall t, u :: t in s.pc && u in s.pc && t != u ==> s.slot[t] != s.slot[u])
  }

  /** A wait buffer never uses more than its first slot, and shows exactly the mutex being taken. */
  ghost predicate WaitsAgree(s: State)
  {
    forall t :: t in s.pc && t in s.waits ==>
      if s.pc[t].Waiting? || s.pc[t].Returned?
      then s.pc[t].slot == 0 && s.waits[t] == Table([Some(s.pc[t].m)], 1)
      else s.waits[t] == Table([], 0)
  }

  ghost predicate HoldsAgree(s: State)
  {
    && (forall m :: m in s.held ==> s.held[m].depth > 0)
    && (forall t, m :: InFlight(s, t, m) ==> m in s.held && s.held[m].tid == t)
  }

  /** The entries for a mutex are exactly the registrations made and not yet taken back. */
  ghost predicate CountsAgree(s: State, m: Mutex)
  {
    Count(s.owners.slots, OnLock(m)) == RegisteredHold(s, m) + |Releasers(s, m)| + Refusals(s, m)
  }

  ghost predicate Invariant(s: State)
  {
    TablesAgree(s) && WaitsAgree(s) && HoldsAgree(s) && forall m :: CountsAgree(s, m)
  }

  lemma InitInvariant(main: Tid)
    ensures Invariant(Init(main))
  {
    InitTables(main);
    var s := Init(main);
    forall m ensures CountsAgree(s, m) {
      NoReleasers(s, m);
    }
  }

  lemma InitTables(main: Tid)
    ensures TablesAgree(Init(main))
  {
    ClaimEmpty<Tid>(main);
    OneThreadTables(main, Init(main));
  }

  lemma OneThreadTables(main: Tid, s: State)
    requires s.infos == Table([Some(main)], 1) && Valid(s.infos) && s.owners == Empty()
    requires s.slot == map[main := 0] && s.waits == map[main := Empty()] && s.pc == map[main := Idle]
    ensures TablesAgree(s)
  {
    assert IsLive(s.infos, 0);
  }

  lemma NoReleasers(s: State, m: Mutex)
    requires forall t :: t in s.pc ==> s.pc[t].Idle?
    ensures |Releasers(s, m)| == 0
  {
    assert forall t :: t !in Releasers(s, m);
    assert Releasers(s, m) == {};
  }

  /** The thread of the step is the only one whose position changes. */
  lemma ReleasersAfter(s: State, r: State, t: Tid, m: Mutex)
    requires t in s.pc && t in r.pc && r.pc == s.pc[t := r.pc[t]]
    ensures Releasers(r, m) - {t} == Releasers(s, m) - {t}
    ensures |Releasers(r, m)| == |Releasers(s, m)|
      - (if t in Releasers(s, m) then 1 else 0) + (if t in Releasers(r, m) then 1 else 0)
  {
    var rest := Releasers(s, m) - {t};
    assert Releasers(r, m) == if t in Releasers(r, m) then rest + {t} else rest;
    assert Releasers(s, m) == if t in Releasers(s, m) then rest + {t} else rest;
  }

  lemma StartKeepsTables(s: State, recursive: set<Mutex>, t: Tid)
    requires Invariant(s) && Enabled(s, recursive, Start(t))
    ensures TablesAgree(After(s, recursive, Start(t)))
  {
    ClaimKeeps(s.infos, t);
  }

  lemma ExitKeepsTables(s: State, recursive: set<Mutex>, t: Tid)
    requires Invariant(s) && Enabled(s, recursive, Exit(t))
    ensures TablesAgree(After(s, recursive, Exit(t)))
  {
    FreeKeeps(s.infos, s.slot[t]);
  }

  lemma WaitStepKeepsTables(s: State, recursive: set<Mutex>, step: Step)
    requires Invariant(s) && Enabled(s, recursive, step) && (step.Announce? || step.ClearWait?)
    ensures TablesAgree(After(s, recursive, step))
    ensures WaitsAgree(After(s, recursive, step))
  {
    if step.Announce? {
      AnnounceKeepsTables(s, recursive, step);
    } else {
      assert s.waits[step.t] == Table([Some(s.pc[step.t].m)], 1);
      FreeKeeps(s.waits[step.t], 0);
    }
  }

  lemma AnnounceKeepsTables(s: State, recursive: set<Mutex>, step: Step)
    requires Invariant(s) && Enabled(s, recursive, step) && step.Announce?
    ensures TablesAgree(After(s, recursive, step))
    ensures WaitsAgree(After(s, recursive, step))
  {
    assert s.waits[step.t] == Table([], 0);
    ClaimKeeps(s.waits[step.t], step.m);
  }

  lemma OwnerStepKeepsTables(s: State, recursive: set<Mutex>, step: Step)
    requires Invariant(s) && Enabled(s, recursive, step) && (step.Register? || step.Unregister?)
    ensures TablesAgree(After(s, recursive, step))
    ensures WaitsAgree(After(s, recursive, step))
  {
    if step.Register? {
      RegisterKeepsTables(s, recursive, step);
    } else if IsLive(s.owners, FirstOn(s.owners, s.pc[step.t].m)) {
      FreeKeeps(s.owners, FirstOn(s.owners, s.pc[step.t].m));
    }
  }

  lemma RegisterKeepsTables(s: State, recursive: set<Mutex>, step: Step)
    requires Invariant(s) && Enabled(s, recursive, step) && step.Register?
    ensures TablesAgree(After(s, recursive, step))
    ensures WaitsAgree(After(s, recursive, step))
  {
    ClaimKeeps(s.owners, Owner(s.pc[step.t].m, step.t));
  }

  lemma StepKeepsTables(s: State, recursive: set<Mutex>, step: Step)
    requires Invariant(s) && Enabled(s, recursive, step)
    ensures TablesAgree(After(s, recursive, step))
    ensures WaitsAgree(After(s, recursive, step))
  {
    match step
    case Start(t) => StartKeepsTables(s, recursive, t);
    case Exit(t) => ExitKeepsTables(s, recursive, t);
    case Announce(_, _) => WaitStepKeepsTables(s, recursive, step);
    case ClearWait(_) => WaitStepKeepsTables(s, recursive, step);
    case Register(_) => OwnerStepKeepsTables(s, recursive, step);
    case Unregister(_) => OwnerStepKeepsTables(s, recursive, step);
    case _ =>
  }

  lemma StepKeepsHolds(s: State, recursive: set<Mutex>, step: Step)
    requires Invariant(s) && Enabled(s, recursive, step)
    ensures HoldsAgree(After(s, recursive, step))
  {
    var r := After(s, recursive, step);
    forall u, m | InFlight(r, u, m) ensures m in r.held && r.held[m].tid == u {
      InFlightFrom(s, recursive, step, u, m);
    }
  }

  /** A lock in flight was in flight, or has just been granted. */
  lemma InFlightFrom(s: State, recursive: set<Mutex>, step: Step, u: Tid, m: Mutex)
    requires Enabled(s, recursive, step) && InFlight(After(s, recursive, step), u, m)
    ensures InFlight(s, u, m) || step == Acquire(u)
  {
  }

  /** Every unregister scan finds an entry. */
  lemma UnregisterFinds(s: State, recursive: set<Mutex>, t: Tid)
    requires Invariant(s) && Enabled(s, recursive, Unregister(t))
    ensures IsLive(s.owners, FirstOn(s.owners, s.pc[t].m))
  {
    var m := s.pc[t].m;
    assert CountsAgree(s, m);
    assert t in Releasers(s, m);
    assert |Releasers(s, m)| > 0;
  }

  /** Steps that touch neither the owner table nor the real mutexes. */
  lemma QuietStepKeepsCounts(s: State, recursive: set<Mutex>, step: Step, m: Mutex)
    requires Invariant(s) && Enabled(s, recursive, step)
    requires step.Start? || step.Exit? || step.Announce? || step.Refuse? || step.ClearWait?
    ensures CountsAgree(After(s, recursive, step), m)
  {
    assert CountsAgree(s, m);
    if step.Start? || step.Exit? {
      ThreadStepSame(s, recursive, step, m);
    } else {
      WaitStepSame(s, recursive, step, m);
    }
  }

  lemma WaitStepSame(s: State, recursive: set<Mutex>, step: Step, m: Mutex)
    requires Enabled(s, recursive, step) && (step.Announce? || step.Refuse? || step.ClearWait?)
    requires CountsAgree(s, m)
    ensures CountsAgree(After(s, recursive, step), m)
  {
    SameCounts(s, After(s, recursive, step), m);
  }

  lemma ThreadStepSame(s: State, recursive: set<Mutex>, step: Step, m: Mutex)
    requires Invariant(s) && Enabled(s, recursive, step) && (step.Start? || step.Exit?)
    requires CountsAgree(s, m)
    ensures CountsAgree(After(s, recursive, step), m)
  {
    SameCounts(s, After(s, recursive, step), m);
  }

  lemma SameCounts(s: State, r: State, m: Mutex)
    requires CountsAgree(s, m)
    requires r.owners == s.owners && r.held == s.held && r.refused == s.refused
    requires forall u :: (u in r.pc && r.pc[u] == Releasing(m)) <==> (u in s.pc && s.pc[u] == Releasing(m))
    requires forall u :: InFlight(r, u, m) <==> InFlight(s, u, m)
    ensures CountsAgree(r, m)
  {
    assert forall u :: u in Releasers(r, m) <==> u in Releasers(s, m);
    assert Releasers(r, m) == Releasers(s, m);
  }

  lemma AcquireKeepsCounts(s: State, recursive: set<Mutex>, t: Tid, m: Mutex)
    requires Invariant(s) && Enabled(s, recursive, Acquire(t))
    ensures CountsAgree(After(s, recursive, Acquire(t)), m)
  {
    var r := After(s, recursive, Acquire(t));
    assert CountsAgree(s, m);
    assert Releasers(r, m) == Releasers(s, m);
    assert forall u :: u != t ==> (InFlight(r, u, m) <==> InFlight(s, u, m));
    assert InFlight(r, t, m) <==> s.pc[t].m == m;
  }

  lemma RegisterSettles(s: State, recursive: set<Mutex>, t: Tid, m: Mutex)
    requires Enabled(s, recursive, Register(t))
    ensures var r := After(s, recursive, Register(t));
            && Releasers(r, m) == Releasers(s, m)
            && forall u :: InFlight(r, u, m) <==> InFlight(s, u, m) && u != t
  {
    var r := After(s, recursive, Register(t));
    assert forall u :: u in Releasers(r, m) <==> u in Releasers(s, m);
  }

  lemma RegisterKeepsCounts(s: State, recursive: set<Mutex>, t: Tid, m: Mutex)
    requires Invariant(s) && Enabled(s, recursive, Register(t))
    ensures CountsAgree(After(s, recursive, Register(t)), m)
  {
    assert CountsAgree(s, m);
    RegisterSettles(s, recursive, t, m);
    RegisterHolds(s, recursive, t, m);
    ClaimCounts(s.owners, Owner(s.pc[t].m, t), OnLock(m));
  }

  lemma RegisterHolds(s: State, recursive: set<Mutex>, t: Tid, m: Mutex)
    requires Invariant(s) && Enabled(s, recursive, Register(t))
    ensures RegisteredHold(After(s, recursive, Register(t)), m) ==
            RegisteredHold(s, m) + if s.pc[t].m == m && s.pc[t].ok then 1 else 0
  {
    RegisterSettles(s, recursive, t, m);
    assert s.pc[t].ok ==> InFlight(s, t, s.pc[t].m);
  }

  lemma ReleaseKeepsCounts(s: State, recursive: set<Mutex>, t: Tid, k: Mutex, m: Mutex)
    requires Invariant(s) && Enabled(s, recursive, Release(t, k))
    ensures CountsAgree(After(s, recursive, Release(t, k)), m)
  {
    var r := After(s, recursive, Release(t, k));
    assert CountsAgree(s, m);
    ReleasersAfter(s, r, t, m);
    assert forall u :: InFlight(r, u, m) <==> InFlight(s, u, m);
  }

  lemma UnregisterKeepsCounts(s: State, recursive: set<Mutex>, t: Tid, m: Mutex)
    requires Invariant(s) && Enabled(s, recursive, Unregister(t))
    ensures CountsAgree(After(s, recursive, Unregister(t)), m)
  {
    var r := After(s, recursive, Unregister(t));
    assert CountsAgree(s, m);
    ReleasersAfter(s, r, t, m);
    assert forall u :: InFlight(r, u, m) <==> InFlight(s, u, m);
    UnregisterFinds(s, recursive, t);
    FreeCounts(s.owners, FirstOn(s.owners, s.pc[t].m), OnLock(m));
  }

  lemma StepKeepsCounts(s: State, recursive: set<Mutex>, step: Step, m: Mutex)
    requires Invariant(s) && Enabled(s, recursive, step)
    ensures CountsAgree(After(s, recursive, step), m)
  {
    match step
    case Acquire(t) => AcquireKeepsCounts(s, recursive, t, m);
    case Register(t) => RegisterKeepsCounts(s, recursive, t, m);
    case Release(t, k) => ReleaseKeepsCounts(s, recursive, t, k, m);
    case Unregister(t) => UnregisterKeepsCounts(s, recursive, t, m);
    case _ => QuietStepKeepsCounts(s, recursive, step, m);
  }

  lemma StepKeepsInvariant(s: State, recursive: set<Mutex>, step: Step)
    requires Invariant(s) && Enabled(s, recursive, step)
    ensures Invariant(After(s, recursive, step))
  {
    StepKeepsTables(s, recursive, step);
    StepKeepsHolds(s, recursive, step);
    forall m ensures CountsAgree(After(s, recursive, step), m) {
      StepKeepsCounts(s, recursive, step, m);
    }
  }

  /** Only a recursive mutex is held more than once. */
  ghost predicate DepthsAgree(s: State, recursive: set<Mutex>)
  {
    forall m :: m in s.held && m !in recursive ==> s.held[m].depth == 1
  }

  lemma StepKeepsDepths(s: State, recursive: set<Mutex>, step: Step)
    requires DepthsAgree(s, recursive) && Enabled(s, recursive, step)
    ensures DepthsAgree(After(s, recursive, step), recursive)
  {
  }
}
