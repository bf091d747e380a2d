/**
 The application object whose fields the projection is kept in, updated in place.
 */
module Frontend {
  import opened Wrappers
  import opened Targets
  import opened Ordering
  import opened Projection
  import ProjectionRuns
  import Sequences

  method Marked(threads: seq<ThreadItem>, id: Option<string>, state: ThreadState) returns (r: seq<ThreadItem>)
    ensures r == WithState(threads, id, state)
  {
    r := [];
    for i := 0 to |threads|
      invariant |r| == i && r == WithState(threads, id, state)[..i]
    {
      r := r + [if id.None? || threads[i].id == id.value then threads[i].(state := state) else threads[i]];
    }
  }

  method AnyRunning(threads: seq<ThreadItem>, id: string) returns (found: bool)
    ensures found <==> HasRunning(threads, id)
  {
    for i := 0 to |threads|
      invariant forall j :: 0 <= j < i ==> !(threads[j].id == id && threads[j].state.Running?)
    {
      if threads[i].id == id && threads[i].state.Running? {
        return true;
      }
    }
    return false;
  }

  class App {
    var instance: Option<string>
    var revision: nat
    var sequence: nat
    var sessions: seq<string>
    var groups: seq<string>
    var threads: seq<ThreadItem>
    var selectedThread: nat
    var frameThread: Option<string>
    var target: Option<Target>
    var targetRetired: bool
    var generation: nat
    var inspected: Option<string>
    var variables: seq<Datum>
    var registers: seq<Datum>
    var memory: seq<Datum>
    ghost var epoch: nat

    ghost function Abs(): (v: View)
      reads this
    {
      View(instance, revision, sequence, sessions, groups, threads, selectedThread, frameThread, target,
           targetRetired, generation, epoch, inspected, variables, registers, memory)
    }

    constructor ()
      ensures Abs() == INITIAL
    {
      instance, revision, sequence := None, 0, 0;
      sessions, groups, threads, selectedThread := [], [], [], 0;
      frameThread, target, targetRetired := None, None, false;
      generation, inspected, epoch := 0, None, 0;
      variables, registers, memory := [], [], [];
    }

    method CurrentThreadId() returns (id: Option<string>)
      ensures id == CurrentId(Abs())
    {
      id := if selectedThread < |threads| then Some(threads[selectedThread].id) else None;
    }

    method ClearInspectionDetails()
      modifies this`variables, this`registers, this`memory
      ensures Abs() == ClearDetails(old(Abs()))
    {
      variables := [];
      registers := [];
      memory := [];
    }

    /** The counter has not been moved by anything but epochs. */
    ghost predicate Counted()
      reads this
    {
      generation == GenerationOf(epoch)
    }

    /** A reply asked for up to `past` carries the current generation only whole turns of the counter later. */
    ghost predicate PastShutOut(past: nat)
      reads this
    {
      && Counted()
      && forall e: nat :: e <= past && GenerationOf(e) == generation ==> e > 0 && (epoch - e) % U64_MAX == 0
    }

    method NextGeneration()
      modifies this`generation, this`epoch
      ensures generation == Bump(old(generation)) && epoch == old(epoch) + 1
      ensures old(Counted()) ==> PastShutOut(old(epoch))
    {
      ghost var before, past := generation, epoch;
      generation := Bump(generation);
      epoch := epoch + 1;
      if before == GenerationOf(past) {
        ProjectionRuns.GenerationAdvances(past);
        forall e: nat | e <= past && GenerationOf(e) == generation ensures e > 0 && (epoch - e) % U64_MAX == 0 {
          ProjectionRuns.GenerationSharedIff(e, epoch);
        }
      }
    }

    ghost predicate NothingShown()
      reads this
    {
      variables == [] && registers == [] && memory == []
    }

    method InvalidateNow()
      modifies this
      ensures Abs() == InvalidateInspection(old(Abs()))
      ensures NothingShown() && (old(Counted()) ==> PastShutOut(old(epoch)))
    {
      frameThread := None;
      inspected := None;
      ClearInspectionDetails();
      NextGeneration();
    }

    method BeginInspectionNow() returns (issued: nat)
      modifies this
      ensures Abs() == BeginInspection(old(Abs())) && issued == generation
      ensures NothingShown() && (old(Counted()) ==> PastShutOut(old(epoch)))
    {
      NextGeneration();
      inspected := CurrentThreadId();
      frameThread := None;
      ClearInspectionDetails();
      issued := generation;
    }

    method BeginFrameInspectionNow() returns (issued: nat)
      modifies this
      ensures Abs() == BeginFrameInspection(old(Abs())) && issued == generation
      ensures NothingShown() && (old(Counted()) ==> PastShutOut(old(epoch)))
    {
      NextGeneration();
      ClearInspectionDetails();
      issued := generation;
    }

    /** The row of a thread, as a scan of the list finds it. */
    method FindThread(id: string) returns (i: nat)
      ensures i == PositionOf(threads, id)
    {
      i := 0;
      while i < |threads| && threads[i].id != id
        invariant 0 <= i <= |threads|
        invariant forall j :: 0 <= j < i ==> threads[j].id != id
      {
        i := i + 1;
      }
    }

    method SelectById(id: Option<string>)
      modifies this`selectedThread
      ensures selectedThread == Reselect(threads, id, old(selectedThread))
    {
      if id.Some? {
        var i := FindThread(id.value);
        if i < |threads| {
          selectedThread := i;
          return;
        }
      }
      selectedThread := Bounded(selectedThread, |threads|);
    }

    method RetainThreads()
      modifies this`threads
      ensures threads == Retained(old(threads), sessions)
    {
      threads := Sequences.Retain(threads, InSessions(sessions));
    }

    /** A control target whose resource is gone retires. */
    method ReconcileTarget()
      modifies this`targetRetired
      ensures Abs() == Reconcile(old(Abs()))
    {
      if target.Some? {
        var present := IsPresent(target.value);
        if !present {
          targetRetired := true;
        }
      }
    }

    method IsPresent(goal: Target) returns (present: bool)
      ensures present <==> TargetIsPresent(Abs(), goal)
      decreases goal
    {
      match goal
      case Thread(id) =>
        var i := FindThread(id);
        return i < |threads|;
      case Session(id) => return id in sessions;
      case Group(id) => return id in groups;
      case SessionSet(ids) =>
        for i := 0 to |ids|
          invariant forall j :: 0 <= j < i ==> ids[j] in sessions
        {
          if ids[i] !in sessions {
            return false;
          }
        }
        return ids != [];
      case Multiple(goals) =>
        for i := 0 to |goals|
          invariant forall j :: 0 <= j < i ==> TargetIsPresent(Abs(), goals[j])
        {
          var one := IsPresent(goals[i]);
          if !one {
            return false;
          }
        }
        return goals != [];
      case Broadcast => return sessions != [];
      case Relative => return false;
      case NoSelector => return false;
    }

    /** Take over the instance of a snapshot; a replaced backend retires target and inspection. */
    method AdoptInstance(s: Snapshot)
      modifies this
      ensures Abs() == Adopt(old(Abs()), s)
    {
      if s.instance != "" {
        if instance.Some? && instance.value != s.instance {
          targetRetired := target.Some?;
          InvalidateNow();
        }
        instance := Some(s.instance);
      }
    }

    method TakeResources(s: Snapshot)
      modifies this
      ensures Abs() == Resources(old(Abs()), s)
    {
      ghost var before := Abs();
      var selected := CurrentThreadId();
      sessions := s.sessions;
      groups := s.groups;
      RetainThreads();
      SelectById(selected);
      assert Abs() == Moved(before, s);
      var current := CurrentThreadId();
      if current != selected {
        InvalidateNow();
      }
    }

    /** Without sessions nothing is left to show. */
    method VacateNow()
      modifies this
      ensures Abs() == Vacate(old(Abs()))
    {
      if sessions == [] {
        threads, frameThread, selectedThread := [], None, 0;
        BeginEpoch();
      }
    }

    method BeginEpoch()
      modifies this`generation, this`epoch, this`variables, this`registers, this`memory
      ensures Abs() == ClearDetails(Advance(old(Abs())))
      ensures NothingShown() && (old(Counted()) ==> PastShutOut(old(epoch)))
    {
      NextGeneration();
      ClearInspectionDetails();
    }

    method TakeSnapshot(s: Snapshot)
      modifies this
      ensures Abs() == ApplySnapshot(old(Abs()), s)
    {
      revision := s.revision;
      sequence := s.sequence;
      ghost var numbered := Abs();
      AdoptInstance(s);
      TakeResources(s);
      VacateNow();
      assert Abs() == Vacate(Resources(Adopt(numbered, s), s));
      ReconcileTarget();
    }

    method RelistThreads(reported: seq<ReportedThread>)
      modifies this
      ensures Abs() == Relist(old(Abs()), reported)
    {
      var selected := CurrentThreadId();
      var wanted := if selected.Some? then selected else FirstSelected(reported);
      threads := SortBy(Items(reported), ById());
      SelectById(wanted);
    }

    method DefaultTargetNow()
      modifies this`target, this`targetRetired
      ensures Abs() == DefaultTarget(old(Abs()))
    {
      if target.None? {
        var id := CurrentThreadId();
        target := if id.Some? then Some(Thread(id.value)) else None;
        targetRetired := false;
      }
    }

    method TakeThreads(reported: seq<ReportedThread>)
      modifies this
      ensures Abs() == ApplyThreads(old(Abs()), reported)
    {
      ghost var before := Abs();
      var selected := CurrentThreadId();
      RelistThreads(reported);
      DefaultTargetNow();
      ReconcileTarget();
      ghost var listed := Abs();
      assert listed == Reconcile(DefaultTarget(Relist(before, reported)));
      var current := CurrentThreadId();
      var stopped := selectedThread < |threads| && threads[selectedThread].state.Stopped?;
      assert stopped <==> CurrentIsStopped(listed);
      if current != selected || !stopped {
        InvalidateNow();
      }
    }

    /** A snapshot older than the projection of the same instance is dropped. */
    method OnSnapshot(s: Snapshot)
      modifies this
      ensures Abs() == AcceptSnapshot(old(Abs()), s)
    {
      if instance == Some(s.instance) && (s.revision < revision || s.sequence < sequence) {
        return;
      }
      TakeSnapshot(s);
      TakeThreads(s.threads);
    }

    /** A refresh of another instance is dropped, so only the stream can replace a backend. */
    method OnRefresh(s: Snapshot)
      modifies this
      ensures Abs() == AcceptRefresh(old(Abs()), s)
    {
      if instance.None? || instance.value == s.instance {
        OnSnapshot(s);
      }
    }

    method MarkRunningNow(id: Option<string>)
      modifies this
      ensures Abs() == MarkRunning(old(Abs()), id)
    {
      var current := CurrentThreadId();
      var affected := current.Some? && (id.None? || current == id || frameThread == id);
      threads := Marked(threads, id, Running);
      if affected {
        InvalidateNow();
      }
    }

    /** Events of another instance or older than the projection are dropped. */
    method OnEvent(e: Event)
      modifies this
      ensures Abs() == AcceptEvent(old(Abs()), e)
    {
      if instance.Some? && (instance.value != e.instance || e.revision < revision || e.sequence < sequence) {
        return;
      }
      match e.activity
      case Quiet =>
      case Resumed(id) =>
        var running := AnyRunning(threads, id);
        if running {
          MarkRunningNow(Some(id));
        }
      case Halted(stop) => OnStop(stop);
    }

    /** A stop is recorded, selected if it has the focus, and inspected unless that was already asked for. */
    method OnStop(stop: Stop)
      modifies this
      ensures Abs() == HandleStop(old(Abs()), stop)
    {
      if stop.automatic {
        return;
      }
      PauseNow(stop);
      var active := CurrentThreadId();
      if active.None? || (active == Some(stop.threadId) && inspected != active) {
        InspectThreadNow(stop.threadId);
      }
    }

    method PauseNow(stop: Stop)
      modifies this`threads, this`selectedThread
      ensures Abs() == Pause(old(Abs()), stop)
    {
      threads := Marked(threads, Some(stop.threadId), Stopped);
      if stop.focused {
        var i := FindThread(stop.threadId);
        if i < |threads| {
          selectedThread := i;
        }
      }
    }

    /** Inspecting a listed thread selects it; an unknown one is ignored. */
    method InspectThreadNow(id: string)
      modifies this
      ensures Abs() == InspectThread(old(Abs()), id)
    {
      var i := FindThread(id);
      if i < |threads| {
        selectedThread := i;
        var _ := BeginInspectionNow();
      }
    }

    /** The failure of the current inspection lets it be asked for again. */
    method OnInspectionError(requestedUnder: nat, ghost requestedIn: nat, threadId: string)
      requires requestedUnder == GenerationOf(requestedIn)
      modifies this`inspected
      ensures Abs() == ReleaseInspection(old(Abs()), requestedIn, threadId)
      ensures InspectionIsCurrent(old(Abs()), requestedUnder, threadId) ==>
                forall stop: Stop :: !stop.automatic && stop.threadId == threadId ==>
                  HandleStop(Abs(), stop).epoch == old(epoch) + 1 && HandleStop(Abs(), stop).inspected == Some(threadId)
    {
      ghost var before := Abs();
      var current := CurrentThreadId();
      if requestedUnder == generation && current == Some(threadId) {
        inspected := None;
        forall stop: Stop | !stop.automatic && stop.threadId == threadId
          ensures HandleStop(Abs(), stop).epoch == old(epoch) + 1 && HandleStop(Abs(), stop).inspected == Some(threadId) {
          ProjectionRuns.FailedInspectionRetried(before, requestedIn, stop);
        }
      }
    }

    /** Replies of another generation or for another thread are dropped. */
    method OnReply(reply: Reply, requestedUnder: nat, ghost requestedIn: nat, d: Datum)
      requires requestedUnder == GenerationOf(requestedIn) && d.epoch == requestedIn
      modifies this
      ensures Abs() == AcceptReply(old(Abs()), reply, requestedIn, d.threadId, d.expression, d.payload)
    {
      var current := CurrentThreadId();
      if requestedUnder != generation || current != Some(d.threadId) {
        return;
      }
      match reply
      case Scopes => variables := Expressions(variables) + [d];
      case Children => variables := variables + [d];
      case Registers => registers := [d];
      case Memory => memory := [d];
    }
  }
}
