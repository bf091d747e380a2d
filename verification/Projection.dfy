/**
 The frontend's projection of a debugger backend, on values.

 Snapshots replace the projected resources, replies deliver inspection data for the generation they
 were requested under, and the execution target retires when its resource disappears or the backend
 is replaced. Each displayed datum remembers the request it answers, so that the properties of runs
 can be stated; nothing reads that memory.
 */
module Projection {
  import opened Wrappers
  import opened Targets
  import opened Ordering
  import opened Sequences

  datatype ThreadState = Running | Stopped | Exited | Unavailable | Unknown

  datatype ThreadItem = ThreadItem(id: string, sessionId: string, state: ThreadState)

  /** A thread as reported; `selected` is local to its backend session. */
  datatype ReportedThread = ReportedThread(item: ThreadItem, selected: bool)

  datatype Snapshot = Snapshot(
    instance: string,
    revision: nat,
    sequence: nat,
    sessions: seq<string>,
    groups: seq<string>,
    threads: seq<ReportedThread>)

  /**
   A thread seen to stop. An automatic pause is not the user's business; a stop with the focus becomes
   the selected one, unless another stop holds the focus already.
   */
  datatype Stop = Stop(threadId: string, automatic: bool, focused: bool)

  datatype Activity = Quiet | Resumed(threadId: string) | Halted(stop: Stop)

  datatype Event = Event(instance: string, revision: nat, sequence: nat, activity: Activity)

  /** A piece of inspection data and the epoch and thread of the request it answers. */
  datatype Datum = Datum(epoch: nat, threadId: string, expression: bool, payload: string)

  datatype View = View(
    instance: Option<string>,
    revision: nat,
    sequence: nat,
    sessions: seq<string>,
    groups: seq<string>,
    threads: seq<ThreadItem>,
    selectedThread: nat,
    frameThread: Option<string>,
    target: Option<Target>,
    targetRetired: bool,
    generation: nat,
    epoch: nat,
    inspected: Option<string>,
    variables: seq<Datum>,
    registers: seq<Datum>,
    memory: seq<Datum>)

  const INITIAL := View(None, 0, 0, [], [], [], 0, None, None, false, 0, 0, None, [], [], [])

  const U64_MAX: nat := 0xFFFF_FFFF_FFFF_FFFF

  // The generation counter

  /** `wrapping_add(1).max(1)` on an unsigned 64-bit counter. */
  function Bump(generation: nat): (r: nat)
    ensures r > 0
    ensures generation <= U64_MAX ==> r <= U64_MAX
  {
    if generation >= U64_MAX then 1 else generation + 1
  }

  /** The value of the counter after `epoch` bumps. */
  function GenerationOf(epoch: nat): (g: nat)
    ensures g <= U64_MAX
  {
    if epoch == 0 then 0 else (epoch - 1) % U64_MAX + 1
  }

  // Reading the view

  function CurrentThread(v: View): (t: Option<ThreadItem>)
  {
    if v.selectedThread < |v.threads| then Some(v.threads[v.selectedThread]) else None
  }

  function CurrentId(v: View): (id: Option<string>)
  {
    if v.selectedThread < |v.threads| then Some(v.threads[v.selectedThread].id) else None
  }

  predicate HasThread(threads: seq<ThreadItem>, id: string)
  {
    exists i :: 0 <= i < |threads| && threads[i].id == id
  }

  predicate TargetIsPresent(v: View, target: Target)
  {
    match target
    case Thread(id) => HasThread(v.threads, id)
    case Session(id) => id in v.sessions
    case Group(id) => id in v.groups
    case SessionSet(ids) => ids != [] && forall i :: 0 <= i < |ids| ==> ids[i] in v.sessions
    case Multiple(targets) => targets != [] && forall i :: 0 <= i < |targets| ==> TargetIsPresent(v, targets[i])
    case Broadcast => v.sessions != []
    case Relative => false
    case NoSelector => false
  }

  function ExecutionTarget(v: View): (t: Option<Target>)
  {
    if v.targetRetired then None
    else match v.target
         case Some(target) => if TargetIsPresent(v, target) then Some(target) else None
         case None => if CurrentId(v).Some? then Some(Thread(CurrentId(v).value)) else None
  }

  predicate SnapshotIsStale(v: View, s: Snapshot)
  {
    v.instance == Some(s.instance) && (s.revision < v.revision || s.sequence < v.sequence)
  }

  predicate SnapshotInstanceMatches(v: View, s: Snapshot)
  {
    v.instance.None? || v.instance.value == s.instance
  }

  predicate EventIsStale(v: View, e: Event)
  {
    v.instance.Some? && (v.instance.value != e.instance || e.revision < v.revision || e.sequence < v.sequence)
  }

  /** The snapshot comes from a backend other than the one already established. */
  predicate Replaces(v: View, s: Snapshot)
  {
    s.instance != "" && v.instance.Some? && v.instance.value != s.instance
  }

  predicate InspectionIsCurrent(v: View, generation: nat, threadId: string)
  {
    generation == v.generation && CurrentId(v) == Some(threadId)
  }

  // Updating the view

  function ClearDetails(v: View): (r: View)
  {
    v.(variables := [], registers := [], memory := [])
  }

  function Advance(v: View): (r: View)
  {
    v.(generation := Bump(v.generation), epoch := v.epoch + 1)
  }

  function InvalidateInspection(v: View): (r: View)
  {
    Advance(ClearDetails(v.(frameThread := None, inspected := None)))
  }

  function BeginInspection(v: View): (r: View)
  {
    ClearDetails(Advance(v).(inspected := CurrentId(v), frameThread := None))
  }

  function BeginFrameInspection(v: View): (r: View)
  {
    ClearDetails(Advance(v))
  }

  function Reconcile(v: View): (r: View)
  {
    if v.target.Some? && !TargetIsPresent(v, v.target.value) then v.(targetRetired := true) else v
  }

  function PositionOf(threads: seq<ThreadItem>, id: string): (i: nat)
    ensures i <= |threads|
    ensures i < |threads| ==> threads[i].id == id
    ensures forall j :: 0 <= j < i ==> threads[j].id != id
  {
    FirstIndex(threads, (t: ThreadItem) => t.id == id)
  }

  /** Keep the named thread selected if it is still listed, else stay in range. */
  function Reselect(threads: seq<ThreadItem>, id: Option<string>, selected: nat): (i: nat)
  {
    if id.Some? && PositionOf(threads, id.value) < |threads| then PositionOf(threads, id.value)
    else Bounded(selected, |threads|)
  }

  function Retained(threads: seq<ThreadItem>, sessions: seq<string>): (r: seq<ThreadItem>)
  {
    Filter(threads, InSessions(sessions))
  }

  function InSessions(sessions: seq<string>): (p: ThreadItem -> bool)
  {
    (t: ThreadItem) => t.sessionId in sessions
  }

  /** A replaced backend retires the target and everything inspected. */
  function Adopt(v: View, s: Snapshot): (r: View)
  {
    var cleared := if Replaces(v, s) then InvalidateInspection(v.(targetRetired := v.target.Some?)) else v;
    if s.instance == "" then cleared else cleared.(instance := Some(s.instance))
  }

  /** The resources of the snapshot, with threads of departed sessions dropped. */
  function Moved(v: View, s: Snapshot): (r: View)
  {
    var threads := Retained(v.threads, s.sessions);
    v.(sessions := s.sessions, groups := s.groups, threads := threads,
       selectedThread := Reselect(threads, CurrentId(v), v.selectedThread))
  }

  /** A selection lost with its session takes the inspection with it. */
  function Resources(v: View, s: Snapshot): (r: View)
  {
    if CurrentId(Moved(v, s)) != CurrentId(v) then InvalidateInspection(Moved(v, s)) else Moved(v, s)
  }

  /** Without sessions nothing is left to show. */
  function Vacate(v: View): (r: View)
  {
    if v.sessions != [] then v
    else ClearDetails(Advance(v.(threads := [], frameThread := None, selectedThread := 0)))
  }

  function ApplySnapshot(v: View, s: Snapshot): (r: View)
  {
    Reconcile(Vacate(Resources(Adopt(v.(revision := s.revision, sequence := s.sequence), s), s)))
  }

  function Items(threads: seq<ReportedThread>): (r: seq<ThreadItem>)
    ensures |r| == |threads| && forall i :: 0 <= i < |threads| ==> r[i] == threads[i].item
  {
    Map(threads, (t: ReportedThread) => t.item)
  }

  function ById(): (le: (ThreadItem, ThreadItem) -> bool)
  {
    (a: ThreadItem, b: ThreadItem) => StringLe(a.id, b.id)
  }

  function FirstSelected(threads: seq<ReportedThread>): (id: Option<string>)
  {
    if threads == [] then None
    else if threads[0].selected then Some(threads[0].item.id)
    else FirstSelected(threads[1..])
  }

  /** Show the reported threads in identity order, without moving the global selection. */
  function Relist(v: View, reported: seq<ReportedThread>): (r: View)
  {
    var threads := SortBy(Items(reported), ById());
    var wanted := if CurrentId(v).Some? then CurrentId(v) else FirstSelected(reported);
    v.(threads := threads, selectedThread := Reselect(threads, wanted, v.selectedThread))
  }

  /** Establish the initial target once; recovery never replaces a chosen one. */
  function DefaultTarget(v: View): (r: View)
  {
    if v.target.Some? then v
    else v.(target := if CurrentId(v).Some? then Some(Thread(CurrentId(v).value)) else None, targetRetired := false)
  }

  predicate CurrentIsStopped(v: View)
  {
    CurrentThread(v).Some? && CurrentThread(v).value.state.Stopped?
  }

  function ApplyThreads(v: View, reported: seq<ReportedThread>): (r: View)
  {
    var listed := Reconcile(DefaultTarget(Relist(v, reported)));
    if CurrentId(listed) != CurrentId(v) || !CurrentIsStopped(listed) then InvalidateInspection(listed) else listed
  }

  function AcceptSnapshot(v: View, s: Snapshot): (r: View)
  {
    if SnapshotIsStale(v, s) then v else ApplyThreads(ApplySnapshot(v, s), s.threads)
  }

  function AcceptRefresh(v: View, s: Snapshot): (r: View)
  {
    if SnapshotInstanceMatches(v, s) then AcceptSnapshot(v, s) else v
  }

  /** The named thread, or every thread, in a new state. */
  function WithState(threads: seq<ThreadItem>, id: Option<string>, state: ThreadState): (r: seq<ThreadItem>)
    ensures |r| == |threads|
    ensures forall i :: 0 <= i < |threads| ==>
              r[i] == if id.None? || threads[i].id == id.value then threads[i].(state := state) else threads[i]
  {
    Map(threads, (t: ThreadItem) => if id.None? || t.id == id.value then t.(state := state) else t)
  }

  function MarkRunning(v: View, id: Option<string>): (r: View)
  {
    var affected := CurrentId(v).Some? && (id.None? || CurrentId(v) == id || v.frameThread == id);
    var marked := v.(threads := WithState(v.threads, id, Running));
    if affected then InvalidateInspection(marked) else marked
  }

  function AcceptEvent(v: View, e: Event): (r: View)
  {
    if EventIsStale(v, e) then v
    else match e.activity
         case Quiet => v
         case Resumed(id) =>
           if HasRunning(v.threads, id) then MarkRunning(v, Some(id)) else v
         case Halted(stop) => HandleStop(v, stop)
  }

  /** The view with the stop recorded and, if it has the focus, its thread selected. */
  function Pause(v: View, stop: Stop): (r: View)
  {
    var marked := v.(threads := WithState(v.threads, Some(stop.threadId), Stopped));
    if stop.focused then Select(marked, stop.threadId) else marked
  }

  /** A stop of the selected thread is inspected unless that inspection was already asked for. */
  function HandleStop(v: View, stop: Stop): (r: View)
  {
    if stop.automatic then v
    else
      var paused := Pause(v, stop);
      if CurrentId(paused).None? || (CurrentId(paused) == Some(stop.threadId) && paused.inspected != CurrentId(paused))
      then InspectThread(paused, stop.threadId) else paused
  }

  /** A failed inspection may be asked for again; what it had delivered stays. */
  function ReleaseInspection(v: View, epoch: nat, threadId: string): (r: View)
  {
    if InspectionIsCurrent(v, GenerationOf(epoch), threadId) then v.(inspected := None) else v
  }

  predicate HasRunning(threads: seq<ThreadItem>, id: string)
  {
    exists i :: 0 <= i < |threads| && threads[i].id == id && threads[i].state.Running?
  }

  datatype Reply = Scopes | Children | Registers | Memory

  function Expressions(data: seq<Datum>): (r: seq<Datum>)
  {
    Filter(data, (d: Datum) => d.expression)
  }

  function Shown(v: View, reply: Reply, d: Datum): (r: View)
  {
    match reply
    case Scopes => v.(variables := Expressions(v.variables) + [d])
    case Children => v.(variables := v.variables + [d])
    case Registers => v.(registers := [d])
    case Memory => v.(memory := [d])
  }

  /** A reply is shown only under the generation and thread it was requested for. */
  function AcceptReply(v: View, reply: Reply, epoch: nat, threadId: string, expression: bool, payload: string): (r: View)
  {
    if !InspectionIsCurrent(v, GenerationOf(epoch), threadId) then v
    else Shown(v, reply, Datum(epoch, threadId, expression, payload))
  }

  function Select(v: View, id: string): (r: View)
  {
    var i := PositionOf(v.threads, id);
    if i < |v.threads| then v.(selectedThread := i) else v
  }

  function InspectThread(v: View, id: string): (r: View)
  {
    if PositionOf(v.threads, id) == |v.threads| then v else BeginInspection(Select(v, id))
  }

  function ShowFrames(v: View, epoch: nat, threadId: string, frameThread: Option<string>): (r: View)
  {
    if InspectionIsCurrent(v, GenerationOf(epoch), threadId) then v.(frameThread := frameThread) else v
  }

  function MoveFrame(v: View, frameThread: Option<string>): (r: View)
  {
    v.(frameThread := frameThread)
  }

  function Choose(v: View, target: Option<Target>): (r: View)
  {
    v.(target := target, targetRetired := false)
  }
}
