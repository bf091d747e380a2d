/**
 What holds of the projection over every run of messages and user actions.
 */
module ProjectionRuns {
  import opened Wrappers
  import opened Targets
  import opened Projection
  import opened Sequences

  datatype Step =
    | Stream(snapshot: Snapshot)
    | Refresh(snapshot: Snapshot)
    | Notify(event: Event)
    | Deliver(reply: Reply, epoch: nat, threadId: string, expression: bool, payload: string)
    | Frames(epoch: nat, threadId: string, frameThread: Option<string>)
    | Inspect(threadId: string)
    | InspectFrame
    | SelectThread(threadId: string)
    | StopSeen(stop: Stop)
    | InspectionFails(epoch: nat, threadId: string)
    | StepFrame(frameThread: Option<string>)
    | ChooseTarget(target: Option<Target>)

  /** A reply answers a request issued under the generation of some epoch already begun. */
  ghost predicate Allowed(v: View, step: Step)
  {
    step.Deliver? || step.Frames? || step.InspectionFails? ==> step.epoch <= v.epoch
  }

  ghost function After(v: View, step: Step): (r: View)
  {
    match step
    case Stream(s) => AcceptSnapshot(v, s)
    case Refresh(s) => AcceptRefresh(v, s)
    case Notify(e) => AcceptEvent(v, e)
    case Deliver(reply, epoch, id, expression, payload) => AcceptReply(v, reply, epoch, id, expression, payload)
    case Frames(epoch, id, frameThread) => ShowFrames(v, epoch, id, frameThread)
    case Inspect(id) => InspectThread(v, id)
    case InspectFrame => BeginFrameInspection(v)
    case SelectThread(id) => Select(v, id)
    case StopSeen(stop) => HandleStop(v, stop)
    case InspectionFails(epoch, id) => ReleaseInspection(v, epoch, id)
    case StepFrame(frameThread) => MoveFrame(v, frameThread)
    case ChooseTarget(target) => Choose(v, target)
  }

  ghost predicate IsRun(views: seq<View>, steps: seq<Step>)
  {
    && |views| == |steps| + 1
    && views[0] == INITIAL
    && forall i :: 0 <= i < |steps| ==> Allowed(views[i], steps[i]) && views[i + 1] == After(views[i], steps[i])
  }

  // Ordering of snapshots

  /** The message is a snapshot that the view takes over. */
  ghost predicate Applies(v: View, step: Step)
  {
    || (step.Stream? && !SnapshotIsStale(v, step.snapshot))
    || (step.Refresh? && SnapshotInstanceMatches(v, step.snapshot) && !SnapshotIsStale(v, step.snapshot))
  }

  /** The fields that say which projection is shown and which target was chosen. */
  ghost predicate SameHead(v: View, r: View)
  {
    && r.revision == v.revision && r.sequence == v.sequence && r.instance == v.instance
    && r.target == v.target && r.targetRetired == v.targetRetired
  }

  lemma ResourcesKeepHead(v: View, s: Snapshot)
    ensures SameHead(v, Vacate(Resources(v, s)))
  {
    assert SameHead(v, Resources(v, s));
  }

  lemma ApplySnapshotHead(v: View, s: Snapshot)
    ensures var r := ApplySnapshot(v, s);
            && r.revision == s.revision && r.sequence == s.sequence && r.target == v.target
            && r.instance == (if s.instance == "" then v.instance else Some(s.instance))
            && (v.target.Some? && (v.targetRetired || Replaces(v, s)) ==> r.targetRetired)
  {
    var v1 := v.(revision := s.revision, sequence := s.sequence);
    var v2 := Adopt(v1, s);
    assert Replaces(v1, s) <==> Replaces(v, s);
    assert v2.revision == s.revision && v2.sequence == s.sequence && v2.target == v.target;
    ResourcesKeepHead(v2, s);
  }

  lemma ApplyThreadsHead(v: View, reported: seq<ReportedThread>)
    ensures var r := ApplyThreads(v, reported);
            && r.revision == v.revision && r.sequence == v.sequence && r.instance == v.instance
            && (v.target.Some? ==>
                  && r.target == v.target
                  && (v.targetRetired || !TargetIsPresent(r, v.target.value) ==> r.targetRetired))
  {
    var relisted := Relist(v, reported);
    assert SameHead(v, relisted);
    var listed := DefaultTarget(relisted);
    var r := ApplyThreads(v, reported);
    if v.target.Some? {
      assert listed == relisted;
      SamePresence(listed, r, v.target.value);
    }
  }

  lemma ApplySnapshotFields(v: View, s: Snapshot)
    ensures var r := ApplyThreads(ApplySnapshot(v, s), s.threads);
            && r.revision == s.revision && r.sequence == s.sequence
            && r.instance == if s.instance == "" then v.instance else Some(s.instance)
  {
    ApplySnapshotHead(v, s);
    ApplyThreadsHead(ApplySnapshot(v, s), s.threads);
  }

  /** The same resources, apart from the states of the threads. */
  ghost predicate SameListing(v: View, r: View)
  {
    && r.sessions == v.sessions && r.groups == v.groups && |r.threads| == |v.threads|
    && forall i :: 0 <= i < |v.threads| ==> r.threads[i].id == v.threads[i].id
  }

  lemma StopKeepsHead(v: View, stop: Stop)
    ensures SameHead(v, HandleStop(v, stop)) && SameListing(v, HandleStop(v, stop))
  {
    var paused := Pause(v, stop);
    assert SameHead(v, paused) && SameListing(v, paused);
    assert SameHead(paused, InspectThread(paused, stop.threadId)) && SameListing(paused, InspectThread(paused, stop.threadId));
  }

  lemma EventKeepsHead(v: View, e: Event)
    ensures SameHead(v, AcceptEvent(v, e)) && SameListing(v, AcceptEvent(v, e))
  {
    if e.activity.Halted? {
      StopKeepsHead(v, e.activity.stop);
    }
  }

  /** Only an applied snapshot changes which projection is shown, and only a choice the target. */
  lemma OtherStepsKeepHead(v: View, step: Step)
    requires !Applies(v, step) && !step.ChooseTarget?
    ensures SameHead(v, After(v, step)) && SameListing(v, After(v, step))
  {
    if step.Notify? {
      EventKeepsHead(v, step.event);
    } else if step.StopSeen? {
      StopKeepsHead(v, step.stop);
    }
  }

  lemma OnlySnapshotsOrder(v: View, step: Step)
    requires !Applies(v, step)
    ensures var r := After(v, step);
            r.revision == v.revision && r.sequence == v.sequence && r.instance == v.instance
  {
    if !step.ChooseTarget? {
      OtherStepsKeepHead(v, step);
    }
  }

  /**
   Under an unchanged instance a message lowers the revision or the sequence iff it is a snapshot
   without an instance identity, which the staleness test cannot place.
   */
  lemma LowersIff(v: View, step: Step)
    requires After(v, step).instance == v.instance
    ensures After(v, step).revision < v.revision || After(v, step).sequence < v.sequence
       <==> && Applies(v, step) && step.snapshot.instance == ""
            && (step.snapshot.revision < v.revision || step.snapshot.sequence < v.sequence)
  {
    if Applies(v, step) {
      ApplySnapshotFields(v, step.snapshot);
    } else {
      OnlySnapshotsOrder(v, step);
    }
  }

  ghost predicate Identified(step: Step)
  {
    step.Stream? || step.Refresh? ==> step.snapshot.instance != ""
  }

  /** While the instance is unchanged, revision and sequence never go back. */
  lemma {:induction false} OrderNeverGoesBack(views: seq<View>, steps: seq<Step>, i: nat, j: nat)
    requires IsRun(views, steps) && i <= j < |views|
    requires forall k :: i <= k < j ==> Identified(steps[k])
    requires forall k :: i <= k <= j ==> views[k].instance == views[i].instance
    ensures views[i].revision <= views[j].revision && views[i].sequence <= views[j].sequence
    decreases j - i
  {
    if i < j {
      assert views[i + 1] == After(views[i], steps[i]);
      assert views[i + 1].instance == views[i].instance;
      LowersIff(views[i], steps[i]);
      OrderNeverGoesBack(views, steps, i + 1, j);
    }
  }

  /** An established instance changes only by an identified stream snapshot, never by a refresh. */
  lemma InstanceChangesOnlyByStream(v: View, step: Step)
    requires v.instance.Some? && After(v, step).instance != v.instance
    ensures step.Stream? && Replaces(v, step.snapshot) && After(v, step).instance == Some(step.snapshot.instance)
  {
    if Applies(v, step) {
      ApplySnapshotFields(v, step.snapshot);
    } else {
      OnlySnapshotsOrder(v, step);
    }
  }

  /** A snapshot without identity can take the revision back. */
  lemma UnidentifiedLowers() returns (views: seq<View>, steps: seq<Step>)
    ensures IsRun(views, steps) && |steps| == 2
    ensures views[2].instance == views[1].instance && views[2].revision < views[1].revision
  {
    var first, second := Snapshot("a", 2, 0, [], [], []), Snapshot("", 1, 0, [], [], []);
    var v := AcceptSnapshot(INITIAL, first);
    ApplySnapshotFields(INITIAL, first);
    assert v.instance == Some("a") && v.revision == 2;
    Unidentified(v, second);
    var one := RunGoesOn([INITIAL], [], Stream(first));
    var two := RunGoesOn([INITIAL] + [one], [] + [Stream(first)], Stream(second));
    views, steps := [INITIAL] + [one] + [two], [] + [Stream(first)] + [Stream(second)];
  }

  lemma Unidentified(v: View, s: Snapshot)
    requires v.instance.Some? && v.instance.value != "" && s.instance == "" && s.revision < v.revision
    ensures AcceptSnapshot(v, s).instance == v.instance && AcceptSnapshot(v, s).revision == s.revision
  {
    ApplySnapshotFields(v, s);
  }

  // Inspection data

  lemma GenerationAdvances(epoch: nat)
    ensures GenerationOf(epoch + 1) == Bump(GenerationOf(epoch))
  {
  }

  /** Two epochs share a generation iff they are equal or a whole turn of the counter apart. */
  lemma GenerationSharedIff(a: nat, b: nat)
    requires a <= b
    ensures GenerationOf(a) == GenerationOf(b) <==> a == b || (a > 0 && (b - a) % U64_MAX == 0)
  {
    if a > 0 {
      var x, y := (a - 1) % U64_MAX, (b - 1) % U64_MAX;
      var p, q := (a - 1) / U64_MAX, (b - 1) / U64_MAX;
      assert a - 1 == p * U64_MAX + x && b - 1 == q * U64_MAX + y;
      assert b - a == (q - p) * U64_MAX + (y - x);
    }
  }

  ghost predicate Fits(v: View, d: Datum)
  {
    d.epoch <= v.epoch && GenerationOf(d.epoch) == v.generation
  }

  ghost predicate AllFit(v: View, data: seq<Datum>)
  {
    forall i :: 0 <= i < |data| ==> Fits(v, data[i])
  }

  /** Everything displayed was delivered by a reply carrying the current generation. */
  ghost predicate Invariant(v: View)
  {
    v.generation == GenerationOf(v.epoch) && AllFit(v, v.variables) && AllFit(v, v.registers) && AllFit(v, v.memory)
  }

  /** Moving to a new epoch empties the displays. */
  ghost predicate Turned(v: View, r: View)
  {
    || (r.epoch == v.epoch && r.generation == v.generation
        && r.variables == v.variables && r.registers == v.registers && r.memory == v.memory)
    || (r.epoch > v.epoch && r.generation == GenerationOf(r.epoch)
        && r.variables == [] && r.registers == [] && r.memory == [])
  }

  lemma TurnedTwice(a: View, b: View, c: View)
    requires Turned(a, b) && Turned(b, c)
    ensures Turned(a, c)
  {
  }

  lemma InvalidateTurns(v: View)
    requires v.generation == GenerationOf(v.epoch)
    ensures Turned(v, InvalidateInspection(v)) && Turned(v, BeginInspection(v)) && Turned(v, BeginFrameInspection(v))
  {
    GenerationAdvances(v.epoch);
  }

  lemma SnapshotTurns(v: View, s: Snapshot)
    requires v.generation == GenerationOf(v.epoch)
    ensures Turned(v, ApplySnapshot(v, s))
    ensures CurrentId(ApplySnapshot(v, s)) != CurrentId(v) ==> ApplySnapshot(v, s).epoch > v.epoch
  {
    var v1 := v.(revision := s.revision, sequence := s.sequence);
    var v2 := Adopt(v1, s);
    InvalidateTurns(v1.(targetRetired := v1.target.Some?));
    assert Turned(v, v2) && CurrentId(v2) == CurrentId(v);
    var v3 := Resources(v2, s);
    ResourcesTurn(v2, s);
    var v4 := Vacate(v3);
    VacateTurns(v3);
    TurnedTwice(v, v2, v3);
    TurnedTwice(v, v3, v4);
    assert ApplySnapshot(v, s) == Reconcile(v4);
  }

  lemma ResourcesTurn(v: View, s: Snapshot)
    requires v.generation == GenerationOf(v.epoch)
    ensures Turned(v, Resources(v, s))
    ensures CurrentId(Resources(v, s)) != CurrentId(v) ==> Resources(v, s).epoch > v.epoch
  {
    InvalidateTurns(Moved(v, s));
  }

  lemma VacateTurns(v: View)
    requires v.generation == GenerationOf(v.epoch)
    ensures Turned(v, Vacate(v))
    ensures Vacate(v) != v ==> Vacate(v).epoch > v.epoch
  {
    GenerationAdvances(v.epoch);
  }

  lemma ThreadsTurn(v: View, reported: seq<ReportedThread>)
    requires v.generation == GenerationOf(v.epoch)
    ensures var r := ApplyThreads(v, reported);
            Turned(v, r) && (CurrentId(r) != CurrentId(v) || !CurrentIsStopped(r) ==> r.epoch > v.epoch)
  {
    var listed := Reconcile(DefaultTarget(Relist(v, reported)));
    InvalidateTurns(listed);
  }

  /**
   After a thread list is applied, inspection data survive only if the selected thread is the one
   that was selected and is still stopped; what survives is exactly what was there.
   */
  lemma DataSurviveOnlyTheSameStop(v: View, s: Snapshot)
    requires Invariant(v) && !SnapshotIsStale(v, s)
    ensures var r := AcceptSnapshot(v, s);
            && Turned(v, r)
            && (r.variables != [] || r.registers != [] || r.memory != [] ==>
                  CurrentId(r) == CurrentId(v) && CurrentIsStopped(r))
  {
    var mid := ApplySnapshot(v, s);
    SnapshotTurns(v, s);
    ThreadsTurn(mid, s.threads);
    TurnedTwice(v, mid, ApplyThreads(mid, s.threads));
  }

  lemma TurnedKeeps(v: View, r: View)
    requires Invariant(v) && Turned(v, r)
    ensures Invariant(r)
  {
  }

  lemma StepKeepsInvariant(v: View, step: Step)
    requires Invariant(v) && Allowed(v, step)
    ensures Invariant(After(v, step))
  {
    var r := After(v, step);
    if Applies(v, step) {
      DataSurviveOnlyTheSameStop(v, step.snapshot);
      TurnedKeeps(v, r);
    } else if step.Notify? {
      InvalidateTurnsEvent(v, step.event);
      TurnedKeeps(v, r);
    } else if step.Inspect? {
      InvalidateTurns(Select(v, step.threadId));
      TurnedKeeps(v, r);
    } else if step.InspectFrame? {
      InvalidateTurns(v);
      TurnedKeeps(v, r);
    } else if step.StopSeen? {
      StopTurns(v, step.stop);
      TurnedKeeps(v, r);
    } else if step.Deliver? {
      DeliverKeeps(v, step);
    }
  }

  lemma InvalidateTurnsEvent(v: View, e: Event)
    requires v.generation == GenerationOf(v.epoch)
    ensures Turned(v, AcceptEvent(v, e))
  {
    if e.activity.Resumed? {
      InvalidateTurns(v.(threads := WithState(v.threads, Some(e.activity.threadId), Running)));
    } else if e.activity.Halted? {
      StopTurns(v, e.activity.stop);
    }
  }

  /** A stop moves the selection where its focus says, and starts an epoch if it inspects. */
  lemma StopTurns(v: View, stop: Stop)
    requires v.generation == GenerationOf(v.epoch)
    ensures Turned(v, HandleStop(v, stop))
    ensures HandleStop(v, stop).epoch == v.epoch ==>
              CurrentId(HandleStop(v, stop)) ==
              if !stop.automatic && stop.focused && HasThread(v.threads, stop.threadId) then Some(stop.threadId) else CurrentId(v)
  {
    if !stop.automatic {
      PauseSelects(v, stop);
      InvalidateTurns(Select(Pause(v, stop), stop.threadId));
    }
  }

  /** A stop with the focus leaves its thread selected and asked about, anew iff that had not been done. */
  lemma FocusedStopInspects(v: View, stop: Stop)
    requires !stop.automatic && stop.focused && HasThread(v.threads, stop.threadId)
    ensures var r := HandleStop(v, stop);
            && CurrentId(r) == Some(stop.threadId) && r.inspected == Some(stop.threadId)
            && r.epoch == (if v.inspected == Some(stop.threadId) then v.epoch else v.epoch + 1)
  {
    PauseSelects(v, stop);
  }

  /** After its inspection has failed, any ordinary stop of the selected thread asks again, with nothing shown. */
  lemma FailedInspectionRetried(v: View, epoch: nat, stop: Stop)
    requires InspectionIsCurrent(v, GenerationOf(epoch), stop.threadId) && !stop.automatic
    ensures var r := HandleStop(ReleaseInspection(v, epoch, stop.threadId), stop);
            && r.epoch == v.epoch + 1 && r.inspected == Some(stop.threadId) == CurrentId(r)
            && forall d :: !Displays(r, d)
  {
    var released := ReleaseInspection(v, epoch, stop.threadId);
    PauseSelects(released, stop);
    assert CurrentId(released) == Some(stop.threadId);
  }

  lemma PauseSelects(v: View, stop: Stop)
    ensures CurrentId(Pause(v, stop)) ==
            if stop.focused && HasThread(v.threads, stop.threadId) then Some(stop.threadId) else CurrentId(v)
    ensures Turned(v, Pause(v, stop)) && Pause(v, stop).generation == v.generation && Pause(v, stop).epoch == v.epoch
  {
    var marked := v.(threads := WithState(v.threads, Some(stop.threadId), Stopped));
    assert forall i :: 0 <= i < |v.threads| ==> marked.threads[i].id == v.threads[i].id;
    assert CurrentId(marked) == CurrentId(v);
  }

  lemma DeliverKeeps(v: View, step: Step)
    requires Invariant(v) && Allowed(v, step) && step.Deliver?
    ensures Invariant(After(v, step))
  {
    if InspectionIsCurrent(v, GenerationOf(step.epoch), step.threadId) {
      ShownFits(v, step.reply, Datum(step.epoch, step.threadId, step.expression, step.payload));
    }
  }

  lemma ShownFits(v: View, reply: Reply, d: Datum)
    requires Invariant(v) && Fits(v, d)
    ensures Invariant(Shown(v, reply, d))
  {
    ExpressionsFit(v);
  }

  lemma ExpressionsFit(v: View)
    requires AllFit(v, v.variables)
    ensures AllFit(v, Expressions(v.variables))
  {
    var kept := Expressions(v.variables);
    FilterMembers(v.variables, (d: Datum) => d.expression);
    forall i | 0 <= i < |kept| ensures Fits(v, kept[i]) {
      assert kept[i] in v.variables;
    }
  }

  /** In every reachable state all displayed data carry the current generation. */
  lemma {:induction false} DataCarryCurrentGeneration(views: seq<View>, steps: seq<Step>, k: nat)
    requires IsRun(views, steps) && k < |views|
    ensures Invariant(views[k])
    ensures forall d :: d in views[k].variables + views[k].registers + views[k].memory ==>
              GenerationOf(d.epoch) == views[k].generation
  {
    if k > 0 {
      DataCarryCurrentGeneration(views, steps, k - 1);
      StepKeepsInvariant(views[k - 1], steps[k - 1]);
    }
  }

  /** Until the counter has turned once, all displayed data were requested in the current epoch. */
  lemma DataOfThisEpoch(views: seq<View>, steps: seq<Step>, k: nat, d: Datum)
    requires IsRun(views, steps) && k < |views| && views[k].epoch <= U64_MAX
    requires d in views[k].variables || d in views[k].registers || d in views[k].memory
    ensures d.epoch == views[k].epoch
  {
    DataCarryCurrentGeneration(views, steps, k);
    assert Fits(views[k], d);
    GenerationSharedIff(d.epoch, views[k].epoch);
  }

  // Which thread the data belong to

  ghost predicate Displays(v: View, d: Datum)
  {
    d in v.variables || d in v.registers || d in v.memory
  }

  lemma {:induction false} ReplyShows(v: View, step: Step, d: Datum)
    requires step.Deliver? && Displays(After(v, step), d) && !Displays(v, d)
    ensures d == Datum(step.epoch, step.threadId, step.expression, step.payload) && CurrentId(v) == Some(d.threadId)
  {
    FilterMembers(v.variables, (x: Datum) => x.expression);
  }

  /** Apart from a reply, a step keeps what is displayed or moves to a new epoch showing nothing. */
  lemma StepTurns(v: View, step: Step)
    requires Invariant(v) && Allowed(v, step) && !step.Deliver?
    ensures Turned(v, After(v, step))
  {
    if Applies(v, step) {
      DataSurviveOnlyTheSameStop(v, step.snapshot);
    } else if step.Notify? {
      InvalidateTurnsEvent(v, step.event);
    } else if step.Inspect? {
      InvalidateTurns(Select(v, step.threadId));
    } else if step.InspectFrame? {
      InvalidateTurns(v);
    } else if step.StopSeen? {
      StopTurns(v, step.stop);
    }
  }

  /** The stop a step is about, if the view takes it. */
  ghost function StopOf(v: View, step: Step): (s: Option<Stop>)
  {
    if step.StopSeen? then Some(step.stop)
    else if step.Notify? && !EventIsStale(v, step.event) && step.event.activity.Halted? then Some(step.event.activity.stop)
    else None
  }

  /** The listed thread that the user's choice, or a stop with the focus, asks to select. */
  ghost function Picked(v: View, step: Step): (id: Option<string>)
  {
    var stop := StopOf(v, step);
    if step.SelectThread? && HasThread(v.threads, step.threadId) then Some(step.threadId)
    else if stop.Some? && !stop.value.automatic && stop.value.focused && HasThread(v.threads, stop.value.threadId)
    then Some(stop.value.threadId)
    else None
  }

  /** Within an epoch only such a selection moves to another thread. */
  lemma SelectionMoves(v: View, step: Step)
    requires Invariant(v) && Allowed(v, step) && After(v, step).epoch == v.epoch
    ensures CurrentId(After(v, step)) == if Picked(v, step).Some? then Picked(v, step) else CurrentId(v)
  {
    if StopOf(v, step).Some? {
      StopMoves(v, step, StopOf(v, step).value);
    } else if Applies(v, step) {
      AppliedMoves(v, step);
    } else if step.Notify? {
      EventKeepsSelection(v, step.event);
    } else {
      OtherKeepsSelection(v, step);
    }
  }

  lemma StopMoves(v: View, step: Step, stop: Stop)
    requires Invariant(v) && StopOf(v, step) == Some(stop) && After(v, step).epoch == v.epoch
    ensures CurrentId(After(v, step)) == if Picked(v, step).Some? then Picked(v, step) else CurrentId(v)
  {
    assert After(v, step) == HandleStop(v, stop);
    StopTurns(v, stop);
  }

  lemma AppliedMoves(v: View, step: Step)
    requires Invariant(v) && Applies(v, step) && After(v, step).epoch == v.epoch
    ensures Picked(v, step).None? && CurrentId(After(v, step)) == CurrentId(v)
  {
    AppliedAfter(v, step);
    SnapshotKeepsSelection(v, step.snapshot);
  }

  lemma AppliedAfter(v: View, step: Step)
    requires Applies(v, step)
    ensures After(v, step) == ApplyThreads(ApplySnapshot(v, step.snapshot), step.snapshot.threads)
  {
  }

  lemma OtherKeepsSelection(v: View, step: Step)
    requires After(v, step).epoch == v.epoch && !Applies(v, step) && !step.Notify? && !step.StopSeen?
    ensures CurrentId(After(v, step)) == if Picked(v, step).Some? then Picked(v, step) else CurrentId(v)
  {
  }

  lemma SnapshotKeepsSelection(v: View, s: Snapshot)
    requires Invariant(v) && ApplyThreads(ApplySnapshot(v, s), s.threads).epoch == v.epoch
    ensures CurrentId(ApplyThreads(ApplySnapshot(v, s), s.threads)) == CurrentId(v)
  {
    SnapshotTurns(v, s);
    ThreadsTurn(ApplySnapshot(v, s), s.threads);
  }

  lemma EventKeepsSelection(v: View, e: Event)
    requires (EventIsStale(v, e) || !e.activity.Halted?) && AcceptEvent(v, e).epoch == v.epoch
    ensures CurrentId(AcceptEvent(v, e)) == CurrentId(v)
  {
  }

  /** What is displayed after a step was displayed before in the same epoch, or is the reply. */
  lemma StepDisplays(v: View, step: Step, d: Datum)
    requires Invariant(v) && Allowed(v, step) && Displays(After(v, step), d)
    ensures After(v, step).epoch == v.epoch
    ensures Displays(v, d) || (step.Deliver? && CurrentId(v) == Some(d.threadId)
                               && d == Datum(step.epoch, step.threadId, step.expression, step.payload))
  {
    if step.Deliver? {
      if !Displays(v, d) {
        ReplyShows(v, step, d);
      }
    } else {
      StepTurns(v, step);
    }
  }

  /** The same, as a relation between neighbouring views. */
  ghost predicate Carries(v: View, step: Step, r: View, d: Datum)
  {
    Displays(r, d) ==>
      && r.epoch == v.epoch
      && (Displays(v, d) || (step.Deliver? && CurrentId(v) == Some(d.threadId)
                             && d == Datum(step.epoch, step.threadId, step.expression, step.payload)))
  }

  lemma RunCarries(views: seq<View>, steps: seq<Step>, d: Datum)
    requires IsRun(views, steps)
    ensures forall m :: 0 <= m < |steps| ==> Carries(views[m], steps[m], views[m + 1], d)
  {
    forall m | 0 <= m < |steps| ensures Carries(views[m], steps[m], views[m + 1], d) {
      DataCarryCurrentGeneration(views, steps, m);
      if Displays(views[m + 1], d) {
        StepDisplays(views[m], steps[m], d);
      }
    }
  }

  lemma {:induction false} CarriedFrom(views: seq<View>, steps: seq<Step>, k: nat, d: Datum) returns (j: nat)
    requires k < |views| == |steps| + 1 && !Displays(views[0], d) && Displays(views[k], d)
    requires forall m :: 0 <= m < |steps| ==> Carries(views[m], steps[m], views[m + 1], d)
    ensures j < k && steps[j].Deliver? && CurrentId(views[j]) == Some(d.threadId)
    ensures d == Datum(steps[j].epoch, steps[j].threadId, steps[j].expression, steps[j].payload)
    ensures forall m :: j <= m <= k ==> views[m].epoch == views[k].epoch
    decreases k
  {
    assert Carries(views[k - 1], steps[k - 1], views[k - 1 + 1], d);
    if Displays(views[k - 1], d) {
      j := CarriedFrom(views, steps, k - 1, d);
    } else {
      j := k - 1;
    }
  }

  /** Everything displayed was delivered in this epoch, for the thread then selected. */
  lemma DeliveredAt(views: seq<View>, steps: seq<Step>, k: nat, d: Datum) returns (j: nat)
    requires IsRun(views, steps) && k < |views| && Displays(views[k], d)
    ensures j < k && steps[j].Deliver? && CurrentId(views[j]) == Some(d.threadId)
    ensures d == Datum(steps[j].epoch, steps[j].threadId, steps[j].expression, steps[j].payload)
    ensures forall m :: j <= m <= k ==> views[m].epoch == views[k].epoch
  {
    RunCarries(views, steps, d);
    j := CarriedFrom(views, steps, k, d);
  }

  /** The thread last picked from step `j` on, by the user or by a stop with the focus, if any. */
  ghost function LastPicked(views: seq<View>, steps: seq<Step>, j: nat, k: nat): (id: Option<string>)
    requires j <= k <= |steps| <= |views|
    decreases k
  {
    if k == j then None
    else if Picked(views[k - 1], steps[k - 1]).Some? then Picked(views[k - 1], steps[k - 1])
    else LastPicked(views, steps, j, k - 1)
  }

  /** A step of the run, as far as the selection is concerned. */
  ghost predicate PicksTo(v: View, step: Step, r: View)
  {
    r.epoch == v.epoch ==> CurrentId(r) == if Picked(v, step).Some? then Picked(v, step) else CurrentId(v)
  }

  lemma {:induction false} PickedInEpoch(views: seq<View>, steps: seq<Step>, j: nat, k: nat)
    requires j <= k < |views| == |steps| + 1
    requires forall i :: j <= i < k ==> PicksTo(views[i], steps[i], views[i + 1])
    requires forall m :: j <= m <= k ==> views[m].epoch == views[k].epoch
    ensures var last := LastPicked(views, steps, j, k);
            CurrentId(views[k]) == if last.Some? then last else CurrentId(views[j])
    decreases k
  {
    if j < k {
      assert views[k - 1].epoch == views[k].epoch;
      PickedInEpoch(views, steps, j, k - 1);
      assert PicksTo(views[k - 1], steps[k - 1], views[k - 1 + 1]);
    }
  }

  lemma SelectionInEpoch(views: seq<View>, steps: seq<Step>, j: nat, k: nat)
    requires IsRun(views, steps) && j <= k < |views|
    requires forall m :: j <= m <= k ==> views[m].epoch == views[k].epoch
    ensures var last := LastPicked(views, steps, j, k);
            CurrentId(views[k]) == if last.Some? then last else CurrentId(views[j])
  {
    forall i | j <= i < k ensures PicksTo(views[i], steps[i], views[i + 1]) {
      RunPicks(views, steps, i);
    }
    PickedInEpoch(views, steps, j, k);
  }

  lemma RunPicks(views: seq<View>, steps: seq<Step>, i: nat)
    requires IsRun(views, steps) && i < |steps|
    ensures PicksTo(views[i], steps[i], views[i + 1])
  {
    RunStep(views, steps, i);
    DataCarryCurrentGeneration(views, steps, i);
    if views[i + 1].epoch == views[i].epoch {
      SelectionMovesTo(views[i], steps[i], views[i + 1]);
    }
  }

  lemma RunStep(views: seq<View>, steps: seq<Step>, i: nat)
    requires IsRun(views, steps) && i < |steps|
    ensures Allowed(views[i], steps[i]) && views[i + 1] == After(views[i], steps[i])
  {
  }

  lemma SelectionMovesTo(v: View, step: Step, r: View)
    requires Invariant(v) && Allowed(v, step) && r == After(v, step) && r.epoch == v.epoch
    ensures CurrentId(r) == if Picked(v, step).Some? then Picked(v, step) else CurrentId(v)
  {
    SelectionMoves(v, step);
  }

  /**
   A displayed datum names the selected thread iff, since it was delivered, neither the user nor a stop
   with the focus has picked a thread, or the last one picked is the thread of the datum.
   */
  lemma DatumNamesSelectedIff(views: seq<View>, steps: seq<Step>, k: nat, d: Datum) returns (j: nat)
    requires IsRun(views, steps) && k < |views| && Displays(views[k], d)
    ensures j < k && steps[j].Deliver? && CurrentId(views[j]) == Some(d.threadId)
    ensures d == Datum(steps[j].epoch, steps[j].threadId, steps[j].expression, steps[j].payload)
    ensures CurrentId(views[k]) == Some(d.threadId)
       <==> LastPicked(views, steps, j, k) == None || LastPicked(views, steps, j, k) == Some(d.threadId)
  {
    j := DeliveredAt(views, steps, k, d);
    SelectionInEpoch(views, steps, j, k);
  }

  /** A run goes on by one more allowed step. */
  lemma RunGoesOn(views: seq<View>, steps: seq<Step>, step: Step) returns (next: View)
    requires IsRun(views, steps) && Allowed(views[|views| - 1], step)
    ensures next == After(views[|views| - 1], step) && IsRun(views + [next], steps + [step])
  {
    next := After(views[|views| - 1], step);
    var vs, ss := views + [next], steps + [step];
    forall i | 0 <= i < |ss| ensures Allowed(vs[i], ss[i]) && vs[i + 1] == After(vs[i], ss[i]) {
      if i < |steps| {
        assert vs[i] == views[i] && vs[i + 1] == views[i + 1] && ss[i] == steps[i];
      }
    }
  }

  /** A reply of an earlier epoch is shown iff the counter has made whole turns since its request. */
  lemma StaleReplyShownIff(v: View, reply: Reply, epoch: nat, id: string, expression: bool, payload: string)
    requires Invariant(v) && epoch < v.epoch && CurrentId(v) == Some(id)
    ensures AcceptReply(v, reply, epoch, id, expression, payload) ==
              if epoch > 0 && (v.epoch - epoch) % U64_MAX == 0
              then Shown(v, reply, Datum(epoch, id, expression, payload)) else v
  {
    GenerationSharedIff(epoch, v.epoch);
  }

  // The execution target

  lemma SnapshotTarget(v: View, s: Snapshot)
    requires v.target.Some?
    ensures var r := ApplyThreads(ApplySnapshot(v, s), s.threads);
            && r.target == v.target
            && (v.targetRetired || Replaces(v, s) || !TargetIsPresent(r, v.target.value) ==> r.targetRetired)
  {
    ApplySnapshotHead(v, s);
    ApplyThreadsHead(ApplySnapshot(v, s), s.threads);
  }

  lemma {:induction false} SamePresence(v: View, r: View, target: Target)
    requires SameListing(v, r)
    ensures TargetIsPresent(v, target) <==> TargetIsPresent(r, target)
    decreases target
  {
    if target.Thread? {
      forall i | 0 <= i < |v.threads| ensures v.threads[i].id == r.threads[i].id {
      }
    } else if target.Multiple? {
      forall i | 0 <= i < |target.targets|
        ensures TargetIsPresent(v, target.targets[i]) <==> TargetIsPresent(r, target.targets[i])
      {
        SamePresence(v, r, target.targets[i]);
      }
    }
  }

  lemma StepKeepsTarget(v: View, step: Step)
    requires v.target.Some? && !step.ChooseTarget?
    ensures After(v, step).target == v.target
    ensures v.targetRetired ==> After(v, step).targetRetired
  {
    if Applies(v, step) {
      SnapshotTarget(v, step.snapshot);
    } else {
      OtherStepsKeepHead(v, step);
    }
  }

  /** Applying the snapshot retires the target: another backend, or a list of threads without it. */
  ghost predicate Retires(v: View, s: Snapshot, target: Target)
  {
    || Replaces(v, s)
    || !TargetIsPresent(ApplySnapshot(v, s), target)
    || !TargetIsPresent(ApplyThreads(ApplySnapshot(v, s), s.threads), target)
  }

  /** The projection applied by step `k` loses the target, for good or on the way. */
  ghost predicate Loses(views: seq<View>, steps: seq<Step>, k: nat, target: Target)
    requires k < |steps| && |views| == |steps| + 1
  {
    Applies(views[k], steps[k]) && Retires(views[k], steps[k].snapshot, target)
  }

  lemma ApplySnapshotRetiredIff(v: View, s: Snapshot, target: Target)
    requires v.target == Some(target)
    ensures var r := ApplySnapshot(v, s);
            r.targetRetired <==> v.targetRetired || Replaces(v, s) || !TargetIsPresent(r, target)
  {
    var v1 := v.(revision := s.revision, sequence := s.sequence);
    assert Replaces(v1, s) <==> Replaces(v, s);
    var v2 := Adopt(v1, s);
    var v4 := Vacate(Resources(v2, s));
    ResourcesKeepHead(v2, s);
    SamePresence(v4, Reconcile(v4), target);
  }

  lemma ApplyThreadsRetiredIff(v: View, reported: seq<ReportedThread>, target: Target)
    requires v.target == Some(target)
    ensures var r := ApplyThreads(v, reported);
            r.targetRetired <==> v.targetRetired || !TargetIsPresent(r, target)
  {
    var listed := DefaultTarget(Relist(v, reported));
    SamePresence(listed, ApplyThreads(v, reported), target);
  }

  lemma StepRetiresIff(v: View, step: Step, target: Target)
    requires v.target == Some(target) && !step.ChooseTarget?
    ensures After(v, step).targetRetired <==>
              v.targetRetired || (Applies(v, step) && Retires(v, step.snapshot, target))
  {
    if Applies(v, step) {
      ApplySnapshotHead(v, step.snapshot);
      ApplySnapshotRetiredIff(v, step.snapshot, target);
      ApplyThreadsRetiredIff(ApplySnapshot(v, step.snapshot), step.snapshot.threads, target);
    } else {
      OtherStepsKeepHead(v, step);
    }
  }

  /** A target that is not retired stays present: only an applied snapshot takes it away, and then retires it. */
  lemma StepKeepsPresence(v: View, step: Step, target: Target)
    requires v.target == Some(target) && !step.ChooseTarget?
    requires v.targetRetired || TargetIsPresent(v, target)
    ensures After(v, step).targetRetired || TargetIsPresent(After(v, step), target)
  {
    if Applies(v, step) {
      StepRetiresIff(v, step, target);
    } else {
      OtherStepsKeepHead(v, step);
      SamePresence(v, After(v, step), target);
    }
  }

  /** A step keeps the target, retires it iff `lost`, and leaves it present unless retired. */
  ghost predicate HoldsTarget(v: View, r: View, target: Target, lost: bool)
  {
    v.target == Some(target) ==>
      && r.target == Some(target) && (r.targetRetired <==> v.targetRetired || lost)
      && (v.targetRetired || TargetIsPresent(v, target) ==> r.targetRetired || TargetIsPresent(r, target))
  }

  lemma {:induction false} TargetHeld(views: seq<View>, lost: seq<bool>, i: nat, j: nat, target: Target)
    requires i <= j < |views| == |lost| + 1 && views[i].target == Some(target)
    requires forall k :: i <= k < j ==> HoldsTarget(views[k], views[k + 1], target, lost[k])
    ensures views[j].target == Some(target)
    ensures views[j].targetRetired <==> views[i].targetRetired || exists k :: i <= k < j && lost[k]
    ensures views[i].targetRetired || TargetIsPresent(views[i], target) ==>
              views[j].targetRetired || TargetIsPresent(views[j], target)
    decreases j - i
  {
    if i < j {
      TargetHeld(views, lost, i, j - 1, target);
      assert HoldsTarget(views[j - 1], views[j - 1 + 1], target, lost[j - 1]);
    }
  }

  ghost function Losses(views: seq<View>, steps: seq<Step>, target: Target): (lost: seq<bool>)
    requires |views| == |steps| + 1
    ensures |lost| == |steps| && forall k :: 0 <= k < |steps| ==> (lost[k] <==> Loses(views, steps, k, target))
  {
    seq(|steps|, k requires 0 <= k < |steps| => Loses(views, steps, k, target))
  }

  lemma RunHoldsTarget(views: seq<View>, steps: seq<Step>, k: nat, target: Target)
    requires IsRun(views, steps) && k < |steps| && !steps[k].ChooseTarget?
    ensures HoldsTarget(views[k], views[k + 1], target, Loses(views, steps, k, target))
  {
    if views[k].target == Some(target) {
      StepKeepsTarget(views[k], steps[k]);
      StepRetiresIff(views[k], steps[k], target);
      if views[k].targetRetired || TargetIsPresent(views[k], target) {
        StepKeepsPresence(views[k], steps[k], target);
      }
    }
  }

  /**
   Until the user chooses again the target stays what it was and is retired iff some applied projection
   has lost it, even if the identity comes back. If it was present when chosen, controls reach it for
   just as long as none has, and reach nothing afterwards.
   */
  lemma TargetNeverMoves(views: seq<View>, steps: seq<Step>, i: nat, j: nat, target: Target)
    requires IsRun(views, steps) && i <= j < |views| && views[i].target == Some(target)
    requires forall k :: i <= k < j ==> !steps[k].ChooseTarget?
    ensures views[j].target == Some(target)
    ensures views[j].targetRetired <==> views[i].targetRetired || exists k :: i <= k < j && Loses(views, steps, k, target)
    ensures ExecutionTarget(views[j]) == None || ExecutionTarget(views[j]) == Some(target)
    ensures !views[i].targetRetired && TargetIsPresent(views[i], target) ==>
              (ExecutionTarget(views[j]) == Some(target) <==> !exists k :: i <= k < j && Loses(views, steps, k, target))
  {
    var lost := Losses(views, steps, target);
    forall k | i <= k < j ensures HoldsTarget(views[k], views[k + 1], target, lost[k]) {
      RunHoldsTarget(views, steps, k, target);
    }
    TargetHeld(views, lost, i, j, target);
  }
}
