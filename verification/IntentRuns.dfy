/**
 What holds of the intent tracker over every run of its operations.
 */
module IntentRuns {
  import opened Wrappers
  import opened Intents

  datatype Step =
    | Queue(caption: string, control: Option<Control>)
    | Update(ticket: nat, update: Intents.Update, now: nat)
    | Disconnect(replaced: bool)
    | Tick(now: nat)

  /** A control is queued only while the same control is not pending for the same target. */
  ghost predicate Allowed(f: Tracker, step: Step)
  {
    step.Queue? && step.control.Some? ==> !ControlPending(f.entries, step.control.value)
  }

  ghost function After(f: Tracker, step: Step): (r: Tracker)
  {
    match step
    case Queue(caption, control) => Intents.Queue(f, caption, control)
    case Update(ticket, update, now) => UpdateTicket(f, ticket, update, now)
    case Disconnect(replaced) => Disconnected(f, replaced)
    case Tick(now) => Ticked(f, now)
  }

  // The invariant

  ghost predicate TicketsRise(entries: seq<Entry<nat>>)
  {
    forall i, j :: 0 <= i < j < |entries| ==> entries[i].ticket < entries[j].ticket
  }

  /** No two active intents are the same control on the same target. */
  ghost predicate ControlsDistinct(entries: seq<Entry<nat>>)
  {
    forall i, j ::
      0 <= i < j < |entries| && entries[i].state.Active() && entries[j].state.Active() && entries[i].control.Some?
      ==> entries[i].control != entries[j].control
  }

  ghost predicate EntryFits(f: Tracker, e: Entry<nat>)
  {
    && 0 < e.ticket <= f.nextTicket
    && e.guard <= f.generation
    && (e.state.Active() ==> e.guard == f.generation)
    && (e.operationId.Some? ==> e.operationId.value != "")
    && (e.state.Pending? || e.state.Completed? ==> e.operationId.Some?)
  }

  ghost predicate Invariant(f: Tracker)
  {
    && f.nextTicket <= TICKET_MAX
    && |f.entries| <= HISTORY_LIMIT
    && TicketsRise(f.entries)
    && ControlsDistinct(f.entries)
    && forall i :: 0 <= i < |f.entries| ==> EntryFits(f, f.entries[i])
  }

  lemma StepKeepsInvariant(f: Tracker, step: Step)
    requires Invariant(f) && Allowed(f, step)
    ensures Invariant(After(f, step))
  {
    match step
    case Queue(caption, control) => QueueKeepsInvariant(f, caption, control);
    case Update(ticket, update, now) => UpdateKeepsInvariant(f, ticket, update, now);
    case Disconnect(replaced) => DisconnectKeepsInvariant(f, replaced);
    case Tick(now) => TickKeepsInvariant(f, now);
  }

  lemma DisconnectKeepsInvariant(f: Tracker, replaced: bool)
    requires Invariant(f)
    ensures Invariant(Disconnected(f, replaced))
  {
  }

  lemma TickKeepsInvariant(f: Tracker, now: nat)
    requires Invariant(f)
    ensures Invariant(Ticked(f, now))
  {
  }

  lemma QueueKeepsInvariant(f: Tracker, caption: string, control: Option<Control>)
    requires Invariant(f) && (control.Some? ==> !ControlPending(f.entries, control.value))
    ensures Invariant(Intents.Queue(f, caption, control))
  {
    var g := Intents.Queue(f, caption, control);
    var kept := Evicted(f.entries);
    if Overloaded(f.entries) {
      assert g == f;
    } else if f.nextTicket == TICKET_MAX {
      assert g == f.(entries := kept);
      EvictedFits(f);
    } else {
      assert g == Tracker(f.nextTicket + 1,
                    kept + [Fresh(f.nextTicket + 1, caption, f.generation, control)], f.generation);
      AppendKeeps(f, kept, caption, control);
    }
  }

  lemma EvictedFits(f: Tracker)
    requires Invariant(f)
    ensures Invariant(f.(entries := Evicted(f.entries)))
  {
    var kept := Evicted(f.entries);
    var g := f.(entries := kept);
    assert |kept| <= |f.entries|;
    forall i | 0 <= i < |kept| ensures EntryFits(g, kept[i]) {
      assert kept[i] in kept;
      assert EntryFits(f, kept[i]);
    }
  }

  lemma AppendKeeps(f: Tracker, kept: seq<Entry<nat>>, caption: string, control: Option<Control>)
    requires f.nextTicket < TICKET_MAX && |kept| < HISTORY_LIMIT
    requires TicketsRise(kept) && ControlsDistinct(kept)
    requires forall e :: e in kept ==> e in f.entries && EntryFits(f, e)
    requires control.Some? ==> !ControlPending(f.entries, control.value)
    ensures Invariant(Tracker(f.nextTicket + 1,
              kept + [Fresh(f.nextTicket + 1, caption, f.generation, control)], f.generation))
  {
    forall i | 0 <= i < |kept| && kept[i].state.Active() && kept[i].control.Some?
      ensures kept[i].control != control
    {
      assert kept[i] in kept;
      var j :| 0 <= j < |f.entries| && f.entries[j] == kept[i];
    }
    assert forall i :: 0 <= i < |kept| ==> EntryFits(f, kept[i]);
  }

  lemma UpdateKeepsInvariant(f: Tracker, ticket: nat, update: Intents.Update, now: nat)
    requires Invariant(f)
    ensures Invariant(UpdateTicket(f, ticket, update, now))
  {
    var i := PositionOf(f.entries, ticket);
    if i < |f.entries| {
      var e := f.entries[i];
      UpdatedSucceeds(f, i, update, now);
    }
  }

  /** An entry that can take the place of the one at `i`. */
  ghost predicate Succeeds(f: Tracker, i: nat, e: Entry<nat>)
  {
    && i < |f.entries| && EntryFits(f, e)
    && e.ticket == f.entries[i].ticket && e.control == f.entries[i].control
    && (e.state.Active() ==> f.entries[i].state.Active())
  }

  lemma UpdatedSucceeds(f: Tracker, i: nat, update: Intents.Update, now: nat)
    requires Invariant(f) && i < |f.entries|
    ensures Succeeds(f, i, Updated(f.entries[i], f.entries[i].guard < f.generation, update, now))
  {
  }

  // How one entry moves

  ghost function Lookup(f: Tracker, ticket: nat): (e: Option<Entry<nat>>)
  {
    var i := PositionOf(f.entries, ticket);
    if i < |f.entries| then Some(f.entries[i]) else None
  }

  /** Equal apart from dismissal, which is never taken back. */
  ghost predicate Frozen(a: Entry<nat>, b: Entry<nat>)
  {
    b == a.(dismissed := b.dismissed) && (a.dismissed ==> b.dismissed)
  }

  /** `b` is a later form of `a`, seen from a state in which generation `generation` is live. */
  ghost predicate Moves(a: Entry<nat>, b: Entry<nat>, generation: nat)
  {
    && b.ticket == a.ticket && b.caption == a.caption && b.guard == a.guard && b.control == a.control
    && a.state.Rank() <= b.state.Rank()
    && (a.operationId.Some? ==> b.operationId == a.operationId)
    && (a.dismissed ==> b.dismissed)
    && (a.state.Terminal() || a.guard < generation ==> Frozen(a, b))
  }

  /** What one step may do to the history as a whole. */
  ghost predicate Follows(f: Tracker, g: Tracker)
  {
    && f.nextTicket <= g.nextTicket && f.generation <= g.generation
    && (forall t: nat :: Lookup(g, t).Some? ==>
          || t > f.nextTicket
          || (Lookup(f, t).Some? && Moves(Lookup(f, t).value, Lookup(g, t).value, f.generation)))
    && (forall t: nat :: Lookup(f, t).Some? && Lookup(f, t).value.state.Active() ==> Lookup(g, t).Some?)
  }

  lemma LookupIndex(f: Tracker, i: nat)
    requires TicketsRise(f.entries) && i < |f.entries|
    ensures Lookup(f, f.entries[i].ticket) == Some(f.entries[i])
  {
    var k := PositionOf(f.entries, f.entries[i].ticket);
    assert k <= i;
    assert k < |f.entries| ==> f.entries[k].ticket == f.entries[i].ticket;
  }

  lemma AdvanceMoves(e: Entry<nat>, update: Intents.Update)
    requires !e.state.Terminal() && Advance(e, update).Some?
    ensures e.state.Rank() <= Advance(e, update).value.state.Rank()
    ensures e.operationId.Some? ==> Advance(e, update).value.operationId == e.operationId
    ensures Advance(e, update).value.guard == e.guard
  {
    match update
    case Started =>
    case Error(_) =>
    case Admitted(operation) => ReceiveMoves(e, operation);
    case Finished(operation) => ReceiveMoves(e, operation);
  }

  lemma ReceiveMoves(e: Entry<nat>, operation: Operation)
    requires !e.state.Terminal()
    ensures e.state.Rank() <= Receive(e, operation).state.Rank()
    ensures Receive(e, operation).operationId == Some(operation.id) && Receive(e, operation).guard == e.guard
  {
  }

  lemma UpdatedMoves(f: Tracker, e: Entry<nat>, update: Intents.Update, now: nat)
    requires EntryFits(f, e)
    ensures Moves(e, Updated(e, e.guard < f.generation, update, now), f.generation)
  {
    if Accepts(e, e.guard < f.generation) && Advance(e, update).Some? {
      AdvanceMoves(e, update);
    }
  }

  lemma PointwiseFollows(f: Tracker, g: Tracker)
    requires |g.entries| == |f.entries|
    requires f.nextTicket == g.nextTicket && f.generation <= g.generation
    requires forall i :: 0 <= i < |f.entries| ==> Moves(f.entries[i], g.entries[i], f.generation)
    ensures Follows(f, g)
  {
    forall t: nat ensures PositionOf(g.entries, t) == PositionOf(f.entries, t) {
    }
  }

  lemma QueueFollows(f: Tracker, caption: string, control: Option<Control>)
    requires Invariant(f)
    ensures Follows(f, Intents.Queue(f, caption, control))
  {
    var g := Intents.Queue(f, caption, control);
    var kept := Evicted(f.entries);
    forall t: nat | Lookup(g, t).Some? && t <= f.nextTicket
      ensures Lookup(f, t).Some? && Moves(Lookup(f, t).value, Lookup(g, t).value, f.generation)
    {
      var e := Lookup(g, t).value;
      assert e in kept;
      assert e in f.entries;
      var i :| 0 <= i < |f.entries| && f.entries[i] == e;
      LookupIndex(f, i);
    }
    forall t: nat | Lookup(f, t).Some? && Lookup(f, t).value.state.Active() ensures Lookup(g, t).Some? {
      var e := Lookup(f, t).value;
      assert e in kept by { EvictionSparesActive(f.entries, PositionOf(f.entries, t)); }
      assert e in g.entries;
    }
  }

  lemma EvictionSparesActive(entries: seq<Entry<nat>>, i: nat)
    requires i < |entries| && entries[i].state.Active()
    ensures entries[i] in Evicted(entries)
  {
  }

  lemma StepFollows(f: Tracker, step: Step)
    requires Invariant(f)
    ensures Follows(f, After(f, step))
  {
    var g := After(f, step);
    match step
    case Queue(caption, control) => QueueFollows(f, caption, control);
    case Update(ticket, update, now) =>
      var k := PositionOf(f.entries, ticket);
      if k < |f.entries| {
        UpdatedMoves(f, f.entries[k], update, now);
      }
      PointwiseFollows(f, g);
    case Disconnect(replaced) =>
      forall i | 0 <= i < |f.entries| ensures Moves(f.entries[i], g.entries[i], f.generation) {
        assert EntryFits(f, f.entries[i]);
      }
      PointwiseFollows(f, g);
    case Tick(now) => PointwiseFollows(f, g);
  }

  // Whole runs

  ghost predicate IsRun(states: seq<Tracker>, steps: seq<Step>)
  {
    && |states| == |steps| + 1
    && states[0] == EMPTY
    && forall i :: 0 <= i < |steps| ==> Allowed(states[i], steps[i]) && states[i + 1] == After(states[i], steps[i])
  }

  /**
   In every reachable state the history holds at most 64 entries under rising tickets, active intents
   carry the live guard and no two of them are the same control on the same target.
   */
  lemma {:induction false} RunKeepsInvariant(states: seq<Tracker>, steps: seq<Step>, k: nat)
    requires IsRun(states, steps) && k < |states|
    ensures Invariant(states[k])
  {
    if k > 0 {
      RunKeepsInvariant(states, steps, k - 1);
      StepKeepsInvariant(states[k - 1], steps[k - 1]);
    }
  }

  /** An intent seen in two states of a run has only moved forward in between. */
  lemma {:induction false} IntentOnlyAdvances(states: seq<Tracker>, steps: seq<Step>, i: nat, j: nat, t: nat)
    requires IsRun(states, steps) && i <= j < |states|
    requires Lookup(states[j], t).Some? && t <= states[i].nextTicket
    ensures Lookup(states[i], t).Some?
    ensures Moves(Lookup(states[i], t).value, Lookup(states[j], t).value, states[i].generation)
    ensures states[i].nextTicket <= states[j].nextTicket && states[i].generation <= states[j].generation
    decreases j - i
  {
    if i < j {
      RunKeepsInvariant(states, steps, i);
      StepFollows(states[i], steps[i]);
      assert Follows(states[i], states[i + 1]);
      IntentOnlyAdvances(states, steps, i + 1, j, t);
    }
  }

  /** An intent that is active stays in the history until it has ceased to be active. */
  lemma {:induction false} ActiveStaysUntilSettled(states: seq<Tracker>, steps: seq<Step>, i: nat, j: nat, t: nat)
    requires IsRun(states, steps) && i <= j < |states|
    requires Lookup(states[i], t).Some? && Lookup(states[i], t).value.state.Active()
    ensures Lookup(states[j], t).Some? ||
            exists k :: i < k < j && Lookup(states[k], t).Some? && !Lookup(states[k], t).value.state.Active()
    decreases j - i
  {
    if i < j {
      RunKeepsInvariant(states, steps, i);
      StepFollows(states[i], steps[i]);
      assert Follows(states[i], states[i + 1]);
      if i + 1 < j && Lookup(states[i + 1], t).value.state.Active() {
        ActiveStaysUntilSettled(states, steps, i + 1, j, t);
      }
    }
  }

  // What an outcome proves

  /** The update that establishes full success of operation `id`. */
  ghost predicate ConfirmsSuccess(step: Step, t: nat, id: string)
  {
    && step.Update? && step.ticket == t
    && (step.update.Admitted? || step.update.Finished?)
    && step.update.operation.id == id && id != ""
    && step.update.operation.state.Done?
    && forall i :: 0 <= i < |step.update.operation.outcomes| ==> step.update.operation.outcomes[i]
  }

  /** `b` is completed because `a` was, or because of `step`. */
  ghost predicate Explained(a: Option<Entry<nat>>, b: Entry<nat>, step: Step)
  {
    || (a.Some? && a.value.state.Completed? && b.operationId == a.value.operationId)
    || (b.operationId.Some? && ConfirmsSuccess(step, b.ticket, b.operationId.value))
  }

  lemma ReceiptCompletes(e: Entry<nat>, operation: Operation)
    requires !e.state.Completed? && Acknowledge(e, operation).Some?
    requires Acknowledge(e, operation).value.state.Completed?
    ensures operation.id != "" && operation.state.Done?
    ensures Acknowledge(e, operation).value.operationId == Some(operation.id)
    ensures forall i :: 0 <= i < |operation.outcomes| ==> operation.outcomes[i]
  {
  }

  lemma UpdateCompletes(e: Entry<nat>, retired: bool, ticket: nat, update: Intents.Update, now: nat)
    requires Updated(e, retired, update, now).state.Completed? && ticket == e.ticket
    ensures Explained(Some(e), Updated(e, retired, update, now), Update(ticket, update, now))
  {
    if Accepts(e, retired) && Advance(e, update).Some? {
      match update
      case Started =>
      case Error(_) =>
      case Admitted(operation) => ReceiptCompletes(e, operation);
      case Finished(operation) => ReceiptCompletes(e, operation);
    }
  }

  lemma CompletionStep(f: Tracker, step: Step, t: nat)
    requires Invariant(f)
    requires Lookup(After(f, step), t).Some? && Lookup(After(f, step), t).value.state.Completed?
    ensures Explained(Lookup(f, t), Lookup(After(f, step), t).value, step)
  {
    var g := After(f, step);
    if step.Queue? {
      QueueSettlesNothing(f, step.caption, step.control, t);
    } else {
      assert forall i :: 0 <= i < |f.entries| ==> g.entries[i].ticket == f.entries[i].ticket by {
        if step.Update? {
          UpdateKeepsTickets(f, step.ticket, step.update, step.now);
        }
      }
      if step.Update? && step.ticket == t {
        var e := Lookup(f, t).value;
        UpdateCompletes(e, e.guard < f.generation, t, step.update, step.now);
      }
    }
  }

  lemma UpdateKeepsTickets(f: Tracker, ticket: nat, update: Intents.Update, now: nat)
    requires Invariant(f)
    ensures var g := UpdateTicket(f, ticket, update, now);
            |g.entries| == |f.entries| && forall i :: 0 <= i < |f.entries| ==> g.entries[i].ticket == f.entries[i].ticket
  {
    var i := PositionOf(f.entries, ticket);
    if i < |f.entries| {
      UpdatedMoves(f, f.entries[i], update, now);
    }
  }

  lemma QueueSettlesNothing(f: Tracker, caption: string, control: Option<Control>, t: nat)
    requires Invariant(f)
    requires Lookup(Intents.Queue(f, caption, control), t).Some?
    requires Lookup(Intents.Queue(f, caption, control), t).value.state.Terminal()
    ensures Lookup(f, t) == Lookup(Intents.Queue(f, caption, control), t)
  {
    var e := Lookup(Intents.Queue(f, caption, control), t).value;
    assert e in Evicted(f.entries);
    var i :| 0 <= i < |f.entries| && f.entries[i] == e;
    LookupIndex(f, i);
  }

  /** An intent is shown completed only after a receipt for its own operation with no failed target. */
  lemma {:induction false} CompletedHasReceipt(states: seq<Tracker>, steps: seq<Step>, j: nat, t: nat)
    requires IsRun(states, steps) && j < |states|
    requires Lookup(states[j], t).Some? && Lookup(states[j], t).value.state.Completed?
    ensures Lookup(states[j], t).value.operationId.Some?
    ensures exists i :: 0 <= i < j && ConfirmsSuccess(steps[i], t, Lookup(states[j], t).value.operationId.value)
  {
    RunKeepsInvariant(states, steps, j);
    if j > 0 {
      RunKeepsInvariant(states, steps, j - 1);
      CompletionStep(states[j - 1], steps[j - 1], t);
      if Lookup(states[j - 1], t).Some? && Lookup(states[j - 1], t).value.state.Completed? {
        CompletedHasReceipt(states, steps, j - 1, t);
      }
    }
  }

  // How an intent comes to be failed

  /** The receipt reports a rejection, or a completion in which some target failed. */
  ghost predicate ReportsFailure(update: Intents.Update, id: string)
  {
    && (update.Admitted? || update.Finished?)
    && update.operation.id == id && id != ""
    && (update.operation.state.Rejected?
        || (update.operation.state.Done? && exists i :: 0 <= i < |update.operation.outcomes| && !update.operation.outcomes[i]))
  }

  /** `b` failed by `step`: an error while no operation was known, or a failing receipt for its operation. */
  ghost predicate FailsBy(a: Entry<nat>, b: Entry<nat>, step: Step)
  {
    && step.Update? && step.ticket == b.ticket
    && (|| (step.update.Error? && a.operationId.None? && b.operationId.None?)
        || (b.operationId.Some? && ReportsFailure(step.update, b.operationId.value)))
  }

  lemma ReceiptFails(e: Entry<nat>, operation: Operation)
    requires !e.state.Failed? && Acknowledge(e, operation).Some? && Acknowledge(e, operation).value.state.Failed?
    ensures Acknowledge(e, operation).value.operationId == Some(operation.id) && operation.id != ""
    ensures operation.state.Rejected?
            || (operation.state.Done? && exists i :: 0 <= i < |operation.outcomes| && !operation.outcomes[i])
  {
  }

  lemma UpdateFails(e: Entry<nat>, retired: bool, ticket: nat, update: Intents.Update, now: nat)
    requires Updated(e, retired, update, now).state.Failed? && ticket == e.ticket && !e.state.Failed?
    ensures FailsBy(e, Updated(e, retired, update, now), Update(ticket, update, now))
  {
    if Accepts(e, retired) && Advance(e, update).Some? {
      match update
      case Started =>
      case Error(_) =>
      case Admitted(operation) => ReceiptFails(e, operation);
      case Finished(operation) => ReceiptFails(e, operation);
    }
  }

  lemma FailureStep(f: Tracker, step: Step, t: nat)
    requires Invariant(f)
    requires Lookup(After(f, step), t).Some? && Lookup(After(f, step), t).value.state.Failed?
    ensures Lookup(f, t).Some?
    ensures var a, b := Lookup(f, t).value, Lookup(After(f, step), t).value;
            (a.state.Failed? && b.operationId == a.operationId) || FailsBy(a, b, step)
  {
    var g := After(f, step);
    if step.Queue? {
      QueueSettlesNothing(f, step.caption, step.control, t);
    } else {
      assert forall i :: 0 <= i < |f.entries| ==> g.entries[i].ticket == f.entries[i].ticket by {
        if step.Update? {
          UpdateKeepsTickets(f, step.ticket, step.update, step.now);
        }
      }
      var e := Lookup(f, t).value;
      if step.Update? && step.ticket == t && !e.state.Failed? {
        UpdateFails(e, e.guard < f.generation, t, step.update, step.now);
      }
    }
  }

  /** The step is a receipt that the intent takes for its operation. */
  ghost predicate TakesReceipt(f: Tracker, step: Step, t: nat)
  {
    && step.Update? && step.ticket == t && (step.update.Admitted? || step.update.Finished?) && Lookup(f, t).Some?
    && Accepts(Lookup(f, t).value, Lookup(f, t).value.guard < f.generation)
    && Acknowledge(Lookup(f, t).value, step.update.operation).Some?
  }

  lemma ReceiptNames(f: Tracker, step: Step, t: nat)
    requires Invariant(f) && TakesReceipt(f, step, t)
    ensures Lookup(After(f, step), t).Some? && Lookup(After(f, step), t).value.operationId.Some?
    ensures t <= f.nextTicket
  {
    UpdateKeepsTickets(f, step.ticket, step.update, step.now);
    assert Lookup(f, t).value in f.entries;
  }

  /** While an intent knows no operation, it has taken no receipt. */
  lemma UnnamedTookNone(states: seq<Tracker>, steps: seq<Step>, i: nat, t: nat, m: nat)
    requires IsRun(states, steps) && m < i < |states|
    requires Lookup(states[i], t).Some? && Lookup(states[i], t).value.operationId.None?
    ensures !TakesReceipt(states[m], steps[m], t)
  {
    if TakesReceipt(states[m], steps[m], t) {
      RunKeepsInvariant(states, steps, m);
      ReceiptNames(states[m], steps[m], t);
      RunKeepsInvariant(states, steps, m + 1);
      IntentOnlyAdvances(states, steps, m + 1, i, t);
    }
  }

  lemma NamingStep(f: Tracker, step: Step, t: nat)
    requires Invariant(f)
    requires Lookup(After(f, step), t).Some? && Lookup(After(f, step), t).value.operationId.Some?
    ensures (Lookup(f, t).Some? && Lookup(f, t).value.operationId.Some?) || TakesReceipt(f, step, t)
  {
    var g := After(f, step);
    if step.Queue? {
      QueueNamesNothing(f, step.caption, step.control, t);
    } else if step.Update? {
      UpdateKeepsTickets(f, step.ticket, step.update, step.now);
    }
  }

  lemma QueueNamesNothing(f: Tracker, caption: string, control: Option<Control>, t: nat)
    requires Invariant(f)
    requires Lookup(Intents.Queue(f, caption, control), t).Some?
    requires Lookup(Intents.Queue(f, caption, control), t).value.operationId.Some?
    ensures Lookup(f, t) == Lookup(Intents.Queue(f, caption, control), t)
  {
    var e := Lookup(Intents.Queue(f, caption, control), t).value;
    assert e in Evicted(f.entries);
    var i :| 0 <= i < |f.entries| && f.entries[i] == e;
    LookupIndex(f, i);
  }

  /** An intent that knows its operation has taken a receipt. */
  lemma {:induction false} NamedTookOne(states: seq<Tracker>, steps: seq<Step>, i: nat, t: nat) returns (m: nat)
    requires IsRun(states, steps) && i < |states|
    requires Lookup(states[i], t).Some? && Lookup(states[i], t).value.operationId.Some?
    ensures m < i && TakesReceipt(states[m], steps[m], t)
    decreases i
  {
    assert i > 0;
    RunKeepsInvariant(states, steps, i - 1);
    NamingStep(states[i - 1], steps[i - 1], t);
    if TakesReceipt(states[i - 1], steps[i - 1], t) {
      m := i - 1;
    } else {
      m := NamedTookOne(states, steps, i - 1, t);
    }
  }

  /** In any run an error that reaches an intent fails it iff no receipt was taken before, else leaves it unconfirmed. */
  lemma ErrorOutcome(states: seq<Tracker>, steps: seq<Step>, i: nat, t: nat)
    requires IsRun(states, steps) && i < |steps| && Lookup(states[i], t).Some?
    requires steps[i].Update? && steps[i].ticket == t && steps[i].update.Error?
    requires Accepts(Lookup(states[i], t).value, Lookup(states[i], t).value.guard < states[i].generation)
    ensures Lookup(states[i + 1], t).Some?
    ensures var state := Lookup(states[i + 1], t).value.state;
            if exists m :: 0 <= m < i && TakesReceipt(states[m], steps[m], t) then state.Unconfirmed? else state.Failed?
  {
    RunKeepsInvariant(states, steps, i);
    UpdateKeepsTickets(states[i], t, steps[i].update, steps[i].now);
    if Lookup(states[i], t).value.operationId.Some? {
      var m := NamedTookOne(states, steps, i, t);
    } else {
      forall m | 0 <= m < i ensures !TakesReceipt(states[m], steps[m], t) {
        UnnamedTookNone(states, steps, i, t, m);
      }
    }
  }

  /** Why the intent failed at step `i` of the run. */
  ghost predicate FailureAt(states: seq<Tracker>, steps: seq<Step>, i: nat, t: nat, operationId: Option<string>)
    requires |states| == |steps| + 1 && i < |steps|
  {
    && steps[i].Update? && steps[i].ticket == t
    && (|| (operationId.None? && steps[i].update.Error? && forall m :: 0 <= m < i ==> !TakesReceipt(states[m], steps[m], t))
        || (operationId.Some? && ReportsFailure(steps[i].update, operationId.value)))
  }

  /**
   An intent is shown failed only after an error that came before any receipt for it, or after a
   receipt for its own operation that was rejected or had a failed target.
   */
  lemma {:induction false} FailedHasCause(states: seq<Tracker>, steps: seq<Step>, j: nat, t: nat) returns (i: nat)
    requires IsRun(states, steps) && j < |states|
    requires Lookup(states[j], t).Some? && Lookup(states[j], t).value.state.Failed?
    ensures i < j && FailureAt(states, steps, i, t, Lookup(states[j], t).value.operationId)
    decreases j
  {
    assert j > 0;
    RunKeepsInvariant(states, steps, j - 1);
    FailureStep(states[j - 1], steps[j - 1], t);
    var a := Lookup(states[j - 1], t).value;
    if a.state.Failed? && Lookup(states[j], t).value.operationId == a.operationId {
      i := FailedHasCause(states, steps, j - 1, t);
    } else {
      i := j - 1;
      if a.operationId.None? {
        forall m | 0 <= m < i ensures !TakesReceipt(states[m], steps[m], t) {
          UnnamedTookNone(states, steps, i, t, m);
        }
      }
    }
  }

  // Replacement of the backend

  /**
   After a replacement every intent issued before it is retired for good: in any later state it is,
   apart from dismissal, exactly what the replacement left, whatever updates arrive.
   */
  lemma ReplacementFreezes(states: seq<Tracker>, steps: seq<Step>, i: nat, j: nat, t: nat)
    requires IsRun(states, steps) && i < |steps| && i < j < |states|
    requires steps[i] == Disconnect(true)
    requires Lookup(states[j], t).Some? && t <= states[i].nextTicket
    ensures Lookup(states[i + 1], t).Some?
    ensures Lookup(states[j], t).value.guard < states[j].generation
    ensures !Lookup(states[j], t).value.state.Active()
    ensures Frozen(Lookup(states[i + 1], t).value, Lookup(states[j], t).value)
  {
    IntentOnlyAdvances(states, steps, i, j, t);
    IntentOnlyAdvances(states, steps, i + 1, j, t);
    RunKeepsInvariant(states, steps, i);
    RunKeepsInvariant(states, steps, j);
  }

  /** An intent issued under the live generation keeps a live guard until the next replacement. */
  lemma {:induction false} GuardLiveUntilReplacement(states: seq<Tracker>, steps: seq<Step>, i: nat, j: nat, t: nat)
    requires IsRun(states, steps) && i <= j < |states|
    requires Lookup(states[j], t).Some? && t <= states[i].nextTicket
    requires Lookup(states[i], t).Some? ==> Lookup(states[i], t).value.guard == states[i].generation
    requires forall k :: i <= k < j ==> steps[k] != Disconnect(true)
    ensures Lookup(states[j], t).value.guard == states[j].generation
    decreases j - i
  {
    IntentOnlyAdvances(states, steps, i, j, t);
    if i < j {
      IntentOnlyAdvances(states, steps, i + 1, j, t);
      IntentOnlyAdvances(states, steps, i, i + 1, t);
      assert states[i + 1].generation == states[i].generation;
      GuardLiveUntilReplacement(states, steps, i + 1, j, t);
    }
  }

  // User requests are runs of the primitive operations

  lemma RequestIsRun(f: Tracker, caption: string, control: Option<Control>, delivery: Delivery, now: nat)
    returns (steps: seq<Step>)
    ensures |steps| <= 3
    ensures Request(f, caption, control, delivery, now) == Executed(f, steps)
    ensures AllAllowed(f, steps)
  {
    var queue := Queue(caption, control);
    var queued := After(f, queue);
    var fail := Update(queued.nextTicket, Error(Reason(delivery)), now);
    if control.Some? && ControlPending(f.entries, control.value) {
      steps := [];
    } else if QueueFails(f) || delivery.Sent? {
      steps := [queue];
      Unroll(f, queue, []);
    } else if delivery.Full? {
      steps := [queue] + ([fail] + []);
      Unroll(f, queue, [fail] + []);
      Unroll(queued, fail, []);
    } else {
      steps := [queue] + ([fail] + ([Disconnect(false)] + []));
      Unroll(f, queue, [fail] + ([Disconnect(false)] + []));
      Unroll(queued, fail, [Disconnect(false)] + []);
      Unroll(After(queued, fail), Disconnect(false), []);
    }
  }

  lemma Unroll(f: Tracker, step: Step, rest: seq<Step>)
    ensures Executed(f, [step] + rest) == Executed(After(f, step), rest)
    ensures AllAllowed(f, [step] + rest) <==> Allowed(f, step) && AllAllowed(After(f, step), rest)
  {
    assert ([step] + rest)[1..] == rest;
  }

  ghost function Executed(f: Tracker, steps: seq<Step>): (r: Tracker)
    decreases |steps|
  {
    if steps == [] then f else Executed(After(f, steps[0]), steps[1..])
  }

  ghost predicate AllAllowed(f: Tracker, steps: seq<Step>)
    decreases |steps|
  {
    steps == [] || (Allowed(f, steps[0]) && AllAllowed(After(f, steps[0]), steps[1..]))
  }
}
