/**
 The operation-intent tracker on values.

 An intent is queued under a fresh ticket and then advanced by the updates of the worker that sends
 it. History is bounded, generations of intents are told apart by a guard, and a replaced backend
 retires the guard of every intent issued before. Here a guard is the number of its generation; the
 form in which all intents of a generation share one mutable object is in `IntentFeedback`.
 */
module Intents {
  import opened Wrappers
  import opened Sequences
  import opened Targets
  import opened Decimals

  const HISTORY_LIMIT := 64
  const TICKET_MAX: nat := 0xFFFF_FFFF_FFFF_FFFF

  datatype State = Queued | Sending | Pending | Completed | Failed | Cancelled | Unconfirmed {
    predicate Active() {
      Queued? || Sending? || Pending?
    }

    predicate Terminal() {
      Completed? || Failed? || Cancelled?
    }

    function Label(): string {
      match this
      case Queued => "queued"
      case Sending => "pending admission"
      case Pending => "pending"
      case Completed => "completed"
      case Failed => "error"
      case Cancelled => "cancelled"
      case Unconfirmed => "outcome unconfirmed"
    }

    /** The order in which an intent may move. */
    function Rank(): nat {
      match this
      case Queued => 0
      case Sending => 1
      case Pending => 2
      case Unconfirmed => 3
      case _ => 4
    }
  }

  datatype OperationState = Accepted | Running | Done | Rejected | Aborted | Unspecified

  /** An operation as the backend reports it; `outcomes` is whether each target succeeded. */
  datatype Operation = Operation(id: string, state: OperationState, error: Option<string>, outcomes: seq<bool>)

  datatype Update = Started | Admitted(operation: Operation) | Finished(operation: Operation) | Error(message: string)

  datatype Control = Control(action: string, target: Target)

  datatype Entry<+G> = Entry(
    ticket: nat,
    caption: string,
    state: State,
    operationId: Option<string>,
    detail: Option<string>,
    guard: G,
    control: Option<Control>,
    settledAt: Option<nat>,
    dismissed: bool)

  const SEPARATOR := " \U{B7} "

  function Text<G>(e: Entry<G>): string
  {
    e.state.Label() + SEPARATOR + e.caption + (if e.detail.Some? then SEPARATOR + e.detail.value else "")
  }

  function Failures(outcomes: seq<bool>): (n: nat)
    ensures n <= |outcomes|
    ensures n == 0 <==> forall i :: 0 <= i < |outcomes| ==> outcomes[i]
  {
    if outcomes == [] then 0
    else
      assert outcomes == [outcomes[0]] + outcomes[1..];
      (if outcomes[0] then 0 else 1) + Failures(outcomes[1..])
  }

  function Reported(s: OperationState): (r: State)
  {
    match s
    case Done => Completed
    case Rejected => Failed
    case Aborted => Cancelled
    case _ => Pending
  }

  /** The displayed detail of a receipt: its error, led by a count of the failed targets if any. */
  function Detail(operation: Operation): (d: Option<string>)
  {
    var failed := Failures(operation.outcomes);
    if failed == 0 then operation.error
    else
      var summary := Decimal(failed) + "/" + Decimal(|operation.outcomes|) + " targets failed";
      Some(if operation.error.Some? then summary + ": " + operation.error.value else summary)
  }

  /** Completion counts as success only if no target of the operation failed. */
  function Outcome(operation: Operation): (s: State)
  {
    if Reported(operation.state).Completed? && Failures(operation.outcomes) > 0 then Failed
    else Reported(operation.state)
  }

  /** An unconfirmed intent learns its operation from any receipt but moves only on a final one. */
  function Receive<G>(e: Entry<G>, operation: Operation): (r: Entry<G>)
  {
    var known := e.(operationId := Some(operation.id));
    if e.state.Unconfirmed? && !Reported(operation.state).Terminal() then known
    else known.(state := Outcome(operation), detail := Detail(operation))
  }

  /** A receipt without an identity, or for another operation, is ignored. */
  function Acknowledge<G>(e: Entry<G>, operation: Operation): (r: Option<Entry<G>>)
  {
    if operation.id == "" || (e.operationId.Some? && e.operationId.value != operation.id) then None
    else Some(Receive(e, operation))
  }

  function Advance<G>(e: Entry<G>, update: Update): (r: Option<Entry<G>>)
  {
    match update
    case Started => Some(if e.state.Queued? then e.(state := Sending) else e)
    case Admitted(operation) => Acknowledge(e, operation)
    case Finished(operation) => Acknowledge(e, operation)
    case Error(message) =>
      Some(e.(state := if e.operationId.Some? then Unconfirmed else Failed, detail := Some(message)))
  }

  function Settle<G>(e: Entry<G>, now: nat): (r: Entry<G>)
  {
    if e.state.Terminal() then e.(settledAt := Some(now)) else e
  }

  /** Whether an update reaches the entry at all. */
  predicate Accepts<G>(e: Entry<G>, retired: bool)
  {
    !retired && !e.state.Terminal()
  }

  function Updated<G>(e: Entry<G>, retired: bool, update: Update, now: nat): (r: Entry<G>)
  {
    if !Accepts(e, retired) || Advance(e, update).None? then e else Settle(Advance(e, update).value, now)
  }

  function Interrupted<G>(e: Entry<G>, replaced: bool): (r: Entry<G>)
  {
    if e.state.Active() then
      e.(state := Unconfirmed, detail := Some(if replaced then "DDB instance changed" else "connection lost"))
    else e
  }

  function Expired<G>(e: Entry<G>, now: nat): (r: Entry<G>)
  {
    var timeout := if e.state.Completed? then 5 else 8;
    if e.state.Terminal() && e.settledAt.Some? && now - e.settledAt.value >= timeout
    then e.(dismissed := true) else e
  }

  // The tracker

  datatype Tracker = Tracker(nextTicket: nat, entries: seq<Entry<nat>>, generation: nat)

  const EMPTY := Tracker(0, [], 0)

  function PositionOf<G>(entries: seq<Entry<G>>, ticket: nat): (i: nat)
    ensures i <= |entries|
    ensures i < |entries| ==> entries[i].ticket == ticket
    ensures forall j :: 0 <= j < i ==> entries[j].ticket != ticket
  {
    FirstIndex(entries, (e: Entry<G>) => e.ticket == ticket)
  }

  function FirstInactive<G>(entries: seq<Entry<G>>): (i: nat)
    ensures i <= |entries|
    ensures i < |entries| ==> !entries[i].state.Active()
    ensures forall j :: 0 <= j < i ==> entries[j].state.Active()
  {
    FirstIndex(entries, (e: Entry<G>) => !e.state.Active())
  }

  function Without<G>(entries: seq<Entry<G>>, i: nat): (r: seq<Entry<G>>)
    requires i < |entries|
  {
    entries[..i] + entries[i + 1..]
  }

  function Evicted<G>(entries: seq<Entry<G>>): (r: seq<Entry<G>>)
  {
    if |entries| != HISTORY_LIMIT || FirstInactive(entries) == |entries| then entries
    else Without(entries, FirstInactive(entries))
  }

  predicate Overloaded<G>(entries: seq<Entry<G>>)
  {
    |entries| == HISTORY_LIMIT && FirstInactive(entries) == |entries|
  }

  function Fresh<G>(ticket: nat, caption: string, guard: G, control: Option<Control>): (e: Entry<G>)
  {
    Entry(ticket, caption, Queued, None, None, guard, control, None, false)
  }

  /** Queue an intent. An exhausted ticket counter still costs the evicted entry its place. */
  function Queue(f: Tracker, caption: string, control: Option<Control>): (r: Tracker)
  {
    if Overloaded(f.entries) then f
    else if f.nextTicket == TICKET_MAX then f.(entries := Evicted(f.entries))
    else
      var ticket := f.nextTicket + 1;
      f.(nextTicket := ticket, entries := Evicted(f.entries) + [Fresh(ticket, caption, f.generation, control)])
  }

  datatype QueueError = TooManyPending | TicketsExhausted

  predicate QueueFails(f: Tracker)
  {
    Overloaded(f.entries) || f.nextTicket == TICKET_MAX
  }

  predicate ControlPending<G>(entries: seq<Entry<G>>, control: Control)
  {
    exists i :: 0 <= i < |entries| && entries[i].state.Active() && entries[i].control == Some(control)
  }

  function UpdateTicket(f: Tracker, ticket: nat, update: Update, now: nat): (r: Tracker)
  {
    var i := PositionOf(f.entries, ticket);
    if i == |f.entries| then f
    else f.(entries := f.entries[i := Updated(f.entries[i], f.entries[i].guard < f.generation, update, now)])
  }

  function Disconnected(f: Tracker, replaced: bool): (r: Tracker)
  {
    f.(entries := seq(|f.entries|, i requires 0 <= i < |f.entries| => Interrupted(f.entries[i], replaced)),
       generation := if replaced then f.generation + 1 else f.generation)
  }

  function Ticked(f: Tracker, now: nat): (r: Tracker)
  {
    f.(entries := seq(|f.entries|, i requires 0 <= i < |f.entries| => Expired(f.entries[i], now)))
  }

  /** What the request channel does with a request that was queued. */
  datatype Delivery = Sent | Full | Closed

  function Reason(d: Delivery): string
  {
    (if d.Full? then "request queue is full" else "request worker is unavailable") + "; not sent to DDB"
  }

  /**
   A user request: a control that is already pending for its target is dropped, a request the channel
   does not take fails its intent, and a closed channel also counts as a lost connection.
   */
  function Request(f: Tracker, caption: string, control: Option<Control>, delivery: Delivery, now: nat): (r: Tracker)
  {
    if control.Some? && ControlPending(f.entries, control.value) then f
    else if QueueFails(f) then Queue(f, caption, control)
    else
      var queued := Queue(f, caption, control);
      match delivery
      case Sent => queued
      case Full => UpdateTicket(queued, queued.nextTicket, Error(Reason(delivery)), now)
      case Closed =>
        Disconnected(UpdateTicket(queued, queued.nextTicket, Error(Reason(delivery)), now), false)
  }
}
