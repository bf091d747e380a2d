/**
 The operation-intent tracker as the program keeps it.

 All intents of a backend generation share one retirement flag with the worker that sends them. The
 flag lives on after the history has evicted its intents, so a replacement retires it once for every
 holder. `Feedback` is proved against the tracker on values, where a guard is just the number of its
 generation: `generations` records every flag ever shared, oldest first, and exactly the last is live.
 */
module IntentFeedback {
  import opened Wrappers
  import opened Intents

  class Guard {
    var retired: bool

    constructor ()
      ensures !retired
    {
      retired := false;
    }
  }

  ghost function Retag<G, H>(e: Entry<G>, h: H): (r: Entry<H>)
  {
    Entry(e.ticket, e.caption, e.state, e.operationId, e.detail, h, e.control, e.settledAt, e.dismissed)
  }

  ghost function IndexOf(g: Guard, generations: seq<Guard>): (i: nat)
    ensures g in generations ==> i < |generations| && generations[i] == g
  {
    if g in generations then var i :| 0 <= i < |generations| && generations[i] == g; i else |generations|
  }

  ghost function Abstract(entries: seq<Entry<Guard>>, generations: seq<Guard>): (r: seq<Entry<nat>>)
    ensures |r| == |entries|
  {
    seq(|entries|, i requires 0 <= i < |entries| => Retag(entries[i], IndexOf(entries[i].guard, generations)))
  }

  ghost predicate Distinct(generations: seq<Guard>)
  {
    forall i, j :: 0 <= i < j < |generations| ==> generations[i] != generations[j]
  }

  lemma AbstractWithout(entries: seq<Entry<Guard>>, generations: seq<Guard>, k: nat)
    requires k < |entries|
    ensures Abstract(Without(entries, k), generations) == Without(Abstract(entries, generations), k)
  {
  }

  lemma AbstractUpdate(entries: seq<Entry<Guard>>, generations: seq<Guard>, i: nat, e: Entry<Guard>)
    requires i < |entries| && e.guard == entries[i].guard
    ensures Abstract(entries[i := e], generations) ==
            Abstract(entries, generations)[i := Retag(e, IndexOf(e.guard, generations))]
  {
  }

  lemma UpdatedRetag(e: Entry<Guard>, n: nat, retired: bool, update: Update, now: nat)
    ensures Retag(Updated(e, retired, update, now), n) == Updated(Retag(e, n), retired, update, now)
    ensures Updated(e, retired, update, now).guard == e.guard
  {
    match update
    case Started =>
    case Error(_) =>
    case Admitted(operation) => ReceiveRetag(e, n, operation);
    case Finished(operation) => ReceiveRetag(e, n, operation);
  }

  lemma ReceiveRetag(e: Entry<Guard>, n: nat, operation: Operation)
    ensures Retag(Receive(e, operation), n) == Receive(Retag(e, n), operation)
    ensures Receive(e, operation).guard == e.guard
  {
  }

  lemma SameFirsts(a: seq<Entry<Guard>>, b: seq<Entry<nat>>, ticket: nat)
    requires |a| == |b|
    requires forall i :: 0 <= i < |a| ==> a[i].ticket == b[i].ticket && a[i].state == b[i].state
    ensures PositionOf(a, ticket) == PositionOf(b, ticket)
    ensures FirstInactive(a) == FirstInactive(b)
  {
    var i, j := PositionOf(a, ticket), PositionOf(b, ticket);
    assert i < |a| ==> b[i].ticket == ticket && j <= i;
    assert j < |b| ==> a[j].ticket == ticket && i <= j;
    var k, l := FirstInactive(a), FirstInactive(b);
    assert k < |a| ==> !b[k].state.Active() && l <= k;
    assert l < |b| ==> !a[l].state.Active() && k <= l;
  }

  /** The timeline messages of a disconnect: the new text of each intent that was active, in order. */
  ghost function Interruptions<G>(entries: seq<Entry<G>>, replaced: bool, n: nat): (r: seq<string>)
    requires n <= |entries|
  {
    if n == 0 then []
    else Interruptions(entries, replaced, n - 1) +
         (if entries[n - 1].state.Active() then [Text(Interrupted(entries[n - 1], replaced))] else [])
  }

  method InterruptEach<G>(entries: seq<Entry<G>>, replaced: bool) returns (next: seq<Entry<G>>, messages: seq<string>)
    ensures |next| == |entries| && forall i :: 0 <= i < |entries| ==> next[i] == Interrupted(entries[i], replaced)
    ensures messages == Interruptions(entries, replaced, |entries|)
  {
    next, messages := [], [];
    for i := 0 to |entries|
      invariant |next| == i
      invariant forall j :: 0 <= j < i ==> next[j] == Interrupted(entries[j], replaced)
      invariant messages == Interruptions(entries, replaced, i)
    {
      var entry := Interrupted(entries[i], replaced);
      next := next + [entry];
      if entries[i].state.Active() {
        messages := messages + [Text(entry)];
      }
    }
  }

  class Feedback {
    var nextTicket: nat
    var entries: seq<Entry<Guard>>
    var backendGuard: Guard
    ghost var generations: seq<Guard>

    ghost predicate Valid()
      reads this, generations
    {
      && |generations| > 0
      && backendGuard == generations[|generations| - 1]
      && Distinct(generations)
      && (forall i :: 0 <= i < |generations| ==> (generations[i].retired <==> i < |generations| - 1))
      && (forall i :: 0 <= i < |entries| ==> entries[i].guard in generations)
    }

    ghost function View(): (f: Tracker)
      requires |generations| > 0
      reads this
    {
      Tracker(nextTicket, Abstract(entries, generations), |generations| - 1)
    }

    constructor ()
      ensures Valid() && View() == EMPTY && fresh(generations)
    {
      var guard := new Guard();
      nextTicket, entries := 0, [];
      backendGuard, generations := guard, [guard];
    }

    method FirstSettled() returns (index: nat)
      ensures index == FirstInactive(entries)
    {
      index := 0;
      while index < |entries| && entries[index].state.Active()
        invariant index <= |entries|
        invariant forall j :: 0 <= j < index ==> entries[j].state.Active()
      {
        index := index + 1;
      }
    }

    /** Drop the first settled intent when the history is full; fail if every intent is active. */
    method MakeRoom() returns (ok: bool)
      requires Valid()
      modifies this`entries
      ensures Valid() && ok == !Overloaded(old(View()).entries)
      ensures View() == old(View()).(entries := Evicted(old(View()).entries))
    {
      ghost var before := View();
      SameFirsts(entries, before.entries, 0);
      if |entries| != HISTORY_LIMIT {
        return true;
      }
      var index := FirstSettled();
      if index == |entries| {
        return false;
      }
      AbstractWithout(entries, generations, index);
      entries := entries[..index] + entries[index + 1..];
      return true;
    }

    method Append(caption: string) returns (entry: Entry<Guard>)
      requires Valid()
      modifies this`entries, this`nextTicket
      ensures Valid() && nextTicket == old(nextTicket) + 1
      ensures entry == Fresh(nextTicket, caption, backendGuard, None) && entries == old(entries) + [entry]
      ensures View().entries == old(View()).entries + [Fresh(nextTicket, caption, old(View()).generation, None)]
    {
      nextTicket := nextTicket + 1;
      entry := Fresh(nextTicket, caption, backendGuard, None);
      entries := entries + [entry];
    }

    /** A full history of active intents takes no more; any other makes room first. */
    method Enqueue(caption: string) returns (r: Result<(nat, string), QueueError>)
      requires Valid()
      modifies this`entries, this`nextTicket
      ensures Valid() && View() == Queue(old(View()), caption, None)
      ensures r == Err(TooManyPending) <==> Overloaded(old(View()).entries)
      ensures r.Ok? <==> !QueueFails(old(View()))
      ensures r.Ok? ==> |entries| > 0 && r.value == (nextTicket, Text(entries[|entries| - 1]))
      ensures r.Ok? ==> entries[|entries| - 1].ticket == nextTicket && entries[|entries| - 1].guard == backendGuard
    {
      var ok := MakeRoom();
      if !ok {
        return Err(TooManyPending);
      }
      if nextTicket == TICKET_MAX {
        return Err(TicketsExhausted);
      }
      var entry := Append(caption);
      r := Ok((nextTicket, Text(entry)));
    }

    method EnqueueControl(caption: string, control: Control) returns (r: Result<(nat, string), QueueError>)
      requires Valid()
      modifies this`entries, this`nextTicket
      ensures Valid() && View() == Queue(old(View()), caption, Some(control))
      ensures r.Ok? <==> !QueueFails(old(View()))
      ensures r.Ok? ==> |entries| > 0 && r.value.0 == nextTicket == entries[|entries| - 1].ticket
    {
      r := Enqueue(caption);
      if r.Ok? {
        var last := |entries| - 1;
        ghost var was := View().entries;
        entries := entries[last := entries[last].(control := Some(control))];
        assert View().entries == was[last := was[last].(control := Some(control))];
        assert View().entries == Queue(old(View()), caption, Some(control)).entries;
      }
    }

    /** The flag a worker keeps for an intent is the one its whole generation shares. */
    method IntentGuard(ticket: nat) returns (guard: Guard)
      requires Valid() && PositionOf(entries, ticket) < |entries|
      ensures guard in generations && guard == entries[PositionOf(entries, ticket)].guard
      ensures guard.retired <==> View().entries[PositionOf(entries, ticket)].guard < View().generation
    {
      var i := 0;
      while entries[i].ticket != ticket
        invariant 0 <= i < |entries|
        invariant forall j :: 0 <= j < i ==> entries[j].ticket != ticket
        invariant i <= PositionOf(entries, ticket)
        decreases |entries| - i
      {
        i := i + 1;
      }
      guard := entries[i].guard;
      LiveIff(i);
    }

    lemma LiveIff(i: nat)
      requires Valid() && i < |entries|
      ensures entries[i].guard.retired <==> View().entries[i].guard < View().generation
    {
      assert entries[i].guard in generations;
    }

    method HasControlPending(control: Control) returns (pending: bool)
      requires Valid()
      ensures pending <==> ControlPending(View().entries, control)
    {
      for i := 0 to |entries|
        invariant forall j :: 0 <= j < i ==> !(entries[j].state.Active() && entries[j].control == Some(control))
      {
        if entries[i].state.Active() && entries[i].control == Some(control) {
          assert View().entries[i].state.Active() && View().entries[i].control == Some(control);
          return true;
        }
      }
      return false;
    }

    method Find(ticket: nat) returns (i: nat)
      ensures i == PositionOf(entries, ticket)
    {
      i := 0;
      while i < |entries| && entries[i].ticket != ticket
        invariant i <= |entries|
        invariant forall j :: 0 <= j < i ==> entries[j].ticket != ticket
      {
        i := i + 1;
      }
    }

    /** The intent with this ticket takes the update, unless it is final or its backend is gone. */
    method ApplyUpdate(ticket: nat, update: Update, now: nat) returns (message: Option<string>)
      requires Valid()
      modifies this`entries
      ensures Valid() && View() == UpdateTicket(old(View()), ticket, update, now)
      ensures message.Some? <==>
                var i := PositionOf(old(entries), ticket);
                && i < |old(entries)| && i < |entries|
                && Text(entries[i]) != Text(old(entries)[i])
    {
      ghost var before := View();
      SameFirsts(entries, before.entries, ticket);
      var i := Find(ticket);
      if i == |entries| {
        return None;
      }
      var entry := entries[i];
      LiveIff(i);
      ghost var n := before.entries[i].guard;
      UpdatedRetag(entry, n, entry.guard.retired, update, now);
      var next := Updated(entry, entry.guard.retired, update, now);
      AbstractUpdate(entries, generations, i, next);
      entries := entries[i := next];
      message := if Text(next) != Text(entry) then Some(Text(next)) else None;
    }

    /** Every active intent becomes unconfirmed, with a message for the timeline. */
    method InterruptAll(replaced: bool) returns (messages: seq<string>)
      requires Valid()
      modifies this`entries
      ensures Valid() && View().entries == Disconnected(old(View()), replaced).entries
      ensures messages == Interruptions(old(entries), replaced, |old(entries)|)
    {
      ghost var before := View();
      entries, messages := InterruptEach(entries, replaced);
      assert View().entries == Disconnected(before, replaced).entries;
    }

    /**
     After a replacement every flag ever handed out is set, also those of intents long dropped, and new
     intents get a flag of their own. Losing the connection sets none.
     */
    method Disconnect(replaced: bool) returns (messages: seq<string>)
      requires Valid()
      modifies this`entries, this`backendGuard, this`generations, if replaced then {backendGuard} else {}
      ensures Valid() && View() == Disconnected(old(View()), replaced)
      ensures !replaced ==> generations == old(generations) && backendGuard == old(backendGuard)
      ensures replaced ==> generations == old(generations) + [backendGuard] && fresh(backendGuard)
      ensures replaced ==> forall g :: g in old(generations) ==> g.retired
      ensures messages == Interruptions(old(entries), replaced, |old(entries)|)
    {
      if replaced {
        ghost var shared := generations;
        backendGuard.retired := true;
        backendGuard := new Guard();
        generations := generations + [backendGuard];
        IndexStable(entries, shared, backendGuard);
      }
      messages := InterruptAll(replaced);
    }

    method Tick(now: nat)
      requires Valid()
      modifies this`entries
      ensures Valid() && View() == Ticked(old(View()), now)
    {
      ghost var before := View();
      ghost var was := entries;
      var next := [];
      for i := 0 to |entries|
        invariant |next| == i
        invariant forall j :: 0 <= j < i ==> next[j] == Expired(was[j], now)
      {
        next := next + [Expired(entries[i], now)];
      }
      entries := next;
      assert View().entries == Ticked(before, now).entries;
    }

    /** A tracked user request, up to the point where the channel has taken or refused it. */
    method QueueRequest(caption: string, control: Option<Control>, delivery: Delivery, now: nat)
      requires Valid()
      modifies this
      ensures Valid() && View() == Request(old(View()), caption, control, delivery, now)
      ensures generations == old(generations)
    {
      var r: Result<(nat, string), QueueError>;
      if control.Some? {
        var pending := HasControlPending(control.value);
        if pending {
          return;
        }
        r := EnqueueControl(caption, control.value);
      } else {
        r := Enqueue(caption);
      }
      if r.Err? || delivery.Sent? {
        return;
      }
      var _ := ApplyUpdate(r.value.0, Error(Reason(delivery)), now);
      if delivery.Closed? {
        var _ := Disconnect(false);
      }
    }
  }

  lemma IndexStable(entries: seq<Entry<Guard>>, generations: seq<Guard>, added: Guard)
    requires Distinct(generations) && added !in generations
    requires forall i :: 0 <= i < |entries| ==> entries[i].guard in generations
    ensures Distinct(generations + [added])
    ensures Abstract(entries, generations + [added]) == Abstract(entries, generations)
  {
    forall i | 0 <= i < |entries|
      ensures IndexOf(entries[i].guard, generations + [added]) == IndexOf(entries[i].guard, generations)
    {
      var k := IndexOf(entries[i].guard, generations);
      assert (generations + [added])[k] == entries[i].guard;
    }
  }
}
