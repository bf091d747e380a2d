/**
 Which frames have readable source: a bounded record of finished reads, against the whole history.
 */
module FrameSources {
  import opened Wrappers
  import opened SourceKeys
  import opened Sequences

  const EVIDENCE_LIMIT := 128
  const MAX_LINE := 0xFFFF_FFFF

  /** The outcome of the last read of a key: no error means readable. */
  datatype Entry = Entry(key: Key, error: Option<string>)

  /** What happens to the record: a read of one key finishes, sessions retire, everything is dropped. */
  datatype Event = Done(key: Key, error: Option<string>) | Keep(sessions: seq<string>) | Clear

  // One step of the record

  predicate Survives(key: Key, ev: Event)
  {
    match ev
    case Done(k, _) => key != k
    case Keep(sessions) => key.session in sessions
    case Clear => false
  }

  function Survivor(ev: Event): (p: Entry -> bool)
  {
    (e: Entry) => Survives(e.key, ev)
  }

  function Surviving(es: seq<Entry>, ev: Event): (r: seq<Entry>)
    ensures |r| <= |es|
  {
    Filter(es, Survivor(ev))
  }

  lemma SurvivingMembers(es: seq<Entry>, ev: Event)
    ensures forall e :: e in Surviving(es, ev) <==> e in es && Survives(e.key, ev)
  {
    FilterMembers(es, Survivor(ev));
  }

  lemma {:induction false} NoneSurvive(es: seq<Entry>)
    ensures Surviving(es, Clear) == []
  {
    if es != [] {
      NoneSurvive(es[..|es| - 1]);
    }
  }

  /** A finished read becomes the newest entry; at the limit the oldest goes. */
  function After(es: seq<Entry>, ev: Event): (r: seq<Entry>)
  {
    var left := Surviving(es, ev);
    if ev.Done? then (if |left| == EVIDENCE_LIMIT then left[1..] else left) + [Entry(ev.key, ev.error)] else left
  }

  ghost function Cache(h: seq<Event>, n: nat): (es: seq<Entry>)
    requires n <= |h|
  {
    if n == 0 then [] else After(Cache(h, n - 1), h[n - 1])
  }

  // The history read without a record

  /** The last finished read of a key, unless the record was cleared or the session retired since. */
  ghost function Last(h: seq<Event>, n: nat, key: Key): (t: Option<nat>)
    requires n <= |h|
    ensures t.Some? ==> t.value < n && h[t.value].Done? && h[t.value].key == key
  {
    if n == 0 then None
    else if h[n - 1].Done? && h[n - 1].key == key then Some(n - 1)
    else if Survives(key, h[n - 1]) then Last(h, n - 1, key)
    else None
  }

  ghost predicate Before(h: seq<Event>, n: nat, a: Key, b: Key)
    requires n <= |h|
  {
    Last(h, n, a).Some? && Last(h, n, b).Some? && Last(h, n, a).value < Last(h, n, b).value
  }

  /** The distinct keys, still live, whose reads finished after the last read of `key`. */
  ghost function Newer(h: seq<Event>, n: nat, key: Key): (keys: set<Key>)
    requires n <= |h|
    ensures forall k :: k in keys <==> Before(h, n, key, k)
  {
    var keys := set i | 0 <= i < n && h[i].Done? && Before(h, n, key, h[i].key) :: h[i].key;
    assert forall k :: Before(h, n, key, k) ==> h[Last(h, n, k).value].key == k;
    keys
  }

  /** Never since its last read were the limit's worth of other keys newer than it. */
  ghost predicate NeverPushedOut(h: seq<Event>, n: nat, key: Key)
    requires n <= |h|
  {
    Last(h, n, key).Some? && forall m :: Last(h, n, key).value < m <= n ==> |Newer(h, m, key)| < EVIDENCE_LIMIT
  }

  // The record against the history

  ghost predicate Ordered(h: seq<Event>, n: nat, es: seq<Entry>)
    requires n <= |h|
  {
    forall i, j :: 0 <= i < j < |es| ==> Before(h, n, es[i].key, es[j].key)
  }

  ghost predicate Accurate(h: seq<Event>, n: nat, es: seq<Entry>)
    requires n <= |h|
  {
    forall e :: e in es ==> Last(h, n, e.key).Some? && h[Last(h, n, e.key).value] == Done(e.key, e.error)
  }

  predicate Has(es: seq<Entry>, key: Key)
  {
    exists i :: 0 <= i < |es| && es[i].key == key
  }

  /** Everything newer than an entry has an entry. */
  ghost predicate Suffix(h: seq<Event>, n: nat, es: seq<Entry>)
    requires n <= |h|
  {
    forall e, k :: e in es && Before(h, n, e.key, k) ==> Has(es, k)
  }

  ghost predicate Faithful(h: seq<Event>, n: nat, es: seq<Entry>)
    requires n <= |h|
  {
    |es| <= EVIDENCE_LIMIT && Ordered(h, n, es) && Accurate(h, n, es) && Suffix(h, n, es)
  }

  lemma SurvivingOrdered(h: seq<Event>, n: nat, es: seq<Entry>, ev: Event)
    requires n <= |h| && Ordered(h, n, es)
    ensures Ordered(h, n, Surviving(es, ev))
  {
    var r := Surviving(es, ev);
    forall i, j | 0 <= i < j < |r| ensures Before(h, n, r[i].key, r[j].key) {
      var a, b := FilterPlaces(es, Survivor(ev), i, j);
      assert Before(h, n, es[a].key, es[b].key);
    }
  }

  lemma HasSurviving(es: seq<Entry>, ev: Event, key: Key)
    ensures Has(Surviving(es, ev), key) <==> Has(es, key) && Survives(key, ev)
  {
    var r := Surviving(es, ev);
    SurvivingMembers(es, ev);
    if Has(es, key) && Survives(key, ev) {
      var i :| 0 <= i < |es| && es[i].key == key;
      assert es[i] in r;
    }
    if Has(r, key) {
      var i :| 0 <= i < |r| && r[i].key == key;
      assert r[i] in es;
    }
  }

  /** What survives an event is as faithful to the longer history, short of the event's own key. */
  lemma SurvivorsFaithful(h: seq<Event>, n: nat, es: seq<Entry>)
    requires n < |h| && Faithful(h, n, es)
    ensures var left := Surviving(es, h[n]);
            && Ordered(h, n + 1, left) && Accurate(h, n + 1, left)
            && forall e, k :: e in left && Before(h, n + 1, e.key, k) && Survives(k, h[n]) ==> Has(left, k)
  {
    var left := Surviving(es, h[n]);
    SurvivingMembers(es, h[n]);
    SurvivingOrdered(h, n, es, h[n]);
    forall i, j | 0 <= i < j < |left| ensures Before(h, n + 1, left[i].key, left[j].key) {
      assert left[i] in left && left[j] in left;
    }
    forall e, k | e in left && Before(h, n + 1, e.key, k) && Survives(k, h[n]) ensures Has(left, k) {
      assert Before(h, n, e.key, k);
      HasSurviving(es, h[n], k);
    }
  }

  lemma AfterFaithful(h: seq<Event>, n: nat, es: seq<Entry>)
    requires n < |h| && Faithful(h, n, es)
    ensures Faithful(h, n + 1, After(es, h[n]))
  {
    AfterFaithfulTo(h, n, n + 1, es, After(es, h[n]));
  }

  lemma AfterFaithfulTo(h: seq<Event>, n: nat, m: nat, es: seq<Entry>, r: seq<Entry>)
    requires n < |h| && m == n + 1 && Faithful(h, n, es) && r == After(es, h[n])
    ensures Faithful(h, m, r)
  {
    var left := Surviving(es, h[n]);
    SurvivorsFaithful(h, n, es);
    SurvivingMembers(es, h[n]);
    if h[n].Done? {
      var kept := if |left| == EVIDENCE_LIMIT then left[1..] else left;
      KeptFaithful(h, n, left, kept);
    } else {
      forall e, k | e in left && Before(h, m, e.key, k) ensures Has(left, k) {
        assert Survives(k, h[n]);
      }
    }
  }

  lemma KeptFaithful(h: seq<Event>, n: nat, left: seq<Entry>, kept: seq<Entry>)
    requires n < |h| && h[n].Done? && Ordered(h, n + 1, left) && Accurate(h, n + 1, left)
    requires |left| <= EVIDENCE_LIMIT && kept == if |left| == EVIDENCE_LIMIT then left[1..] else left
    requires forall e :: e in left ==> Survives(e.key, h[n])
    requires forall e, k :: e in left && Before(h, n + 1, e.key, k) && Survives(k, h[n]) ==> Has(left, k)
    ensures Faithful(h, n + 1, kept + [Entry(h[n].key, h[n].error)])
  {
    var r := kept + [Entry(h[n].key, h[n].error)];
    KeptOrdered(h, n, left, kept);
    forall e, k | e in r && Before(h, n + 1, e.key, k) ensures Has(r, k) {
      HasLast(kept, Entry(h[n].key, h[n].error), k);
      if k != h[n].key {
        assert e in kept;
        NewerKept(h, n + 1, left, kept, e, k);
      }
    }
  }

  lemma HasLast(es: seq<Entry>, e: Entry, k: Key)
    ensures Has(es + [e], k) <==> Has(es, k) || e.key == k
  {
    assert (es + [e])[|es|] == e;
    assert forall i :: 0 <= i < |es| ==> (es + [e])[i] == es[i];
  }

  lemma KeptOrdered(h: seq<Event>, n: nat, left: seq<Entry>, kept: seq<Entry>)
    requires n < |h| && h[n].Done? && Ordered(h, n + 1, left) && Accurate(h, n + 1, left)
    requires kept == left || (left != [] && kept == left[1..])
    requires forall e :: e in left ==> Survives(e.key, h[n])
    ensures Ordered(h, n + 1, kept + [Entry(h[n].key, h[n].error)])
    ensures Accurate(h, n + 1, kept + [Entry(h[n].key, h[n].error)])
  {
    var r := kept + [Entry(h[n].key, h[n].error)];
    forall i, j | 0 <= i < j < |r| ensures Before(h, n + 1, r[i].key, r[j].key) {
      assert r[i] in left;
    }
  }

  lemma NewerKept(h: seq<Event>, n: nat, left: seq<Entry>, kept: seq<Entry>, e: Entry, k: Key)
    requires n <= |h| && Ordered(h, n, left) && (kept == left || (left != [] && kept == left[1..]))
    requires e in kept && Has(left, k) && Before(h, n, e.key, k)
    ensures Has(kept, k)
  {
    if kept != left {
      var j :| 0 <= j < |kept| && kept[j] == e;
      assert left[j + 1] == e;
      assert Before(h, n, left[0].key, left[j + 1].key);
      var i :| 0 <= i < |left| && left[i].key == k;
      assert kept[i - 1].key == k;
    }
  }

  /** At every moment the record is the newest part of the history, in order of completion. */
  lemma {:induction false} CacheFaithful(h: seq<Event>, n: nat)
    requires n <= |h|
    ensures Faithful(h, n, Cache(h, n))
  {
    if n > 0 {
      CacheFaithful(h, n - 1);
      AfterFaithfulTo(h, n - 1, n, Cache(h, n - 1), Cache(h, n));
    }
  }

  // Which keys the record knows

  ghost function KeysFrom(es: seq<Entry>, from: nat): (keys: set<Key>)
    requires from <= |es|
    ensures forall k :: k in keys <==> exists i :: from <= i < |es| && es[i].key == k
  {
    set i | from <= i < |es| :: es[i].key
  }

  ghost predicate Distinct(es: seq<Entry>)
  {
    forall i, j :: 0 <= i < j < |es| ==> es[i].key != es[j].key
  }

  lemma {:induction false} KeysFromCard(es: seq<Entry>, from: nat)
    requires Distinct(es) && from <= |es|
    ensures |KeysFrom(es, from)| == |es| - from
    decreases |es| - from
  {
    if from < |es| {
      KeysFromCard(es, from + 1);
      KeysFromStep(es, from);
    }
  }

  lemma KeysFromStep(es: seq<Entry>, from: nat)
    requires Distinct(es) && from < |es|
    ensures es[from].key !in KeysFrom(es, from + 1)
    ensures KeysFrom(es, from) == {es[from].key} + KeysFrom(es, from + 1)
  {
    forall k ensures k in KeysFrom(es, from) <==> k in {es[from].key} + KeysFrom(es, from + 1) {
    }
  }

  lemma OrderedDistinct(h: seq<Event>, n: nat, es: seq<Entry>)
    requires n <= |h| && Ordered(h, n, es)
    ensures Distinct(es)
  {
    forall i, j | 0 <= i < j < |es| ensures es[i].key != es[j].key {
      assert Before(h, n, es[i].key, es[j].key);
    }
  }

  lemma NewerThanEntry(h: seq<Event>, n: nat, es: seq<Entry>, p: nat)
    requires n <= |h| && Faithful(h, n, es) && p < |es|
    ensures |Newer(h, n, es[p].key)| == |es| - 1 - p
  {
    var x := es[p].key;
    forall k ensures k in Newer(h, n, x) <==> k in KeysFrom(es, p + 1) {
      if k in Newer(h, n, x) {
        assert es[p] in es && Has(es, k);
        var i :| 0 <= i < |es| && es[i].key == k;
      }
      if k in KeysFrom(es, p + 1) {
        var i :| p + 1 <= i < |es| && es[i].key == k;
        assert Before(h, n, es[p].key, es[i].key);
      }
    }
    assert Newer(h, n, x) == KeysFrom(es, p + 1);
    OrderedDistinct(h, n, es);
    KeysFromCard(es, p + 1);
  }

  /** Being pushed out means that the limit's worth of keys are newer. */
  lemma PushedOut(h: seq<Event>, n: nat, es: seq<Entry>, key: Key)
    requires n < |h| && Faithful(h, n, es) && Has(es, key) && Survives(key, h[n])
    requires !Has(After(es, h[n]), key)
    ensures |Newer(h, n + 1, key)| >= EVIDENCE_LIMIT
  {
    var left, r := Surviving(es, h[n]), After(es, h[n]);
    PushedFirst(es, h[n], key);
    SurvivorsFaithful(h, n, es);
    AfterFaithful(h, n, es);
    OrderedDistinct(h, n + 1, r);
    KeysFromCard(r, 0);
    RestNewer(h, n + 1, left, r, key);
    SubsetCard(KeysFrom(r, 0), Newer(h, n + 1, key));
  }

  lemma RestNewer(h: seq<Event>, n: nat, left: seq<Entry>, r: seq<Entry>, key: Key)
    requires 0 < n <= |h| && h[n - 1].Done? && Ordered(h, n, left) && Accurate(h, n, left)
    requires left != [] && left[0].key == key && Survives(key, h[n - 1])
    requires r == left[1..] + [Entry(h[n - 1].key, h[n - 1].error)]
    ensures KeysFrom(r, 0) <= Newer(h, n, key)
  {
    assert left[0] in left;
    forall k | k in KeysFrom(r, 0) ensures k in Newer(h, n, key) {
      var j :| 0 <= j < |r| && r[j].key == k;
      if j < |r| - 1 {
        assert Before(h, n, left[0].key, left[j + 1].key);
      }
    }
  }

  lemma PushedFirst(es: seq<Entry>, ev: Event, key: Key)
    requires Has(es, key) && Survives(key, ev)
    ensures || Has(After(es, ev), key)
            || (ev.Done? && |Surviving(es, ev)| == EVIDENCE_LIMIT && Surviving(es, ev)[0].key == key)
  {
    var left, r := Surviving(es, ev), After(es, ev);
    HasSurviving(es, ev, key);
    var i :| 0 <= i < |left| && left[i].key == key;
    if !ev.Done? || |left| != EVIDENCE_LIMIT {
      assert r[i].key == key;
    } else if i > 0 {
      assert r[i - 1].key == key;
    }
  }

  lemma {:induction false} SubsetCard<T>(a: set<T>, b: set<T>)
    requires a <= b
    ensures |a| <= |b|
  {
    assert b == a + (b - a);
  }

  /** A key is known iff it was read since the last clear or retirement and never pushed out since. */
  lemma {:induction false} KnownIff(h: seq<Event>, n: nat, key: Key)
    requires n <= |h|
    ensures Has(Cache(h, n), key) <==> NeverPushedOut(h, n, key)
  {
    if n > 0 {
      KnownIff(h, n - 1, key);
      if Has(Cache(h, n), key) {
        KnownStays(h, n, key);
      } else {
        UnknownStays(h, n, key);
      }
    }
  }

  lemma KnownBefore(es: seq<Entry>, ev: Event, key: Key)
    requires Has(After(es, ev), key) && !(ev.Done? && ev.key == key)
    ensures Has(es, key) && Survives(key, ev)
  {
    var r := After(es, ev);
    SurvivingMembers(es, ev);
    var p :| 0 <= p < |r| && r[p].key == key;
    assert r[p] in Surviving(es, ev);
    var i :| 0 <= i < |es| && es[i] == r[p];
    assert es[i].key == key;
  }

  lemma KnownStays(h: seq<Event>, n: nat, key: Key)
    requires 0 < n <= |h| && Has(Cache(h, n), key)
    requires Has(Cache(h, n - 1), key) ==> NeverPushedOut(h, n - 1, key)
    ensures NeverPushedOut(h, n, key)
  {
    var r := Cache(h, n);
    var p :| 0 <= p < |r| && r[p].key == key;
    CacheFaithful(h, n);
    NewerThanEntry(h, n, r, p);
    if !(h[n - 1].Done? && h[n - 1].key == key) {
      KnownBefore(Cache(h, n - 1), h[n - 1], key);
    }
  }

  lemma UnknownStays(h: seq<Event>, n: nat, key: Key)
    requires 0 < n <= |h| && !Has(Cache(h, n), key)
    requires NeverPushedOut(h, n - 1, key) ==> Has(Cache(h, n - 1), key)
    ensures !NeverPushedOut(h, n, key)
  {
    var es, r := Cache(h, n - 1), Cache(h, n);
    if h[n - 1].Done? {
      assert r[|r| - 1].key == h[n - 1].key;
    }
    if Survives(key, h[n - 1]) && Has(es, key) {
      CacheFaithful(h, n - 1);
      PushedOut(h, n - 1, es, key);
    }
  }

  // The record as the client keeps it

  datatype State = NoLocation | Unknown | Loading | Readable | Failed(error: string)

  datatype Frame = Frame(session: string, file: Option<string>, line: Option<nat>)

  datatype Pending = Pending(generation: nat, keys: seq<Key>)

  predicate Usable(f: Frame)
  {
    f.file.Some? && f.file.value != "" && f.line.Some? && 0 < f.line.value <= MAX_LINE
  }

  function Outcome(error: Option<string>): (s: State)
  {
    if error.Some? then Failed(error.value) else Readable
  }

  function Dones(keys: seq<Key>, error: Option<string>): (h: seq<Event>)
  {
    seq(|keys|, i requires 0 <= i < |keys| => Done(keys[i], error))
  }

  /** Only the first `n` events decide. */
  lemma {:induction false} CachePrefix(h: seq<Event>, more: seq<Event>, n: nat)
    requires n <= |h|
    ensures Cache(h + more, n) == Cache(h, n)
  {
    if n > 0 {
      CachePrefix(h, more, n - 1);
    }
  }

  lemma CacheAppend(h: seq<Event>, ev: Event)
    ensures Cache(h + [ev], |h| + 1) == After(Cache(h, |h|), ev)
  {
    CachePrefix(h, [ev], |h|);
  }

  class Sources {
    var evidence: seq<Entry>
    var pending: Option<Pending>
    var status: string
    var statusError: Option<string>
    ghost var history: seq<Event>

    ghost predicate Valid()
      reads this
    {
      evidence == Cache(history, |history|)
    }

    constructor ()
      ensures Valid() && history == [] && pending == None
    {
      evidence, pending, status, statusError, history := [], None, "", None, [];
    }

    method DropAll()
      requires Valid()
      modifies this`evidence, this`pending, this`history
      ensures Valid() && history == old(history) + [Clear] && pending == None
    {
      CacheAppend(history, Clear);
      NoneSurvive(evidence);
      evidence, pending, history := [], None, history + [Clear];
    }

    method RetainSessions(sessions: seq<string>)
      requires Valid()
      modifies this`evidence, this`pending, this`history
      ensures Valid() && history == old(history) + [Keep(sessions)]
      ensures pending == if old(pending).None? then None
                         else Some(Pending(old(pending).value.generation, LiveKeys(old(pending).value.keys, sessions)))
    {
      CacheAppend(history, Keep(sessions));
      evidence := Retain(evidence, Survivor(Keep(sessions)));
      history := history + [Keep(sessions)];
      if pending.Some? {
        var keys := Retain(pending.value.keys, InSessions(sessions));
        pending := Some(pending.value.(keys := keys));
      }
    }

    /** Only the read the browser is waiting for is registered, for exactly the keys it answers for. */
    method Begin(browser: Option<nat>, generation: nat, ctx: Context, address: Address)
      modifies this`pending
      ensures browser != Some(generation) ==> pending == old(pending)
      ensures browser == Some(generation) ==>
                && (pending.None? <==> OtherBackend(ctx, address))
                && (pending.Some? ==> pending.value == Pending(generation, RequestKeys(ctx, address)))
                && (pending.Some? ==> forall k :: k in pending.value.keys <==> Answers(ctx, address, k))
    {
      if browser != Some(generation) {
        return;
      }
      if address.Resolve? && address.instance.Some? && ctx.instance != address.instance {
        pending := None;
        return;
      }
      var keys := KeysOf(ctx, address);
      forall k ensures k in keys <==> Answers(ctx, address, k) {
        RegistersIff(ctx, address, k);
      }
      pending := Some(Pending(generation, keys));
    }

    /** The pending read finishes: one completion per key, in order; any other generation is ignored. */
    method Finish(generation: nat, error: Option<string>)
      requires Valid()
      modifies this
      ensures Valid()
      ensures var accepted := old(pending).Some? && old(pending).value.generation == generation;
              && history == old(history) + (if accepted then Dones(old(pending).value.keys, error) else [])
              && pending == (if accepted then None else old(pending))
              && (if accepted && error.None? && old(statusError) == Some(old(status)) &&
                     exists e :: e in old(evidence) && e.key in old(pending).value.keys && e.error == old(statusError)
                  then status == LOADED && statusError == None
                  else status == old(status) && statusError == old(statusError))
    {
      if pending.None? || pending.value.generation != generation {
        return;
      }
      var keys := pending.value.keys;
      pending := None;
      var shown := error.None? && statusError == Some(status) && AnyFailure(evidence, keys, status);
      Record(keys, error);
      if shown {
        status, statusError := LOADED, None;
      }
    }

    method RecordOne(key: Key, error: Option<string>)
      requires Valid()
      modifies this`evidence, this`history
      ensures Valid() && history == old(history) + [Done(key, error)]
    {
      CacheAppend(history, Done(key, error));
      var left := Retain(evidence, Survivor(Done(key, error)));
      if |left| == EVIDENCE_LIMIT {
        left := left[1..];
      }
      evidence := left + [Entry(key, error)];
      history := history + [Done(key, error)];
    }

    method Record(keys: seq<Key>, error: Option<string>)
      requires Valid()
      modifies this`evidence, this`history
      ensures Valid() && history == old(history) + Dones(keys, error)
    {
      var i := 0;
      while i < |keys|
        invariant i <= |keys| && Valid()
        invariant history == old(history) + Dones(keys, error)[..i]
      {
        RecordOne(keys[i], error);
        i := i + 1;
      }
    }

    /**
     With no load pending for it, a usable location shows the last accepted result for exactly that
     session and path, and is unknown iff there is none or it was pushed out.
     */
    method Status(f: Frame, browser: Option<nat>) returns (s: State)
      requires Valid()
      ensures !Usable(f) <==> s == NoLocation
      ensures Usable(f) ==>
                var key := Key(f.session, f.file.value);
                if pending.Some? && browser == Some(pending.value.generation) && key in pending.value.keys then s == Loading
                else if NeverPushedOut(history, |history|, key) then
                  s == Outcome(history[Last(history, |history|, key).value].error)
                else s == Unknown
    {
      if !Usable(f) {
        return NoLocation;
      }
      var key := Key(f.session, f.file.value);
      if pending.Some? && browser == Some(pending.value.generation) && key in pending.value.keys {
        return Loading;
      }
      KnownIff(history, |history|, key);
      CacheFaithful(history, |history|);
      var i := |evidence|;
      while i > 0
        invariant 0 <= i <= |evidence|
        invariant forall j :: i <= j < |evidence| ==> evidence[j].key != key
      {
        i := i - 1;
        if evidence[i].key == key {
          assert evidence[i] in evidence;
          return Outcome(evidence[i].error);
        }
      }
      s := Unknown;
    }
  }

  const LOADED := "Source loaded"

  predicate AnyFailure(es: seq<Entry>, keys: seq<Key>, text: string)
  {
    exists e :: e in es && e.key in keys && e.error == Some(text)
  }
}
