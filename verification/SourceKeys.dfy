/**
 Which sessions and paths a source read answers for.
 */
module SourceKeys {
  import opened Wrappers
  import opened Targets
  import opened Sequences

  datatype Key = Key(session: string, path: string)

  /** Where a thread runs, as the thread list or the stack says. */
  datatype Place = Place(threadId: string, session: string)

  /** What the client knows when a read starts. */
  datatype Context = Context(
    instance: Option<string>,
    sessions: seq<string>,
    threads: seq<Place>,
    frames: seq<Place>)

  /** `owners` are the sessions a file belongs to; a local file without session tags has an owning instance. */
  datatype Source =
    | Ddb(from: string, path: Option<string>, owners: seq<string>)
    | Local(tagged: bool, ownerInstance: Option<string>, path: Option<string>, owners: seq<string>)

  datatype Address =
    | Resolve(instance: Option<string>, target: Option<Target>, path: Option<string>)
    | File(source: Source)
    | Export(root: Option<Source>)

  /** The session of the first place of a thread. */
  function SessionIn(places: seq<Place>, id: string): (s: Option<string>)
  {
    var i := FirstIndex(places, (p: Place) => p.threadId == id);
    if i < |places| then Some(places[i].session) else None
  }

  /** The one session a target stands for: none for a group, a set or a broadcast. */
  function SessionOf(ctx: Context, target: Option<Target>): (s: Option<string>)
  {
    if target.None? then None
    else match target.value
         case Session(id) => Some(id)
         case Thread(id) =>
           var listed := SessionIn(ctx.threads, id);
           if listed.Some? then listed else SessionIn(ctx.frames, id)
         case _ => None
  }

  function InSessions(sessions: seq<string>): (p: Key -> bool)
  {
    (k: Key) => k.session in sessions
  }

  function LiveKeys(keys: seq<Key>, sessions: seq<string>): (r: seq<Key>)
    ensures forall k :: k in r <==> k in keys && k.session in sessions
  {
    FilterMembers(keys, InSessions(sessions));
    Filter(keys, InSessions(sessions))
  }

  function KeysOn(path: string, owners: seq<string>): (r: seq<Key>)
    ensures |r| == |owners| && forall i :: 0 <= i < |r| ==> r[i] == Key(owners[i], path)
  {
    seq(|owners|, i requires 0 <= i < |owners| => Key(owners[i], path))
  }

  /** The file is of another backend, or of none that could be told. */
  predicate Foreign(ctx: Context, s: Source)
  {
    match s
    case Ddb(from, _, _) => ctx.instance != Some(from)
    case Local(tagged, owner, _, _) => !tagged && owner != ctx.instance
  }

  /** An exported local file carries no owner of its own; only session tags give it owners. */
  function Exported(s: Source): (r: Source)
    requires s.Local?
  {
    s.(ownerInstance := None, owners := if s.tagged then s.owners else [])
  }

  function FileKeys(ctx: Context, s: Source): (r: seq<Key>)
  {
    if Foreign(ctx, s) || s.path.None? then [] else LiveKeys(KeysOn(s.path.value, s.owners), ctx.sessions)
  }

  /** A read for another backend has no keys to register at all. */
  predicate OtherBackend(ctx: Context, a: Address)
  {
    a.Resolve? && a.instance.Some? && ctx.instance != a.instance
  }

  function RequestKeys(ctx: Context, a: Address): (r: seq<Key>)
  {
    match a
    case Resolve(_, target, path) =>
      var session := SessionOf(ctx, target);
      if session.Some? && path.Some? && session.value != "" && path.value != "" then [Key(session.value, path.value)] else []
    case File(source) => FileKeys(ctx, source)
    case Export(root) =>
      if root.Some? && root.value.Local? then FileKeys(ctx, Exported(root.value)) else []
  }

  /** The read answers for exactly this session and path. */
  ghost predicate Answers(ctx: Context, a: Address, k: Key)
  {
    match a
    case Resolve(_, target, path) =>
      && target.Some? && path == Some(k.path) && k.path != "" && k.session != ""
      && (|| target.value == Session(k.session)
          || (target.value.Thread? && Runs(ctx, target.value.threadId, k.session)))
    case File(source) => Owns(ctx, source, k)
    case Export(root) => root.Some? && root.value.Local? && Owns(ctx, Exported(root.value), k)
  }

  ghost predicate Knows(places: seq<Place>, id: string)
  {
    exists i :: 0 <= i < |places| && places[i].threadId == id
  }

  /** The first place of the thread is in that session. */
  ghost predicate Places(places: seq<Place>, id: string, session: string)
  {
    exists i :: 0 <= i < |places| && places[i] == Place(id, session) && forall j :: 0 <= j < i ==> places[j].threadId != id
  }

  /** The thread list places the thread there, or does not know it and the stack does. */
  ghost predicate Runs(ctx: Context, id: string, session: string)
  {
    Places(ctx.threads, id, session) || (!Knows(ctx.threads, id) && Places(ctx.frames, id, session))
  }

  lemma SessionInIff(places: seq<Place>, id: string, session: string)
    ensures SessionIn(places, id) == Some(session) <==> Places(places, id, session)
    ensures SessionIn(places, id) == None <==> !Knows(places, id)
  {
    var i := FirstIndex(places, (p: Place) => p.threadId == id);
    if i < |places| {
      assert places[i] == Place(id, places[i].session);
    }
  }

  ghost predicate Owns(ctx: Context, s: Source, k: Key)
  {
    !Foreign(ctx, s) && s.path == Some(k.path) && k.session in s.owners && k.session in ctx.sessions
  }

  lemma FileKeysIff(ctx: Context, s: Source, k: Key)
    ensures k in FileKeys(ctx, s) <==> Owns(ctx, s, k)
  {
    if !Foreign(ctx, s) && s.path.Some? {
      var keys := KeysOn(s.path.value, s.owners);
      if k in keys {
        var i :| 0 <= i < |keys| && keys[i] == k;
        assert s.owners[i] == k.session;
      }
      if k.session in s.owners && k.path == s.path.value {
        var i :| 0 <= i < |s.owners| && s.owners[i] == k.session;
        assert keys[i] == k;
      }
    }
  }

  /** A read registers exactly the keys it answers for. */
  lemma RegistersIff(ctx: Context, a: Address, k: Key)
    ensures k in RequestKeys(ctx, a) <==> Answers(ctx, a, k)
  {
    match a
    case Resolve(_, target, _) =>
      if target.Some? && target.value.Thread? {
        SessionInIff(ctx.threads, target.value.threadId, k.session);
        SessionInIff(ctx.frames, target.value.threadId, k.session);
      }
    case File(source) => FileKeysIff(ctx, source, k);
    case Export(root) =>
      if root.Some? && root.value.Local? {
        FileKeysIff(ctx, Exported(root.value), k);
      }
  }

  /** A resolution answers for one session at most, so its failure is held against no other; an ambiguous one for none. */
  lemma ResolutionAnswersForOne(ctx: Context, a: Address, k: Key, other: Key)
    requires a.Resolve?
    ensures Answers(ctx, a, k) && Answers(ctx, a, other) ==> k == other
    ensures Answers(ctx, a, k) ==> RequestKeys(ctx, a) == [k]
    ensures a.target.None? || !(a.target.value.Session? || a.target.value.Thread?) ==> RequestKeys(ctx, a) == []
  {
    RegistersIff(ctx, a, k);
    RegistersIff(ctx, a, other);
  }

  // As computed

  method FindSession(places: seq<Place>, id: string) returns (s: Option<string>)
    ensures s == SessionIn(places, id)
  {
    var i := 0;
    while i < |places|
      invariant i <= |places| && forall j :: 0 <= j < i ==> places[j].threadId != id
    {
      if places[i].threadId == id {
        return Some(places[i].session);
      }
      i := i + 1;
    }
    return None;
  }

  method KeysOfFile(ctx: Context, s: Source) returns (r: seq<Key>)
    ensures r == FileKeys(ctx, s)
  {
    if Foreign(ctx, s) || s.path.None? {
      return [];
    }
    r := Retain(KeysOn(s.path.value, s.owners), InSessions(ctx.sessions));
  }

  method KeysOf(ctx: Context, a: Address) returns (r: seq<Key>)
    ensures r == RequestKeys(ctx, a)
  {
    match a
    case Resolve(_, target, path) =>
      var session := None;
      if target.Some? && target.value.Session? {
        session := Some(target.value.sessionId);
      } else if target.Some? && target.value.Thread? {
        session := FindSession(ctx.threads, target.value.threadId);
        if session.None? {
          session := FindSession(ctx.frames, target.value.threadId);
        }
      }
      if session.Some? && path.Some? && session.value != "" && path.value != "" {
        return [Key(session.value, path.value)];
      }
      return [];
    case File(source) =>
      r := KeysOfFile(ctx, source);
    case Export(root) =>
      if root.Some? && root.value.Local? {
        r := KeysOfFile(ctx, Exported(root.value));
      } else {
        r := [];
      }
  }
}
