/**
 The projection and the intent tracker together: a snapshot of another backend is what retires the
 intents issued to the old one.
 */
module BackendReplacement {
  import opened Intents
  import opened IntentFeedback
  import P = Projection
  import ProjectionRuns
  import Frontend

  class Client {
    const app: Frontend.App
    const operations: Feedback

    ghost predicate Valid()
      reads this, operations, operations.generations
    {
      operations.Valid()
    }

    constructor ()
      ensures Valid() && app.Abs() == P.INITIAL && operations.View() == EMPTY
      ensures fresh(app) && fresh(operations) && fresh(operations.generations)
    {
      app := new Frontend.App();
      operations := new Feedback();
    }

    /**
     A snapshot taken over from another established backend retires every flag ever shared with a
     worker, including those of intents the history has dropped; any other snapshot retires none.
     */
    method OnSnapshot(s: P.Snapshot) returns (messages: seq<string>)
      requires Valid()
      modifies app, operations, operations.backendGuard
      ensures Valid() && app.Abs() == P.AcceptSnapshot(old(app.Abs()), s)
      ensures P.Replaces(old(app.Abs()), s) ==>
                && operations.View() == Disconnected(old(operations.View()), true)
                && fresh(operations.backendGuard) && !operations.backendGuard.retired
                && (forall g :: g in old(operations.generations) ==> g.retired)
                && messages == Interruptions(old(operations.entries), true, |old(operations.entries)|)
      ensures !P.Replaces(old(app.Abs()), s) ==>
                && operations.View() == old(operations.View())
                && operations.generations == old(operations.generations)
                && operations.backendGuard == old(operations.backendGuard)
                && messages == []
    {
      var replaced := s.instance != "" && app.instance.Some? && app.instance.value != s.instance;
      app.OnSnapshot(s);
      assert operations.View() == old(operations.View()) && operations.Valid();
      messages := [];
      if replaced {
        messages := operations.Disconnect(true);
      }
    }

    /** A refresh never replaces the backend, so it retires nothing. */
    method OnRefresh(s: P.Snapshot)
      requires Valid()
      modifies app
      ensures Valid() && app.Abs() == P.AcceptRefresh(old(app.Abs()), s)
      ensures old(app.instance).Some? ==> app.instance == old(app.instance)
    {
      ghost var before := app.Abs();
      app.OnRefresh(s);
      if P.SnapshotInstanceMatches(before, s) && !P.SnapshotIsStale(before, s) {
        ProjectionRuns.ApplySnapshotFields(before, s);
      }
    }
  }
}
