/**
 Runs of the projection in which displayed data are not those of the selected thread or inspection.
 */
module ProjectionExamples {
  import opened Wrappers
  import opened Ordering
  import opened Projection
  import opened ProjectionRuns

  const FIRST := ThreadItem("a", "s", Stopped)
  const SECOND := ThreadItem("b", "s", Stopped)

  /** Threads "a" and "b" are listed, "a" is selected, and at least one epoch has begun. */
  ghost predicate Listed(v: View)
  {
    v.threads == [FIRST, SECOND] && v.selectedThread == 0 && v.epoch > 0
  }

  function Arrival(): (s: Snapshot)
  {
    Snapshot("i", 0, 0, ["s"], [], [ReportedThread(FIRST, false), ReportedThread(SECOND, false)])
  }

  lemma ArrivalSorted()
    ensures SortBy(Items(Arrival().threads), ById()) == [FIRST, SECOND]
    ensures FirstSelected(Arrival().threads) == None
  {
    var ts := Arrival().threads;
    assert Items(ts) == [FIRST, SECOND];
    assert StringLe("a", "b");
    SortedStays([FIRST, SECOND], ById());
    assert ts[1..] == [ReportedThread(SECOND, false)] && ts[1..][1..] == [];
    assert FirstSelected(ts[1..]) == FirstSelected(ts[1..][1..]);
  }

  lemma ArrivalListed()
    ensures Listed(AcceptSnapshot(INITIAL, Arrival()))
  {
    var mid := ApplySnapshot(INITIAL, Arrival());
    assert mid.threads == [] && mid.selectedThread == 0;
    ArrivalSorted();
    var relisted := Relist(mid, Arrival().threads);
    assert relisted.threads == [FIRST, SECOND] && relisted.selectedThread == 0;
  }

  /** The run of the arrival alone. */
  lemma Arrived() returns (views: seq<View>, steps: seq<Step>)
    ensures IsRun(views, steps) && |views| == 2 && Listed(views[1]) && Invariant(views[1])
  {
    ArrivalListed();
    var v := RunGoesOn([INITIAL], [], Stream(Arrival()));
    views, steps := [INITIAL] + [v], [] + [Stream(Arrival())];
    DataCarryCurrentGeneration(views, steps, 1);
  }

  /** Registers of "a" stay displayed after "b" is selected without inspecting it. */
  lemma SelectionLeavesData() returns (views: seq<View>, steps: seq<Step>, d: Datum)
    ensures IsRun(views, steps) && |views| > 0
    ensures var v := views[|views| - 1]; Displays(v, d) && d.threadId == "a" && CurrentId(v) == Some("b")
  {
    views, steps := Arrived();
    var v := views[1];
    d := Datum(v.epoch, "a", false, "registers");
    var shown := RunGoesOn(views, steps, Deliver(Registers, v.epoch, "a", false, "registers"));
    assert shown.registers == [d] && shown.threads == v.threads;
    views, steps := views + [shown], steps + [Deliver(Registers, v.epoch, "a", false, "registers")];
    var moved := RunGoesOn(views, steps, SelectThread("b"));
    assert shown.threads[0].id == "a" && shown.threads[1].id == "b";
    assert PositionOf(shown.threads, "b") == 1;
    views, steps := views + [moved], steps + [SelectThread("b")];
  }

  /** The stop of "b", with the focus. */
  const STOP := Stop("b", false, true)

  /** "b" is being inspected and "a" was selected since; a stop of "b" selects it again and inspects nothing. */
  ghost predicate LookingAway(v: View)
  {
    v.threads == [FIRST, SECOND] && v.selectedThread == 0 && v.inspected == Some("b") && v.generation == GenerationOf(v.epoch)
  }

  lemma StopReturns(v: View)
    requires LookingAway(v)
    ensures var r := HandleStop(v, STOP);
            && CurrentId(r) == Some("b")
            && r.variables == v.variables && r.registers == v.registers && r.memory == v.memory
  {
    PauseSelects(v, STOP);
    assert v.threads[1].id == "b";
  }

  /** "b" is selected and being inspected. */
  ghost predicate Looking(v: View)
  {
    v.threads == [FIRST, SECOND] && v.selectedThread == 1 && v.inspected == Some("b") && v.generation == GenerationOf(v.epoch)
  }

  lemma LookingBegun() returns (views: seq<View>, steps: seq<Step>)
    ensures IsRun(views, steps) && |views| > 0 && Looking(views[|views| - 1])
  {
    views, steps := Arrived();
    InspectSecond(views[1]);
    var begun := RunGoesOn(views, steps, Inspect("b"));
    views, steps := views + [begun], steps + [Inspect("b")];
  }

  lemma InspectSecond(v: View)
    requires Listed(v) && Invariant(v)
    ensures Looking(InspectThread(v, "b"))
  {
    assert v.threads[0].id == "a" && v.threads[1].id == "b";
    assert PositionOf(v.threads, "b") == 1;
    GenerationAdvances(v.epoch);
  }

  lemma LookAway(v: View)
    requires Looking(v)
    ensures LookingAway(Select(v, "a")) && Select(v, "a") == v.(selectedThread := 0)
  {
    assert v.threads[0].id == "a";
    assert PositionOf(v.threads, "a") == 0;
  }

  /** The user selects "a" at the end of a run. */
  lemma LooksAway(views: seq<View>, steps: seq<Step>) returns (next: View)
    requires IsRun(views, steps) && Looking(views[|views| - 1])
    ensures IsRun(views + [next], steps + [SelectThread("a")]) && LookingAway(next)
    ensures next == views[|views| - 1].(selectedThread := 0)
  {
    LookAway(views[|views| - 1]);
    next := RunGoesOn(views, steps, SelectThread("a"));
  }

  /** A stop can give data back their thread: the user selected "a" last, and "b" is selected with its registers. */
  lemma StopRestoresThread() returns (views: seq<View>, steps: seq<Step>, d: Datum)
    ensures IsRun(views, steps) && |steps| >= 2
    ensures steps[|steps| - 2] == SelectThread("a") && steps[|steps| - 1] == StopSeen(STOP)
    ensures var v := views[|views| - 1]; Displays(v, d) && d.threadId == "b" && CurrentId(v) == Some("b")
  {
    views, steps := LookingBegun();
    var v := views[|views| - 1];
    d := Datum(v.epoch, "b", false, "registers");
    var reply := Deliver(Registers, v.epoch, "b", false, "registers");
    var shown := RunGoesOn(views, steps, reply);
    assert shown == v.(registers := [d]);
    views, steps := views + [shown], steps + [reply];
    var away := LooksAway(views, steps);
    views, steps := views + [away], steps + [SelectThread("a")];
    StopReturns(away);
    var r := RunGoesOn(views, steps, StopSeen(STOP));
    views, steps := views + [r], steps + [StopSeen(STOP)];
  }

  /** A stop can take data from their thread: a reply for "a" is displayed, then "b" is selected with it. */
  lemma StopLeavesData() returns (views: seq<View>, steps: seq<Step>, d: Datum)
    ensures IsRun(views, steps) && |steps| >= 2
    ensures steps[|steps| - 2].Deliver? && steps[|steps| - 1] == StopSeen(STOP)
    ensures var v := views[|views| - 1]; Displays(v, d) && d.threadId == "a" && CurrentId(v) == Some("b")
  {
    views, steps := LookingBegun();
    var v := LooksAway(views, steps);
    views, steps := views + [v], steps + [SelectThread("a")];
    d := Datum(v.epoch, "a", false, "child");
    var reply := Deliver(Children, v.epoch, "a", false, "child");
    var shown := RunGoesOn(views, steps, reply);
    assert shown == v.(variables := v.variables + [d]);
    views, steps := views + [shown], steps + [reply];
    StopReturns(shown);
    var r := RunGoesOn(views, steps, StopSeen(STOP));
    views, steps := views + [r], steps + [StopSeen(STOP)];
  }

  /** Frame inspections only count epochs. */
  lemma {:induction false} FramesGoOn(views: seq<View>, steps: seq<Step>, n: nat)
    returns (moreViews: seq<View>, moreSteps: seq<Step>)
    requires IsRun(views, steps) && Listed(views[|views| - 1])
    ensures IsRun(moreViews, moreSteps) && Listed(moreViews[|moreViews| - 1])
    ensures moreViews[|moreViews| - 1].epoch == views[|views| - 1].epoch + n
    decreases n
  {
    if n == 0 {
      return views, steps;
    }
    var vs, ss := FramesGoOn(views, steps, n - 1);
    var next := RunGoesOn(vs, ss, InspectFrame);
    return vs + [next], ss + [InspectFrame];
  }

  /** After a whole turn of the counter a reply to an inspection long gone is displayed. */
  lemma StaleReplyReached() returns (views: seq<View>, steps: seq<Step>, d: Datum)
    ensures IsRun(views, steps) && |views| > 0
    ensures var v := views[|views| - 1]; Displays(v, d) && d.epoch + U64_MAX == v.epoch
  {
    views, steps := Arrived();
    var epoch := views[1].epoch;
    views, steps := FramesGoOn(views, steps, U64_MAX);
    var v := views[|views| - 1];
    DataCarryCurrentGeneration(views, steps, |views| - 1);
    assert CurrentId(v) == Some("a");
    StaleReplyShownIff(v, Registers, epoch, "a", false, "registers");
    d := Datum(epoch, "a", false, "registers");
    var step := Deliver(Registers, epoch, "a", false, "registers");
    var shown := RunGoesOn(views, steps, step);
    assert shown == Shown(v, Registers, d);
    views, steps := views + [shown], steps + [step];
  }
}
