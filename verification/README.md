# Verified models of DDB

DDB is a debugger for distributed programs. This project models, in Dafny 4.11, the parts of it that carry
state across time, and proves what they keep:

- `libddb`: the preloaded library that records which thread waits for which mutex and which thread owns it,
  in shared tables read by the debugger. The slot allocators, the lock and unlock paths as a state machine over
  every interleaving, the identity of owners, and what a cycle in the tables says about a real deadlock.
- `ddb-tui`: the terminal client. The intent tracker (what became of each request the user made), the projection
  of backend snapshots (ordering, instance changes, inspection data, execution target), stable breakpoint order,
  the flat variable list as a forest, the bounded record of source reads, the output pane, cell-exact clipping,
  and the breakpoint option syntax.
- `bench`: the chunked reader of debugger output.

Where the source updates fields or arrays in place there is a `class` or an array method, proved equal to a value
level specification; what the source promises is proved about that specification, over every input or every run.

| module | subject |
|---|---|
| `SlotTable`, `ShimTables` | the three slot allocators and the tables of the library |
| `LockTracking`, `LockIdentity`, `LockDeadlock`, `LockHandoff`, `LockFailures` | interleavings of lock and unlock, owner names, cycles, failed unlocks |
| `Intents`, `IntentRuns`, `IntentFeedback` | the intent tracker, its runs, and the object with its shared retirement flags |
| `Projection`, `ProjectionRuns`, `ProjectionExamples`, `Frontend`, `BackendReplacement` | the projection, its runs, the client object, and both together |
| `Ordering`, `BreakpointOrder` | stable sorting and the order of breakpoints |
| `VariableForest`, `VariablePane`, `InspectionPane` | the flat variable list and the pane |
| `SourceKeys`, `FrameSources` | what a source read answers for, and the record of reads against its whole history |
| `OutputLog` | the output pane |
| `ChunkedReader` | buffering of incomplete responses |
| `CellClip` | clipping and truncation by terminal cells |
| `OptionParser`, `OptionText`, `Decimals` | breakpoint options and every way of writing them |
| `Wrappers`, `Targets`, `Paths`, `Sequences` | shared datatypes, paths of a transition function, searches and filters |

## Properties that are false as first stated, and when they hold

- Owner entries do not always name the holder: the unlock path releases the real mutex before it removes an entry,
  and removes the first entry for that mutex whoever it names. `HandoffMisnames` gives the run;
  `NamesThroughRunIff` gives the exact condition, and `NoHandoffKeepsNames` the discipline under which it holds.
- A refused real lock (the return value is ignored) still registers an owner. The counts include these registrations.
- A real unlock that fails still removes an entry. The entries of a mutex then stay equal to its registrations iff a
  refused registration is there to be taken back, or there is no entry (`FailedUnlockKeepsIff`), and throughout a run
  iff this holds at each failed unlock (`RunKeepsIff`); it does if no mutex ever has more unlocks failed than locks
  refused (`PairedRunKeeps`). `EntryStolenReached` reaches a failed unlock that breaks it, and `EntryStolen` shows the
  holder then searching for an entry that is gone.
- A cycle in the tables need not be a deadlock. In any run that was honest about the mutexes of the cycle, or had no
  handoff and no refusal of them, it is a deadlock iff none of its threads was turned away
  (`CycleIffDeadlockInRun`, `CycleIffDeadlockNoHandoff`). `PhantomCycle` reaches a cycle without deadlock after a
  handoff, with nobody turned away, and `TurnedAwayCycle` one by a refusal. In any state whatever, a cycle nobody was
  turned away from is one iff every owner shown still has a registration of its own (`ShownCycleIff`).
- Revision and sequence can go back for one instance: a snapshot without an instance identity is never stale.
  `UnidentifiedLowers` gives the run and `LowersIff` the exact condition.
- A reply requested under an older inspection generation can be shown: only a whole turn of the 64-bit counter later
  (`StaleReplyShownIff`). `StaleReplyReached` gives the run.
- Displayed data need not be those of the selected thread. The selection moves without a new inspection when the user
  selects another thread (`SelectionLeavesData`), and when a stop takes the focus to a thread that has already been
  asked about (`StopLeavesData`; in `StopRestoresThread` such a stop undoes a choice of the user).
  `DatumNamesSelectedIff` says exactly when they are: nothing was picked since delivery, by the user or by a stop with
  the focus, or the last pick is the thread of the datum.
- Clipping a line span by span differs from clipping its text iff a zero-width glyph sits on the clipped edge of a
  span (`LineClipIff`; `AccentLost` is such a line); with glyphs of at least one cell it never does
  (`WideGlyphsAreClean`).
- A bare condition is read as written iff it does not start with an option word (`BareConditionIff`;
  `ConditionLosesIf`); a function name comes back iff no separator is hidden in it (`FunctionRoundTripIff` and
  `NameAloneIff`; `DashedNameSplits` and `NameWithSeparatorSplits`).
- Output pushed in two pieces gives the same lines as in one iff the first piece ends a line or one is empty
  (`SplitConcatIff`; `CutWord`).
- The order in which breakpoints and members arrive is forgotten iff rows with equal ids are equal up to the order of
  their members, and members of a row with equal ids are equal (`StabilizeForgetsIff`; `SharedIdShows` gives rows for
  which it is not).
- A row that asks for its children need not get them: they go to the first row with the same identity. It gets them
  iff that is the row itself (`ChildrenArriveIff`). Otherwise it stays loading, or is deleted if it lies below that
  row (`LaterRowWaits`; `AskingRowGone`). Expanding and collapsing again restores the list under the same condition
  (`ExpandThenCollapseIff`).

## Model

| member | source | states |
|---|---|---|
| `SlotTable.ReuseScanSucceeds` | libddb/shim.c:27-44 | the scan for a reusable slot finds one iff the live count differs from the high mark |
| `SlotTable.ClaimKeeps` | libddb/shim.c:58-73 | a get never returns a live slot, makes exactly that one live and leaves the others and their contents alone |
| `SlotTable.FreeKeeps` | libddb/shim.c:75-84 | a put of a live slot keeps the count equal to the live slots, all below the mark, and touches no other |
| `SlotTable.ClaimCounts` | libddb/shim.c:27-44 | a get adds one to the number of entries with any property the new entry has, and to no other |
| `SlotTable.FreeCounts` | libddb/shim.c:46-56 | a put takes one away likewise |
| `SlotTable.ClaimInBoundsIff` | libddb/shim.c:86-102 | the next index fits an array iff fewer slots are live than it has |
| `SlotTable.ApplyKeeps` | libddb/shim.c:27-112 | any get or put keeps the table valid and raises the mark at most to the live count |
| `SlotTable.MarkBelowPeak` | libddb/shim.c:27-112 | over any run the mark and every index handed out stay below the peak number of simultaneously live slots |
| `SlotTable.SlotArray.constructor` | libddb/shim.c:151-153 | a zeroed header over an unzeroed array stands for the empty table |
| `SlotTable.SlotArray.GetIdx` | libddb/shim.c:27-44 | the counting scan in the array returns the claimed index, reading only slots that were written |
| `SlotTable.SlotArray.Register` | libddb/shim.c:259-264 | getting an index and filling the slot is the claim of the table |
| `SlotTable.SlotArray.PutIdx` | libddb/shim.c:46-56 | clearing a slot and lowering mark and count is the release of the table |
| `ShimTables.AnnounceWait` | libddb/shim.c:259-264 | the lock path shows the mutex in the wait buffer of its thread |
| `ShimTables.ClearAnnounced` | libddb/shim.c:272-275 | the wait entry is taken back |
| `ShimTables.RegisterOwner` | libddb/shim.c:278-283 | the owner entry is added with the mutex and the thread |
| `ShimTables.UnregisterOwner` | libddb/shim.c:311-322 | the first valid entry for the mutex goes; one is found iff the table holds any |
| `ShimTables.InitialTables` | libddb/hook.c:26-52 | the tables built at start are the initial state of the state machine, with the compiled-in capacities |
| `LockTracking.InitInvariant` | libddb/hook.c:26-52 | the initial state satisfies the invariant |
| `LockTracking.StepKeepsInvariant` | libddb/shim.c:131-189 | every step of every thread keeps it: tables valid, wait entries exact, and for each mutex the owner entries are the registrations not yet taken back |
| `LockTracking.StepKeepsCounts` | libddb/shim.c:238-328 | owner entries of a mutex equal its registered hold plus threads between release and removal plus refused registrations |
| `LockTracking.UnregisterFinds` | libddb/shim.c:311-321 | every removal scan finds an entry |
| `LockTracking.StepKeepsDepths` | libddb/shim.c:238-328 | a non-recursive mutex is never held more than once |
| `LockIdentity.RunKeepsInvariant` | libddb/shim.c:238-328 | in every state of every run the invariant holds, and every removal finds its entry |
| `LockIdentity.StepKeepsNamesIff` | libddb/shim.c:305-321 | a step keeps entries naming the right threads iff it is honest: it registers a granted lock, or removes an entry naming its own thread |
| `LockIdentity.NamesThroughRunIff` | libddb/shim.c:305-321 | entries name the right threads throughout a run iff every step is honest |
| `LockIdentity.NoHandoffKeepsNames` | libddb/shim.c:305-321 | if no lock of a mutex is refused and none is registered between a release and its removal, entries always name the holder |
| `LockIdentity.QuiescentEntries` | libddb/shim.c:238-328 | with nothing in flight and no refused registration, a non-recursive mutex has one entry iff it is held, and if names agree it names the holder |
| `LockHandoff.HandoffMisnames` | libddb/shim.c:305-321 | a run after which the only entry of a mutex names a thread that no longer holds it |
| `LockHandoff.PhantomCycle` | libddb/shim.c:305-321 | a run after which the tables show a cycle, nobody was turned away, and there is no deadlock |
| `LockHandoff.TurnedAwayCycle` | libddb/shim.c:269-275 | a run after which a refused thread is shown waiting for itself |
| `LockDeadlock.ShowsWaitIff` | libddb/extension.py:153-213 | a wait entry shows iff the thread is waiting for that mutex or has just been answered |
| `LockDeadlock.ShowsOwnerIff` | libddb/extension.py:153-213 | while names agree, an owner entry shows iff the thread holds or is still giving back a registration |
| `LockDeadlock.WaitingOwnerHolds` | libddb/extension.py:153-213 | while names agree, a thread shown as waiting really holds every mutex the tables give it |
| `LockDeadlock.CycleIffDeadlock` | libddb/extension.py:153-213 | while the names of its mutexes agree, a cycle is a real deadlock iff the tables show it and none of its threads was turned away; recursive mutexes are allowed in cycles of two or more |
| `LockDeadlock.ShownCycleIff` | libddb/extension.py:153-213 | with any names, a cycle shown with nobody turned away is a deadlock iff every owner shown still has a registration of its own |
| `LockDeadlock.CycleIffDeadlockInRun` | libddb/shim.c:238-328 | in any run whose steps so far were honest about the mutexes of a cycle, it is a deadlock iff shown with nobody turned away |
| `LockDeadlock.CycleIffDeadlockNoHandoff` | libddb/shim.c:238-328 | the same in any run without refusals and handoffs of those mutexes |
| `LockDeadlock.DeadlockPersists` | libddb/shim.c:269-269 | a deadlock stays through every step that does not refuse one of its own locks |
| `LockDeadlock.DeadlockStaysIff` | libddb/shim.c:238-328 | through any stretch of any run a deadlock stays iff the real lock turns none of its threads away |
| `LockFailures.FailedUnlockKeepsIff` | libddb/shim.c:305-321 | a failed unlock keeps the invariant iff it takes back a refused registration of the mutex or finds no entry |
| `LockFailures.RunKeepsIff` | libddb/shim.c:305-321 | with failed unlocks allowed, the invariant holds throughout a run iff every failed unlock is of that kind |
| `LockFailures.CoveredRemovalsFind` | libddb/shim.c:305-321 | in such a run every removal after a real release finds an entry |
| `LockFailures.PairedRunKeeps` | libddb/shim.c:305-321 | it holds in every run in which no mutex ever has more failed unlocks than refused locks |
| `LockFailures.EntryStolen` | libddb/shim.c:305-321 | unlocking what another thread holds removes the entry of the holder, and its own removal then finds none |
| `LockFailures.EntryStolenReached` | libddb/shim.c:305-321 | a reachable state in which such a failed unlock breaks the invariant |
| `IntentRuns.StepKeepsInvariant` | ddb-tui/src/operation_feedback.rs:171-374 | at most 64 entries, rising tickets, no two active intents with one control and target, active entries under the live guard, pending or completed only with an operation id |
| `IntentRuns.RunKeepsInvariant` | ddb-tui/src/operation_feedback.rs:171-374 | the same at every moment of every run |
| `IntentRuns.StepFollows` | ddb-tui/src/operation_feedback.rs:232-331 | one step moves each intent only up the order of states |
| `IntentRuns.IntentOnlyAdvances` | ddb-tui/src/operation_feedback.rs:91-98 | between any two moments an intent only climbs, terminal ones are frozen apart from dismissal, and the operation id is written once |
| `IntentRuns.ActiveStaysUntilSettled` | ddb-tui/src/operation_feedback.rs:171-198 | an active intent is in the history until some later moment at which it has settled |
| `IntentRuns.CompletedHasReceipt` | ddb-tui/src/operation_feedback.rs:232-300 | a completed intent in any run had a successful receipt carrying its operation id |
| `IntentRuns.ErrorOutcome` | ddb-tui/src/operation_feedback.rs:232-300 | in any run an error the intent takes leaves it unconfirmed iff the intent has taken a receipt before, and failed otherwise |
| `IntentRuns.FailedHasCause` | ddb-tui/src/operation_feedback.rs:232-300 | a failed intent in any run had an error before it took any receipt, or a receipt carrying its operation id that was rejected or had a failed target |
| `IntentRuns.ReplacementFreezes` | ddb-tui/src/operation_feedback.rs:306-331 | after the backend is replaced no later step changes an earlier intent |
| `IntentRuns.GuardLiveUntilReplacement` | ddb-tui/src/operation_feedback.rs:136-207 | an intent queued since then carries the live guard until the next replacement |
| `IntentRuns.RequestIsRun` | ddb-tui/src/main.rs:3113-3246 | a queued request is a run of at most three allowed steps, so it never doubles an active control |
| `IntentFeedback.Feedback.constructor` | ddb-tui/src/operation_feedback.rs:136-170 | a new tracker is the empty one with one live flag |
| `IntentFeedback.Feedback.MakeRoom` | ddb-tui/src/operation_feedback.rs:171-185 | at the limit the first settled entry goes, and it fails iff all are active |
| `IntentFeedback.Feedback.Enqueue` | ddb-tui/src/operation_feedback.rs:171-198 | the object queues as the tracker does, with the exact error cases, the ticket and the text |
| `IntentFeedback.Feedback.EnqueueControl` | ddb-tui/src/operation_feedback.rs:209-218 | the same with the control recorded on the new entry |
| `IntentFeedback.Feedback.IntentGuard` | ddb-tui/src/operation_feedback.rs:200-207 | the flag handed to a worker is the one of the intent, and is set iff its backend was replaced |
| `IntentFeedback.Feedback.HasControlPending` | ddb-tui/src/operation_feedback.rs:220-228 | true iff an active intent has that control and target |
| `IntentFeedback.Feedback.ApplyUpdate` | ddb-tui/src/operation_feedback.rs:232-301 | only the intent with the ticket changes, by the state machine, and a message is given iff its text changed |
| `IntentFeedback.Feedback.InterruptAll` | ddb-tui/src/operation_feedback.rs:313-330 | every active intent becomes unconfirmed, with one message each in order |
| `IntentFeedback.Feedback.Disconnect` | ddb-tui/src/operation_feedback.rs:306-331 | a replacement retires every flag ever shared and installs a fresh one; a lost connection retires none |
| `IntentFeedback.Feedback.Tick` | ddb-tui/src/operation_feedback.rs:357-374 | expiry dismisses entries as the tracker does |
| `IntentFeedback.Feedback.QueueRequest` | ddb-tui/src/main.rs:3113-3246 | queueing, delivery and rejection of a request act on the object as on the tracker |
| `BackendReplacement.Client.OnSnapshot` | ddb-tui/src/model.rs:902-934 | a snapshot from another established instance retires all flags and interrupts all active intents; any other changes no intent |
| `BackendReplacement.Client.OnRefresh` | ddb-tui/src/main.rs:2748-2756 | a refresh never replaces an established instance and touches no intent |
| `ProjectionRuns.LowersIff` | ddb-tui/src/model.rs:862-893 | while the instance stays, revision or sequence drops iff an applied snapshot without identity carries a lower one |
| `ProjectionRuns.OrderNeverGoesBack` | ddb-tui/src/model.rs:862-893 | over any run of identified snapshots and events with one instance neither goes back |
| `ProjectionRuns.InstanceChangesOnlyByStream` | ddb-tui/src/main.rs:2953-2956 | an established instance changes only by an identified stream snapshot |
| `ProjectionRuns.UnidentifiedLowers` | ddb-tui/src/model.rs:868-877 | a run in which the revision of one instance goes back |
| `ProjectionRuns.GenerationSharedIff` | ddb-tui/src/model.rs:2525-2552 | two epochs share a generation iff equal or a whole turn of the counter apart |
| `ProjectionRuns.DataSurviveOnlyTheSameStop` | ddb-tui/src/model.rs:1044-1110 | after an accepted snapshot data are left only if the selected thread is the same and stopped |
| `ProjectionRuns.StepKeepsInvariant` | ddb-tui/src/model.rs:2341-2396 | every message and action keeps displayed data under the current generation |
| `ProjectionRuns.DataCarryCurrentGeneration` | ddb-tui/src/main.rs:2859-2895 | in every reachable state displayed data were delivered under the current generation |
| `ProjectionRuns.DataOfThisEpoch` | ddb-tui/src/main.rs:2859-2895 | before the counter turns, they belong to the current inspection itself |
| `ProjectionRuns.DatumNamesSelectedIff` | ddb-tui/src/model.rs:1429-1455 | in any run a displayed datum was delivered for the thread then selected, and names the selected thread iff since then neither the user nor a stop with the focus has picked a listed thread, or the last one picked is the thread of the datum |
| `ProjectionExamples.SelectionLeavesData` | ddb-tui/src/model.rs:1842-1850 | a run in which registers of one thread are displayed with another selected |
| `ProjectionExamples.StopRestoresThread` | ddb-tui/src/main.rs:3046-3073 | a run in which the user looks away and a stop selects the inspected thread again, its registers still displayed |
| `ProjectionExamples.StopLeavesData` | ddb-tui/src/main.rs:3046-3073 | a run in which a stop selects another thread right after a datum was delivered, and the datum stays displayed |
| `ProjectionRuns.FocusedStopInspects` | ddb-tui/src/main.rs:3046-3073 | after an ordinary stop with the focus its listed thread is selected and asked about, under a new epoch iff it had not been |
| `ProjectionRuns.FailedInspectionRetried` | ddb-tui/src/model.rs:2554-2564 | after the current inspection has failed, any ordinary stop of the selected thread starts a new one with nothing displayed |
| `ProjectionExamples.StaleReplyReached` | ddb-tui/src/model.rs:2352-2357 | a run in which a reply to an inspection one turn of the counter ago is displayed |
| `ProjectionRuns.StaleReplyShownIff` | ddb-tui/src/model.rs:2549-2552 | a reply to an older inspection of the selected thread is shown iff the epochs are whole turns apart |
| `ProjectionRuns.SnapshotTarget` | ddb-tui/src/model.rs:1491-1499 | a snapshot keeps the chosen target and retires it if replaced or absent |
| `ProjectionRuns.StepKeepsTarget` | ddb-tui/src/model.rs:1366-1376 | no step but a choice changes the target, and none revives it |
| `ProjectionRuns.StepRetiresIff` | ddb-tui/src/model.rs:1491-1499 | a step retires the target iff it applies a snapshot of another backend, or one that lacks the target after its resources or after its thread list |
| `ProjectionRuns.StepKeepsPresence` | ddb-tui/src/model.rs:1457-1499 | a target that is retired or present is so after every step that chooses no other |
| `ProjectionRuns.TargetNeverMoves` | ddb-tui/src/model.rs:1457-1499 | between choices the target stays and is retired iff some applied snapshot lost it; if it was present when chosen, controls reach it iff none has, and otherwise reach nothing |
| `Frontend.App.constructor` | ddb-tui/src/model.rs:642-645 | a new client is the initial projection |
| `Frontend.App.TakeSnapshot` | ddb-tui/src/model.rs:888-1042 | the in-place application of a snapshot is the projection's |
| `Frontend.App.TakeThreads` | ddb-tui/src/model.rs:1044-1110 | the in-place thread list update is the projection's |
| `Frontend.App.OnSnapshot` | ddb-tui/src/main.rs:2753-2827 | stale snapshots leave the client unchanged, others are applied with their threads |
| `Frontend.App.OnEvent` | ddb-tui/src/main.rs:2953-2979 | stale events leave the client unchanged; a resumed thread still listed as running loses its inspection, and a stop is recorded, selected and inspected as the projection says |
| `Frontend.App.OnStop` | ddb-tui/src/main.rs:3046-3073 | the in-place handling of a stop is the projection's: nothing for an automatic one, otherwise recorded, selected with the focus, and inspected unless already asked for |
| `Frontend.App.OnInspectionError` | ddb-tui/src/model.rs:2554-2564 | the failure of the current inspection leaves what is displayed and lets any ordinary stop of its thread start it anew; a stale failure changes nothing |
| `Frontend.App.OnRefresh` | ddb-tui/src/main.rs:2748-2756 | a refresh from another instance leaves the client unchanged |
| `Frontend.App.OnReply` | ddb-tui/src/main.rs:2859-2895 | a reply is shown iff its generation and thread are current |
| `Frontend.App.MarkRunningNow` | ddb-tui/src/model.rs:2359-2396 | the thread, or all threads, are running; inspection data go iff the selected thread or frame is concerned |
| `Frontend.App.BeginInspectionNow` | ddb-tui/src/model.rs:2341-2350 | nothing is shown, the issued generation is current, and no reply asked for before carries it until the counter has made whole turns |
| `Frontend.App.BeginFrameInspectionNow` | ddb-tui/src/model.rs:2352-2357 | the same for a frame of the thread already inspected |
| `Frontend.App.InvalidateNow` | ddb-tui/src/model.rs:2525-2536 | nothing is shown, and no reply under way carries the new generation until the counter has made whole turns |
| `Frontend.App.ReconcileTarget` | ddb-tui/src/model.rs:1491-1499 | the target retires iff it is absent |
| `Frontend.App.IsPresent` | ddb-tui/src/model.rs:1457-1489 | the nested search finds a target iff its parts are present |
| `Frontend.App.FindThread` | ddb-tui/src/model.rs:1044-1110 | the scan returns the first thread with the id |
| `Ordering.SortBySorts` | ddb-tui/src/model.rs:3057-3089 | the sort is a sorted permutation |
| `Ordering.SortStable` | ddb-tui/src/model.rs:3057-3089 | elements that tie keep their order |
| `Ordering.StableSortIsUnique` | ddb-tui/src/model.rs:3057-3089 | a result is sorted and keeps every class of ties in order iff it is this sort, so any stable library sort gives it |
| `Ordering.StableSort` | ddb-tui/src/model.rs:3057-3089 | an in-place stable sort: sorted, a permutation, ties in order |
| `Ordering.OrderForgottenIff` | ddb-tui/src/model.rs:3057-3089 | the incoming order is forgotten iff elements that tie are equal |
| `BreakpointOrder.StabilizeInPlace` | ddb-tui/src/model.rs:3057-3089 | stable sorts of the array and of each member list in place give the one stable arrangement |
| `BreakpointOrder.StabilizeIsUnique` | ddb-tui/src/model.rs:3057-3089 | any result whose rows and members are sorted with ties in order is that arrangement |
| `BreakpointOrder.StabilizePermutes` | ddb-tui/src/model.rs:3057-3089 | the rows and their members are those that came in |
| `BreakpointOrder.StabilizeOrders` | ddb-tui/src/model.rs:3057-3089 | survivors first in their previous order, then new rows by id |
| `BreakpointOrder.StabilizeOrdersMembers` | ddb-tui/src/model.rs:3057-3089 | the same for the members of each row |
| `BreakpointOrder.StabilizeForgetsOrder` | ddb-tui/src/model.rs:3057-3089 | with unique ids the incoming order of rows and members does not matter |
| `BreakpointOrder.StabilizeForgetsIff` | ddb-tui/src/model.rs:3057-3089 | the incoming order of rows and members cannot be seen iff rows with equal ids are equal up to member order and members of a row with equal ids are equal |
| `BreakpointOrder.SharedIdShows` | ddb-tui/src/model.rs:3057-3089 | two different rows with one id for which it can be seen |
| `BreakpointOrder.StabilizeIdempotent` | ddb-tui/src/model.rs:894-901 | receiving the same breakpoints again, in any order, changes no row |
| `BreakpointOrder.SelectionFollowsIdentity` | ddb-tui/src/model.rs:995-1007 | the selected row and member follow their identity, and a member is selected iff it is still there |
| `VariableForest.EditIsSplice` | ddb-tui/src/model.rs:1263-1296 | replacing the lines up to the next line not deeper is editing exactly that subtree |
| `VariableForest.EditKeepsProper` | ddb-tui/src/model.rs:1263-1319 | such an edit keeps unexpanded rows without descendants |
| `VariablePane.ShapedIffForest` | ddb-tui/src/model.rs:1227-1319 | a flat list is the preorder of a forest with no descendants under unexpanded rows iff each line is at most one deeper than the one before, and deeper only under an expanded row |
| `VariablePane.FlattenInjective` | ddb-tui/src/model.rs:1227-1319 | the flat list determines the forest |
| `VariablePane.RetainIsFilterRoots` | ddb-tui/src/model.rs:1251-1257 | the one-pass retain with a flag set at each root removes whole trees |
| `VariablePane.RelabelIsUpdate` | ddb-tui/src/model.rs:1314-1317 | rewriting a row as expanded as before leaves the rest of the forest alone |
| `VariablePane.ChildrenArriveIff` | ddb-tui/src/model.rs:1263-1319 | a collapsed row gets the children it asked for, as its only descendants, iff no earlier row has its identity |
| `VariablePane.ExpandThenCollapseIff` | ddb-tui/src/model.rs:1263-1319 | asking, receiving any closed rows and toggling again restores every other row in place iff no earlier row has the identity; an empty list leaves the row open |
| `VariablePane.LaterRowWaits` | ddb-tui/src/model.rs:1263-1296 | behind another row with its identity the asking row never gets the children, that other row does; the asking row stays loading, or goes with the old subtree if it lies below it |
| `VariablePane.AskingRowGone` | ddb-tui/src/model.rs:1263-1296 | a list in which the asking row is deleted by the answer |
| `InspectionPane.Retain` | ddb-tui/src/expression_inspection.rs:82-94 | the pass with its flag keeps a line iff the last root before it was kept |
| `InspectionPane.Pane.ApplyScopes` | ddb-tui/src/model.rs:1227-1261 | the trees of watches and inspections stay, all others go, and the scopes follow as leaves |
| `InspectionPane.Pane.ApplyChildren` | ddb-tui/src/model.rs:1263-1296 | the first row with the identity gets the children as its only descendants; an unknown identity changes nothing |
| `InspectionPane.Pane.Toggle` | ddb-tui/src/model.rs:1298-1319 | an expanded row loses its subtree, a collapsed one is asked for, and rows without children or loading stay |
| `InspectionPane.Pane.ClearInspection` | ddb-tui/src/expression_inspection.rs:82-94 | exactly the inspection trees go |
| `InspectionPane.Pane.StartInspection` | ddb-tui/src/expression_inspection.rs:16-29 | a fresh request without expression replaces whatever was inspected |
| `InspectionPane.Pane.PrepareInspection` | ddb-tui/src/expression_inspection.rs:31-80 | accepted iff the expression is not blank, the request is open and not submitted, and its context is current; then its row is the first root and selected; each error leaves or clears as the source does |
| `InspectionPane.Pane.FinishInspection` | ddb-tui/src/expression_inspection.rs:96-127 | only the result of the current request counts, and it rewrites the first inspection row and nothing else |
| `InspectionPane.Pane.ResetWatchRows` | ddb-tui/src/watches.rs:106-116 | watch trees are replaced by fresh roots in front of the rest |
| `FrameSources.CacheFaithful` | ddb-tui/src/frame_sources.rs:164-191 | at every moment of any history the record has at most 128 distinct keys in order of completion, each with its last result, and everything newer than an entry is there too |
| `FrameSources.KnownIff` | ddb-tui/src/frame_sources.rs:164-191 | a key is known iff it was read since the last clear or retirement and 128 other live keys were at no time newer |
| `FrameSources.Sources.Status` | ddb-tui/src/frame_sources.rs:198-246 | a usable location is loading iff its read is the pending one, else shows its last accepted result, and is unknown iff there is none or it was pushed out |
| `FrameSources.Sources.Finish` | ddb-tui/src/frame_sources.rs:164-196 | only the pending generation is recorded, once per key in order, and the displayed error is cleared iff one of the keys had it |
| `FrameSources.Sources.RetainSessions` | ddb-tui/src/frame_sources.rs:56-66 | entries and pending keys of other sessions go, the rest keep their order |
| `FrameSources.Sources.DropAll` | ddb-tui/src/frame_sources.rs:51-54 | everything goes |
| `FrameSources.Sources.Begin` | ddb-tui/src/frame_sources.rs:105-161 | only the read the browser waits for is registered, for exactly the sessions and paths it answers for; one of another backend clears the pending read |
| `SourceKeys.RegistersIff` | ddb-tui/src/frame_sources.rs:70-159 | a read registers a key iff it resolves a path for that one session or a thread placed there, or reads a file of this backend owned by that live session |
| `SourceKeys.ResolutionAnswersForOne` | ddb-tui/src/frame_sources.rs:103-147 | a resolution answers for at most one session and path, and for none with a group, a set, several targets or a broadcast |
| `SourceKeys.KeysOf` | ddb-tui/src/frame_sources.rs:109-159 | the searches and passes compute those keys, in order |
| `Sequences.Retain` | ddb-tui/src/frame_sources.rs:56-66 | the retain pass keeps exactly the elements with the property, in order |
| `OutputLog.SplitConcatIff` | ddb-tui/src/output.rs:31-32 | two pushes give the lines of one iff the first text ends a line or one is empty |
| `OutputLog.CutWord` | ddb-tui/src/output.rs:31-32 | a word cut between two pushes gives two lines |
| `OutputLog.SplitUnlines` | ddb-tui/src/output.rs:32-32 | lines written with newlines come back as they were |
| `OutputLog.Processed` | ddb-tui/src/output.rs:33-37 | a kept line has no control character and bounded length |
| `OutputLog.OutputBuffer.Push` | ddb-tui/src/output.rs:31-47 | the lines are the last at most 1000 of everything pushed, with the others counted up to saturation; a view that does not follow keeps its first visible line until it is evicted |
| `OutputLog.OutputBuffer.Fit` | ddb-tui/src/output.rs:58-69 | resizing keeps the window inside, and at the end when following; columns scroll just as far as the widest line |
| `OutputLog.OutputBuffer.ScrollHorizontal` | ddb-tui/src/output.rs:84-86 | columns move by exactly the given amount if that stays in range, and otherwise to the edge on that side |
| `OutputLog.OutputBuffer.Scroll` | ddb-tui/src/output.rs:71-75 | scrolling moves within the lines and follows iff it reaches the end downwards |
| `OutputLog.OutputBuffer.Follow` | ddb-tui/src/output.rs:77-80 | following puts the window at the end |
| `OutputLog.OutputBuffer.VisibleLines` | ddb-tui/src/output.rs:90-96 | the window is a contiguous piece of everything pushed, and its very end when following |
| `ChunkedReader.BufferedCuts` | bench/bench_gdbmiparser.py:7-27 | a step emits the complete lines of held and new bytes and holds the rest |
| `ChunkedReader.NothingLost` | bench/bench_gdbmiparser.py:7-27 | after any chunks, emitted plus held is the input, and held has no newline |
| `ChunkedReader.CuttingIsInvisible` | bench/bench_gdbmiparser.py:34-65 | for every cutting the concatenated responses are those of the complete lines of the whole |
| `ChunkedReader.UncutIsTheSame` | bench/bench_gdbmiparser.py:34-65 | they equal those of the uncut stream |
| `ChunkedReader.ParseLines` | bench/bench_gdbmiparser.py:48-65 | the loop over nonblank lines gives the responses of the text |
| `ChunkedReader.GdbParser.constructor` | bench/bench_gdbmiparser.py:30-32 | nothing is held on any stream at first |
| `ChunkedReader.GdbParser.GetResponses` | bench/bench_gdbmiparser.py:34-65 | on every stream at all times, delivered are the responses of the complete lines received on it, whatever arrives on the others |
| `CellClip.ClipWidth` | ddb-tui/src/display_text.rs:92-109 | clipping leaves exactly the cells beyond the clipped ones |
| `CellClip.ClipTwice` | ddb-tui/src/display_text.rs:92-109 | clipping twice is clipping by the sum |
| `CellClip.HorizontalText` | ddb-tui/src/display_text.rs:92-109 | the pass with a running position computes the clip, padding a glyph cut through |
| `CellClip.LineClipIff` | ddb-tui/src/display_text.rs:28-44 | clipping span by span is clipping the concatenation iff no zero-width glyph sits on the edge of a span that goes |
| `CellClip.AccentLost` | ddb-tui/src/display_text.rs:28-44 | a line whose accent is lost when clipped span by span |
| `CellClip.WideGlyphsAreClean` | ddb-tui/src/display_text.rs:28-44 | glyphs of at least one cell always meet that condition |
| `CellClip.HorizontalLine` | ddb-tui/src/display_text.rs:28-44 | the pass over the spans computes the line clip and keeps styles |
| `CellClip.TruncatedFits` | ddb-tui/src/display_text.rs:63-88 | a truncated line fits its budget, is whole iff it fits, and otherwise is the longest prefix that leaves a cell for the ellipsis |
| `CellClip.TruncateLine` | ddb-tui/src/display_text.rs:63-88 | the nested loops over spans and glyphs compute that truncation and keep styles |
| `OptionParser.ParseOptions` | ddb-tui/src/main.rs:2641-2693 | the option loop ends and computes the recursive parse |
| `OptionText.ParseReadsMeaning` | ddb-tui/src/main.rs:2641-2693 | for any words in any spelling, order and white space, with or without a condition, parsing reads their meaning, including both count errors |
| `OptionText.MeaningIff` | ddb-tui/src/main.rs:2663-2676 | words are accepted iff at most one count is given and fits 64 bits, and then only their presence matters |
| `OptionText.OptionsRoundTrip` | ddb-tui/src/main.rs:2641-2693 | every writing of an options record parses to it, or to the range error iff its count exceeds 64 bits |
| `OptionText.WritingExists` | ddb-tui/src/main.rs:2641-2693 | every record whose condition is trimmed and nonempty has a writing |
| `OptionText.BareConditionIff` | ddb-tui/src/main.rs:2682-2691 | a bare condition is read as itself iff it starts with none of the words |
| `OptionText.ConditionLosesIf` | ddb-tui/src/main.rs:2682-2691 | a condition that starts with an option word is read as another |
| `OptionText.FunctionRoundTripIff` | ddb-tui/src/main.rs:2633-2639 | a trimmed name with options comes back iff the name followed by a space holds no separator |
| `OptionText.NameAloneIff` | ddb-tui/src/main.rs:2633-2639 | a name alone comes back with default options iff it holds no separator |
| `OptionText.DashedNameSplits` | ddb-tui/src/main.rs:2633-2639 | a name ending in dashes does not come back with options |
| `OptionText.NameWithSeparatorSplits` | ddb-tui/src/main.rs:2633-2639 | a name holding a separator does not come back |

## Left out

- Rendering, keys and mouse, help, the HTTP client, worker tasks, the supervisor and the benchmarks that drive processes: input, output and foreign calls.
- Trylock, condition variables, signal handlers, symbol interposition and register reads in `libddb`: passed through without tracking. Real mutexes and the table locks are atomic steps.
- SlotTable.SlotArray.Register: requires a free slot, because the source writes past its array otherwise; `SlotTable.ClaimInBoundsIff` says exactly when that is.
- ShimTables.AnnounceWait: requires a free wait slot for the same reason.
- ShimTables.RegisterOwner: requires a free owner slot for the same reason.
- LockDeadlock.CycleIffDeadlockInRun: goes one way from honest steps; after a dishonest one the tables may still happen to be right, and `LockDeadlock.ShownCycleIff` decides each state.
- LockFailures.RunKeepsIff: speaks of the counts; which thread an entry names after a failed unlock is not treated.
- Wall-clock time: expiry compares with a time given as a parameter.
- SourceKeys.KeysOf: the owners of a file are given with it; how session tags select owners needs the source explorer, which is not part of this model.
- InspectionPane.Pane.PrepareInspection: whether the context is current is given; `Projection.InspectionIsCurrent` models the generation and thread part of it.
- InspectionPane.Pane.StartInspection: the capability and frame checks before an inspection is opened are left out.
- InspectionPane.Pane.FinishInspection: whether the context is current is given likewise; the address and the type text of a row are left out.
- Removal of a single watch and the evaluation of watches.
- IntentFeedback.Feedback.QueueRequest: models the tracked requests; requests without a feedback label, source reads and pause focus are left out.
- Frontend.App.TakeSnapshot: breakpoints are in `BreakpointOrder`; capabilities, policies and status texts are left out.
- Frontend.App.TakeThreads: the owner of the pause focus and topology selection are left out.
- Frontend.App.OnSnapshot: the stops and inspections that follow an applied snapshot are separate steps of a run (`StopSeen`, `Inspect`); which of them a snapshot leads to is not modelled.
- Frontend.App.OnStop: whether a stop is automatic and whether it has the focus is given with it, so runs with every assignment of the focus are covered; the owner of the focus and the cause of an all-stop are not modelled.
- ProjectionRuns.DatumNamesSelectedIff: the focus of a stop is given with it likewise.
- Frontend.App.MarkRunningNow: execution states and the owner of the pause focus are left out.
- ChunkedReader.GdbParser.GetResponses: decoding and parsing of one line is a function parameter; undecodable bytes are replaced within a line, never across a newline.
- Unicode segmentation and widths in `CellClip` and `OutputLog`: texts are sequences of glyphs with widths, or have a width given by a function; that a clipped text segments again into the same glyphs is not modelled.
- Ordering.StableSort: stands for the library's stable sort; the library's own algorithm is not modelled.
- Topology folding and status texts of the projection: they would only add easy members.
- Breakpoint rule targets and deletion dialogs (`ddb-tui/src/breakpoint_management.rs`): easy members.
- Memory limits of the output pane: only the counter of dropped lines saturates, at the 64-bit size.
