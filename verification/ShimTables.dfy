/**
 The critical sections of the interposed mutex functions on the tables themselves. Each is proved
 against the function the transition system applies, so a run of the system is a run of these.
 */
module ShimTables {
  import opened SlotTable
  import opened LockTracking

  const MAX_THREADS := 128
  const MAX_LOCKS := 2048
  const MAX_WAITS := 128

  /** `pthread_mutex_lock`, before the real lock. */
  method AnnounceWait(wbuf: SlotArray<Mutex>, m: Mutex) returns (widx: nat)
    requires wbuf.Wellformed() && wbuf.n < wbuf.cells.Length
    modifies wbuf, wbuf.cells
    ensures wbuf.Wellformed() && wbuf.View() == Claim(old(wbuf.View()), m)
    ensures widx == ClaimIndex(old(wbuf.View()))
  {
    widx := wbuf.Register(m);
  }

  /** `pthread_mutex_lock`, after the real lock. */
  method ClearAnnounced(wbuf: SlotArray<Mutex>, widx: nat)
    requires wbuf.Wellformed() && IsLive(wbuf.View(), widx)
    modifies wbuf, wbuf.cells
    ensures wbuf.Wellformed() && wbuf.View() == Free(old(wbuf.View()), widx)
  {
    wbuf.PutIdx(widx);
  }

  method RegisterOwner(lowners: SlotArray<Owner>, m: Mutex, tid: Tid)
    requires lowners.Wellformed() && lowners.n < lowners.cells.Length
    modifies lowners, lowners.cells
    ensures lowners.Wellformed() && lowners.View() == Claim(old(lowners.View()), Owner(m, tid))
  {
    var _ := lowners.Register(Owner(m, tid));
  }

  /** `pthread_mutex_unlock`, after the real unlock: remove the first entry for the mutex. */
  method UnregisterOwner(lowners: SlotArray<Owner>, m: Mutex) returns (found: bool)
    requires lowners.Wellformed()
    modifies lowners, lowners.cells
    ensures lowners.Wellformed() && lowners.View() == Unregistered(old(lowners.View()), m)
    ensures found <==> Count(old(lowners.View()).slots, OnLock(m)) > 0
  {
    ghost var before := lowners.View();
    var i := 0;
    while i < lowners.maxN
      invariant 0 <= i <= lowners.maxN
      invariant lowners.Wellformed() && lowners.View() == before
      invariant forall j :: 0 <= j < i ==> !(before.slots[j].Some? && OnLock(m)(before.slots[j].value))
    {
      var cell := lowners.cells[i];
      assert before.slots[i].Some? <==> cell.Used?;
      if ReadFlag(cell) && cell.value.lid == m {
        assert OnLock(m)(before.slots[i].value);
        assert FirstOn(before, m) == i;
        lowners.PutIdx(i);
        return true;
      }
      i := i + 1;
    }
    CountZeroIff(before.slots, OnLock(m));
    return false;
  }

  /** The tables the initialiser sets up: the owner table is empty, the main thread takes slot 0. */
  method InitialTables(main: Tid) returns (infos: SlotArray<Tid>, lowners: SlotArray<Owner>, wbuf: SlotArray<Mutex>)
    ensures infos.Wellformed() && infos.View() == Init(main).infos && infos.cells.Length == MAX_THREADS
    ensures lowners.Wellformed() && lowners.View() == Init(main).owners && lowners.cells.Length == MAX_LOCKS
    ensures wbuf.Wellformed() && wbuf.View() == Init(main).waits[main] && wbuf.cells.Length == MAX_WAITS
    ensures fresh(infos) && fresh(lowners) && fresh(wbuf)
  {
    infos := new SlotArray(MAX_THREADS);
    var tidx := infos.Register(main);
    assert tidx == 0;
    lowners := new SlotArray(MAX_LOCKS);
    wbuf := new SlotArray(MAX_WAITS);
  }
}
