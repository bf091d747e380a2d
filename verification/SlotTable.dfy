/**
 The slot allocators of the lock-tracking shim.

 Three tables share one discipline: lock owners, the wait buffer of each thread and the thread
 infos. Each keeps a live count and a high-water mark, reuses the first free slot below the mark
 and otherwise extends the mark. `Table` is the value a table denotes: the slots below the mark
 (so `|slots|` is the mark) and the stored live count. `SlotArray` is the table itself, a
 fixed-size array whose cells above the mark may hold whatever the allocation contained.
 */
module SlotTable {
  import opened Wrappers
  import opened Sequences

  datatype Table<T> = Table(slots: seq<Option<T>>, n: nat)

  /** The number of occupied slots whose content satisfies `p`. */
  ghost function Count<T>(slots: seq<Option<T>>, p: T -> bool): (c: nat)
  {
    if slots == [] then 0
    else Count(slots[..|slots| - 1], p) + Weigh(slots[|slots| - 1], p)
  }

  ghost function Weigh<T>(slot: Option<T>, p: T -> bool): (w: nat)
  {
    if slot.Some? && p(slot.value) then 1 else 0
  }

  ghost function Anything<T>(): T -> bool
  {
    _ => true
  }

  ghost function Live<T>(slots: seq<Option<T>>): (c: nat)
  {
    Count(slots, Anything())
  }

  /** The stored count is the number of occupied slots. */
  ghost predicate Valid<T>(t: Table<T>)
  {
    t.n == Live(t.slots)
  }

  predicate IsLive<T>(t: Table<T>, i: int)
  {
    0 <= i < |t.slots| && t.slots[i].Some?
  }

  function Empty<T>(): (t: Table<T>)
    ensures Valid(t) && forall i :: !IsLive(t, i)
  {
    Table([], 0)
  }

  lemma {:induction false} CountUpdate<T>(slots: seq<Option<T>>, p: T -> bool, i: nat, v: Option<T>)
    requires i < |slots|
    ensures Count(slots[i := v], p) == Count(slots, p) - Weigh(slots[i], p) + Weigh(v, p)
    decreases |slots|
  {
    var last := |slots| - 1;
    if i == last {
      assert slots[i := v][..last] == slots[..last];
    } else {
      assert slots[i := v][..last] == slots[..last][i := v];
      CountUpdate(slots[..last], p, i, v);
    }
  }

  lemma {:induction false} CountAtMost<T>(slots: seq<Option<T>>)
    ensures Live(slots) <= |slots|
    ensures Live(slots) == |slots| <==> forall i :: 0 <= i < |slots| ==> slots[i].Some?
  {
    if slots != [] {
      var init := slots[..|slots| - 1];
      CountAtMost(init);
      assert forall i :: 0 <= i < |init| ==> init[i] == slots[i];
    }
  }

  lemma {:induction false} CountZeroIff<T>(slots: seq<Option<T>>, p: T -> bool)
    ensures Count(slots, p) == 0 <==> forall i :: 0 <= i < |slots| && slots[i].Some? ==> !p(slots[i].value)
  {
    if slots != [] {
      var init := slots[..|slots| - 1];
      CountZeroIff(init, p);
      assert forall i :: 0 <= i < |init| ==> init[i] == slots[i];
    }
  }

  /** The first occupied slot whose content satisfies `p`, or the mark if there is none. */
  ghost function FirstMatch<T>(slots: seq<Option<T>>, p: T -> bool): (i: nat)
    ensures i <= |slots|
    ensures i < |slots| ==> slots[i].Some? && p(slots[i].value)
    ensures forall j :: 0 <= j < i ==> !(slots[j].Some? && p(slots[j].value))
    ensures Count(slots, p) > 0 ==> i < |slots|
  {
    CountZeroIff(slots, p);
    FirstIndex(slots, (s: Option<T>) => s.Some? && p(s.value))
  }

  /** The first free slot, or the mark when every slot below it is occupied. */
  ghost function FirstFree<T>(slots: seq<Option<T>>): (i: nat)
    ensures i <= |slots|
    ensures i < |slots| ==> slots[i].None?
    ensures forall j :: 0 <= j < i ==> slots[j].Some?
  {
    FirstIndex(slots, (s: Option<T>) => s.None?)
  }

  /** The index an allocation hands out; it reuses a slot only when the counters disagree. */
  ghost function ClaimIndex<T>(t: Table<T>): (i: nat)
  {
    if t.n != |t.slots| && FirstFree(t.slots) < |t.slots| then FirstFree(t.slots) else |t.slots|
  }

  ghost function Claim<T>(t: Table<T>, v: T): (r: Table<T>)
  {
    var i := ClaimIndex(t);
    if i < |t.slots| then Table(t.slots[i := Some(v)], t.n + 1) else Table(t.slots + [Some(v)], t.n + 1)
  }

  /** Freeing the last slot lowers the mark by one; a gap below it stays. */
  ghost function Free<T>(t: Table<T>, i: nat): (r: Table<T>)
  {
    if i >= |t.slots| || t.n == 0 then t
    else if i == |t.slots| - 1 then Table(t.slots[..i], t.n - 1)
    else Table(t.slots[i := None], t.n - 1)
  }

  /**
   Pigeonhole: when the counters disagree the reuse scan finds a free slot, so the fall-through
   that extends the mark is taken exactly when every slot below the mark is occupied.
   */
  lemma ReuseScanSucceeds<T>(t: Table<T>)
    requires Valid(t)
    ensures t.n <= |t.slots|
    ensures t.n != |t.slots| <==> FirstFree(t.slots) < |t.slots|
  {
    CountAtMost(t.slots);
  }

  /** An allocation never returns an occupied slot and adds exactly the new content. */
  lemma ClaimKeeps<T>(t: Table<T>, v: T)
    requires Valid(t)
    ensures Valid(Claim(t, v))
    ensures !IsLive(t, ClaimIndex(t))
    ensures IsLive(Claim(t, v), ClaimIndex(t)) && Claim(t, v).slots[ClaimIndex(t)] == Some(v)
    ensures forall i :: i != ClaimIndex(t) ==> (IsLive(Claim(t, v), i) <==> IsLive(t, i))
    ensures forall i :: IsLive(t, i) ==> Claim(t, v).slots[i] == t.slots[i]
  {
    ClaimCounts(t, v, Anything());
  }

  /** The first claim of all. */
  lemma ClaimEmpty<T>(v: T)
    ensures ClaimIndex<T>(Empty()) == 0 && Claim(Empty(), v) == Table([Some(v)], 1) && Valid(Table([Some(v)], 1))
  {
    ClaimKeeps<T>(Empty(), v);
  }

  lemma ClaimCounts<T>(t: Table<T>, v: T, p: T -> bool)
    requires Valid(t)
    ensures Count(Claim(t, v).slots, p) == Count(t.slots, p) + (if p(v) then 1 else 0)
  {
    var i := ClaimIndex(t);
    if i < |t.slots| {
      CountUpdate(t.slots, p, i, Some(v));
    } else {
    }
  }

  /** Freeing removes exactly the freed content; every other occupied slot is untouched. */
  lemma FreeKeeps<T>(t: Table<T>, i: nat)
    requires Valid(t) && IsLive(t, i)
    ensures Valid(Free(t, i))
    ensures !IsLive(Free(t, i), i)
    ensures forall j :: j != i ==> (IsLive(Free(t, i), j) <==> IsLive(t, j))
    ensures forall j :: j != i && IsLive(t, j) ==> Free(t, i).slots[j] == t.slots[j]
  {
    LivePositive(t, i);
    FreeCounts(t, i, Anything());
  }

  lemma LivePositive<T>(t: Table<T>, i: nat)
    requires Valid(t) && IsLive(t, i)
    ensures t.n > 0
  {
    CountZeroIff(t.slots, Anything());
  }

  lemma FreeCounts<T>(t: Table<T>, i: nat, p: T -> bool)
    requires Valid(t) && IsLive(t, i)
    ensures Count(Free(t, i).slots, p) == Count(t.slots, p) - (if p(t.slots[i].value) then 1 else 0)
  {
    LivePositive(t, i);
    if i == |t.slots| - 1 {
      assert t.slots == t.slots[..i] + [t.slots[i]];
    } else {
      CountUpdate(t.slots, p, i, None);
    }
  }

  /** Allocating into a table of `capacity` cells stays inside it iff fewer than `capacity` are live. */
  lemma ClaimInBoundsIff<T>(t: Table<T>, capacity: nat)
    requires Valid(t) && |t.slots| <= capacity
    ensures ClaimIndex(t) < capacity <==> t.n < capacity
  {
    ReuseScanSucceeds(t);
  }

  // Runs of the allocator

  datatype Op<T> = Get(value: T) | Put(index: nat)

  ghost predicate Allowed<T>(t: Table<T>, op: Op<T>)
  {
    op.Put? ==> IsLive(t, op.index)
  }

  ghost function Apply<T>(t: Table<T>, op: Op<T>): (r: Table<T>)
  {
    match op
    case Get(v) => Claim(t, v)
    case Put(i) => Free(t, i)
  }

  lemma ApplyKeeps<T>(t: Table<T>, op: Op<T>)
    requires Valid(t) && Allowed(t, op)
    ensures Valid(Apply(t, op))
    ensures |Apply(t, op).slots| <= Max(|t.slots|, Apply(t, op).n)
  {
    ReuseScanSucceeds(t);
    match op
    case Get(v) => ClaimKeeps(t, v);
    case Put(i) => FreeKeeps(t, i);
  }

  /** `states` is a run of the allocator from any valid table. */
  ghost predicate IsRun<T>(states: seq<Table<T>>, ops: seq<Op<T>>)
  {
    && |states| == |ops| + 1
    && Valid(states[0])
    && forall i :: 0 <= i < |ops| ==>
         Allowed(states[i], ops[i]) && states[i + 1] == Apply(states[i], ops[i])
  }

  /** The largest number of simultaneously live slots over the run. */
  ghost function Peak<T>(states: seq<Table<T>>): (p: nat)
    ensures forall i :: 0 <= i < |states| ==> Live(states[i].slots) <= p
    ensures states != [] ==> exists i :: 0 <= i < |states| && Live(states[i].slots) == p
  {
    if states == [] then 0
    else
      var last := |states| - 1;
      var rest := Peak(states[..last]);
      assert forall i :: 0 <= i < last ==> states[..last][i] == states[i];
      Max(rest, Live(states[last].slots))
  }

  /**
   Over any run that starts with no gap below the mark, the mark never exceeds the historical peak
   of simultaneously live slots, and every index ever handed out lies below that peak.
   */
  lemma {:induction false} MarkBelowPeak<T>(states: seq<Table<T>>, ops: seq<Op<T>>)
    requires IsRun(states, ops)
    requires |states[0].slots| == states[0].n
    ensures forall i :: 0 <= i < |states| ==> Valid(states[i]) && |states[i].slots| <= Peak(states)
    ensures forall i :: 0 <= i < |ops| && ops[i].Get? ==> ClaimIndex(states[i]) < Peak(states)
    decreases |ops|
  {
    if ops != [] {
      var k := |ops| - 1;
      var before := states[..k + 1];
      assert IsRun(before, ops[..k]);
      MarkBelowPeak(before, ops[..k]);
      assert states[k] == before[k];
      ApplyKeeps(states[k], ops[k]);
      assert before == states[..|states| - 1];
      forall i | 0 <= i < |ops| && ops[i].Get?
        ensures ClaimIndex(states[i]) < Peak(states)
      {
        assert i < k ==> before[i] == states[i] && ops[..k][i] == ops[i];
        if i == k {
          ReuseScanSucceeds(states[k]);
        }
      }
      forall i | 0 <= i < |states| ensures Valid(states[i]) && |states[i].slots| <= Peak(states) {
        assert i < k + 1 ==> before[i] == states[i];
      }
    }
  }

  // The array form

  /** `Garbage` is memory that was allocated and not yet written; its flag must not be read. */
  datatype Cell<T> = Garbage | Unused | Used(value: T)

  predicate ReadFlag<T>(c: Cell<T>)
    requires !c.Garbage?
  {
    c.Used?
  }

  /** What the cells below the mark denote. */
  ghost function Slots<T>(cells: seq<Cell<T>>): (s: seq<Option<T>>)
  {
    seq(|cells|, i requires 0 <= i < |cells| => if cells[i].Used? then Some(cells[i].value) else None)
  }

  class SlotArray<T> {
    const cells: array<Cell<T>>
    var n: nat
    var maxN: nat

    /** Every cell below the mark has been written; nothing is known of the cells above it. */
    ghost predicate Wellformed()
      reads this, cells
    {
      && maxN <= cells.Length
      && (forall i :: 0 <= i < maxN ==> !cells[i].Garbage?)
      && Valid(View())
    }

    ghost function View(): (t: Table<T>)
      requires maxN <= cells.Length
      reads this, cells
    {
      Table(Slots(cells[..maxN]), n)
    }

    constructor (capacity: nat)
      ensures Wellformed() && View() == Empty() && cells.Length == capacity && fresh(cells)
    {
      cells := new Cell<T>[capacity](_ => Garbage);
      n, maxN := 0, 0;
    }

    /** The scan reads only cells that were written; its result may lie outside a full array. */
    method GetIdx() returns (idx: nat)
      requires Wellformed()
      modifies this
      ensures idx == ClaimIndex(old(View()))
      ensures n == old(n) + 1
      ensures maxN == Max(old(maxN), idx + 1)
    {
      if n != maxN {
        var i := 0;
        while i < maxN
          invariant 0 <= i <= maxN
          invariant n == old(n) && maxN == old(maxN)
          invariant forall j :: 0 <= j < i ==> cells[j].Used?
        {
          if !ReadFlag(cells[i]) {
            assert View().slots[i].None?;
            n := n + 1;
            return i;
          }
          i := i + 1;
        }
        ReuseScanSucceeds(View());
      }
      maxN := maxN + 1;
      n := n + 1;
      return maxN - 1;
    }

    /** The critical section that allocates a slot and writes it. */
    method Register(v: T) returns (idx: nat)
      requires Wellformed() && n < cells.Length
      modifies this, cells
      ensures Wellformed() && View() == Claim(old(View()), v)
      ensures idx == ClaimIndex(old(View())) && idx < cells.Length
    {
      ghost var before := View();
      ClaimInBoundsIff(before, cells.Length);
      ClaimKeeps(before, v);
      ghost var written := cells[..maxN];
      idx := GetIdx();
      cells[idx] := Used(v);
      assert cells[..maxN] == if idx < |written| then written[idx := Used(v)] else written + [Used(v)];
      assert View().slots == Claim(before, v).slots;
    }

    method PutIdx(idx: nat)
      requires Wellformed() && IsLive(View(), idx)
      modifies this, cells
      ensures Wellformed() && View() == Free(old(View()), idx)
    {
      ghost var before := View();
      FreeKeeps(before, idx);
      cells[idx] := Unused;
      if idx == maxN - 1 {
        maxN := maxN - 1;
      }
      LivePositive(before, idx);
      n := n - 1;
      assert View().slots == Free(before, idx).slots;
    }
  }
}
