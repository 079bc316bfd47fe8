/** The table that assigns the private heaps to tasks, as a value. */
module HeapSlots {
  import opened Wrappers
  import opened BuddySpec
  import opened HeapLive
  import BuddyRuns
  import BuddyWalk

  const NUM_OF_HEAPS: nat := 8
  const COMMON_HEAP_ID: int := 0

  /** The owner's task number, or -1; how many blocks the slot counts as allocated; its heap. */
  datatype Slot = Slot(id: int, count: int, heap: Heap)

  type Table = t: seq<Slot> | |t| == NUM_OF_HEAPS && forall i :: 0 <= i < |t| ==> Shape(t[i].heap)
    ghost witness seq(NUM_OF_HEAPS, _ => Slot(-1, 0, FilledHeap(0, MAX_BLOCK_SIZE, 0, 0)))

  /** The first slot with that owner. */
  function Find(t: seq<Slot>, id: int): (i: nat)
    ensures i <= |t| && (i < |t| ==> t[i].id == id) && forall k :: 0 <= k < i ==> t[k].id != id
  {
    if |t| == 0 || t[0].id == id then 0 else 1 + Find(t[1..], id)
  }

  // ----- the operations

  function SwMallocPrivate(t: Table, id: int, size: nat): (Option<int>, Table)
    requires size <= MAX_BLOCK_SIZE
  {
    var i := Find(t, id);
    if i == NUM_OF_HEAPS then (None, t)
    else
      var r := Malloc(t[i].heap, size);
      (r.0, t[i := Slot(id, t[i].count + (if r.0.Some? then 1 else 0), r.1)])
  }

  /** The counter goes down whether or not a block was freed. */
  function SwFreePrivate(t: Table, id: int, p: int): Table
    requires TableOk(t)
  {
    var i := Find(t, id);
    if i == NUM_OF_HEAPS then t else t[i := Slot(id, t[i].count - 1, Free(t[i].heap, p))]
  }

  function AllocPrivateHeap(t: Table, id: int): (int, Table) {
    if Find(t, id) < NUM_OF_HEAPS then (0, t)
    else
      var i := Find(t, -1);
      if i < NUM_OF_HEAPS then (0, t[i := t[i].(id := id)]) else (-1, t)
  }

  function FreePrivateHeap(t: Table, id: int): (int, Table) {
    var i := Find(t, id);
    if i == NUM_OF_HEAPS || t[i].count != 0 then (-1, t) else (0, t[i := t[i].(id := -1)])
  }

  // ----- the invariant

  /** The count is the number of live blocks, and an unassigned slot has none. */
  ghost predicate SlotOk(s: Slot) {
    BuddyRuns.Inv(s.heap) && s.heap.memStart > 0 && s.count == |s.heap.live| && (s.id == -1 ==> s.heap.live == [])
  }

  predicate OneSlotEach(t: seq<Slot>) {
    forall i, j :: 0 <= i < j < |t| && t[i].id == t[j].id ==> t[i].id == -1
  }

  /** What a free needs to be defined. */
  predicate TableOk(t: Table) { forall i :: 0 <= i < |t| ==> LiveBinsOk(t[i].heap) }

  /** No two slots have the same owner, and every slot is in order. */
  ghost predicate Inv(t: Table) {
    TableOk(t) && OneSlotEach(t) && forall i :: 0 <= i < |t| ==> SlotOk(t[i])
  }

  /** Whether `p` is live in the heap of `id`. */
  predicate Owns(t: Table, id: int, p: int) {
    var i := Find(t, id);
    i < NUM_OF_HEAPS && LiveAt(t[i].heap, p)
  }

  /** The heaps of owners other than `id` are as they were. */
  ghost predicate OthersSame(t: Table, u: Table, id: int) {
    forall x, p {:trigger Owns(u, x, p)} :: x != id && x != -1 ==> (Owns(u, x, p) <==> Owns(t, x, p))
  }

  predicate Assigned(t: Table, id: int) { Find(t, id) < NUM_OF_HEAPS }

  // ----- slot updates

  /** Changing one slot without changing its owner. */
  lemma UpdateSlot(t: Table, i: nat, s: Slot)
    requires Inv(t) && i < NUM_OF_HEAPS && s.id == t[i].id && SlotOk(s)
    ensures Shape(s.heap) && Inv(t[i := s]) && OthersSame(t, t[i := s], s.id)
    ensures forall x :: Find(t[i := s], x) == Find(t, x)
  {
    var u: Table := t[i := s];
    forall x ensures Find(u, x) == Find(t, x) { FindSame(t, u, x); }
    forall x, p {:trigger Owns(u, x, p)} | x != s.id && x != -1 ensures Owns(u, x, p) <==> Owns(t, x, p) {
      assert Find(t, x) < NUM_OF_HEAPS ==> Find(t, x) != i;
    }
  }

  lemma {:induction false} FindSame(t: seq<Slot>, u: seq<Slot>, x: int)
    requires |t| == |u| && forall k :: 0 <= k < |t| ==> t[k].id == u[k].id
    ensures Find(t, x) == Find(u, x)
  {
    if |t| > 0 { FindSame(t[1..], u[1..], x); }
  }

  /** A private allocation keeps the table in order, for an owner with a slot; the block is a new live
      block of that heap and of no other. */
  lemma MallocKeeps(t: Table, id: int, size: nat)
    requires Inv(t) && size <= MAX_BLOCK_SIZE && id != -1
    ensures var r := SwMallocPrivate(t, id, size);
      Inv(r.1) && OthersSame(t, r.1, id) && (forall x :: Find(r.1, x) == Find(t, x)) &&
      match r.0
      case None => forall p :: Owns(r.1, id, p) <==> Owns(t, id, p)
      case Some(a) =>
        a > 0 && Assigned(t, id) && !Owns(t, id, a) && forall p :: Owns(r.1, id, p) <==> Owns(t, id, p) || p == a
  {
    var i := Find(t, id);
    if i < NUM_OF_HEAPS {
      assert SlotOk(t[i]);
      MallocOutcome(t[i].heap, size);
      var r := SwMallocPrivate(t, id, size);
      UpdateSlot(t, i, r.1[i]);
    }
  }

  /** A private free of a live block likewise. */
  lemma FreeKeeps(t: Table, id: int, p: int)
    requires Inv(t) && id != -1 && Owns(t, id, p)
    ensures var u := SwFreePrivate(t, id, p);
      Inv(u) && OthersSame(t, u, id) && (forall x :: Find(u, x) == Find(t, x)) &&
      forall q :: Owns(u, id, q) <==> Owns(t, id, q) && q != p
  {
    var i := Find(t, id);
    assert SlotOk(t[i]);
    FreeOutcome(t[i].heap, p);
    UpdateSlot(t, i, SwFreePrivate(t, id, p)[i]);
  }

  /** A free keeps the table in order exactly when the pointer is live (or there is no such slot). */
  lemma FreeKeepsIff(t: Table, id: int, p: int)
    requires Inv(t) && id != -1
    ensures Inv(SwFreePrivate(t, id, p)) <==> Owns(t, id, p) || !Assigned(t, id)
  {
    var i := Find(t, id);
    if i < NUM_OF_HEAPS {
      assert SlotOk(t[i]);
      FreeOutcome(t[i].heap, p);
      if LiveAt(t[i].heap, p) {
        FreeKeeps(t, id, p);
      } else {
        assert SwFreePrivate(t, id, p)[i].count == |t[i].heap.live| - 1;
        assert !SlotOk(SwFreePrivate(t, id, p)[i]);
      }
    }
  }

  /** The heap of `id` has a node for one more live block and will find a block for the request. */
  predicate SlotServes(t: Table, id: int, size: nat)
    requires size <= MAX_BLOCK_SIZE
  {
    Assigned(t, id) && HeapServes(t[Find(t, id)].heap, BuddyRuns.Order(size))
  }

  predicate HeapServes(h: Heap, o: nat)
    requires Shape(h) && o < BINS_MAX_ORDER
  {
    |h.live| < h.anCap && NodesUsed(h) <= h.fnCap && BuddyWalk.Serves(h, o)
  }

  /** A private allocation returns a block if and only if the owner has a slot whose heap serves. */
  lemma MallocPrivateIff(t: Table, id: int, size: nat)
    requires Inv(t) && size <= MAX_BLOCK_SIZE
    ensures SwMallocPrivate(t, id, size).0.Some? <==> SlotServes(t, id, size)
  {
    var i := Find(t, id);
    if i < NUM_OF_HEAPS {
      assert SlotOk(t[i]);
      BuddyWalk.MallocSucceedsIff(t[i].heap, size);
    }
  }

  /** An allocation on behalf of no task (current number -1) goes to the first unassigned slot; the
      table stays in order if and only if there is none or its heap has no block for the request. */
  lemma NobodyMallocs(t: Table, size: nat)
    requires Inv(t) && size <= MAX_BLOCK_SIZE
    ensures Inv(SwMallocPrivate(t, -1, size).1) <==> !SlotServes(t, -1, size)
  {
    var i := Find(t, -1);
    if i < NUM_OF_HEAPS {
      assert SlotOk(t[i]);
      MallocOutcome(t[i].heap, size);
      MallocPrivateIff(t, -1, size);
      var r := SwMallocPrivate(t, -1, size);
      if r.0 == None { UpdateSlot(t, i, r.1[i]); } else { assert !SlotOk(r.1[i]); }
    }
  }

  /** The owner has a slot already or there is one to give. */
  predicate HasSlot(t: Table, id: int) { Assigned(t, id) || Assigned(t, -1) }

  /** A heap is assigned if and only if the owner has one or one is unassigned, which is then the first
      such; no heap, no count and no other owner changes. */
  lemma AllocHeapIff(t: Table, id: int)
    requires id != -1
    ensures AllocPrivateHeap(t, id).0 == 0 <==> HasSlot(t, id)
    ensures HasSlot(t, id) ==> var u := AllocPrivateHeap(t, id).1;
      Find(u, id) == (if Assigned(t, id) then Find(t, id) else Find(t, -1)) &&
      forall k :: 0 <= k < NUM_OF_HEAPS ==>
        u[k].heap == t[k].heap && u[k].count == t[k].count && (k != Find(u, id) ==> u[k].id == t[k].id)
  {
    if !Assigned(t, id) && Assigned(t, -1) { FindPlaced(t, Find(t, -1), id); }
  }

  lemma {:induction false} FindPlaced(t: seq<Slot>, i: nat, id: int)
    requires i < |t| && Find(t, id) == |t|
    ensures Find(t[i := t[i].(id := id)], id) == i
  {
    var u := t[i := t[i].(id := id)];
    if i > 0 {
      assert u[1..] == t[1..][i - 1 := t[i].(id := id)];
      FindPlaced(t[1..], i - 1, id);
    }
  }

  /** Only a slot whose heap has no live block is handed to a new owner. */
  lemma AllocHeapKeeps(t: Table, id: int)
    requires Inv(t) && id != -1
    ensures var r := AllocPrivateHeap(t, id);
      Inv(r.1) && OthersSame(t, r.1, id) &&
      (r.0 == 0 <==> Assigned(r.1, id)) && (r.0 == 0 || (r.0 == -1 && r.1 == t)) &&
      (forall x :: x != id && x != -1 ==> Assigned(r.1, x) == Assigned(t, x)) &&
      (!Assigned(t, id) ==> forall p :: !Owns(r.1, id, p))
  {
    var i := Find(t, -1);
    if Find(t, id) == NUM_OF_HEAPS && i < NUM_OF_HEAPS {
      Reassign(t, i, id);
    }
  }

  /** Changing the owner of a slot without live blocks, from or to nobody. */
  lemma Reassign(t: Table, i: nat, id: int)
    requires Inv(t) && i < NUM_OF_HEAPS && t[i].heap.live == []
    requires if id == -1 then t[i].id != -1 else t[i].id == -1 && !Assigned(t, id)
    ensures var u := t[i := t[i].(id := id)];
      Inv(u) && (id != -1 ==> Find(u, id) == i) &&
      (forall x :: x != id && x != t[i].id ==> Find(u, x) == Find(t, x)) && (id == -1 ==> !Assigned(u, t[i].id))
  {
    var u: Table := t[i := t[i].(id := id)];
    assert SlotOk(t[i]);
    assert SlotOk(u[i]);
    forall x | x != id && x != t[i].id ensures Find(u, x) == Find(t, x) { FindElsewhere(t, u, i, x); }
  }

  lemma {:induction false} FindElsewhere(t: seq<Slot>, u: seq<Slot>, i: nat, x: int)
    requires |t| == |u| && i < |t| && t[i].id != x && u[i].id != x
    requires forall k :: 0 <= k < |t| && k != i ==> t[k] == u[k]
    ensures Find(u, x) == Find(t, x)
  {
    if i > 0 { FindElsewhere(t[1..], u[1..], i - 1, x); } else { FindSame(t[1..], u[1..], x); }
  }

  /** Giving a heap back succeeds exactly when its owner has no live block left. */
  lemma FreeHeapKeeps(t: Table, id: int)
    requires Inv(t) && id != -1
    ensures var r := FreePrivateHeap(t, id);
      Inv(r.1) && OthersSame(t, r.1, id) &&
      (r.0 == 0 <==> Assigned(t, id) && forall p :: !Owns(t, id, p)) &&
      (r.0 == 0 ==> !Assigned(r.1, id)) && (r.0 != 0 ==> r.0 == -1 && r.1 == t) &&
      forall k :: 0 <= k < NUM_OF_HEAPS ==> r.1[k].heap == t[k].heap && r.1[k].count == t[k].count
  {
    var i := Find(t, id);
    if i < NUM_OF_HEAPS {
      assert SlotOk(t[i]);
      if |t[i].heap.live| > 0 {
        assert LiveAt(t[i].heap, t[i].heap.live[0].addr);
        assert Owns(t, id, t[i].heap.live[0].addr);
      } else {
        Reassign(t, i, -1);
      }
    }
  }

  /** How far the count of the slot of `id` is off. */
  function Drift(t: Table, id: int): int
    requires Assigned(t, id)
  {
    t[Find(t, id)].count - |t[Find(t, id)].heap.live|
  }

  /** A table whose heaps are in order, whatever its counts. */
  ghost predicate HeapsOk(t: Table) { forall i :: 0 <= i < |t| ==> BuddyRuns.Inv(t[i].heap) && LiveBinsOk(t[i].heap) }

  /** Each free of a pointer that is not live puts the count off by one more, for good. */
  lemma FreeDrift(t: Table, id: int, p: int)
    requires HeapsOk(t) && Assigned(t, id)
    ensures var u := SwFreePrivate(t, id, p);
      HeapsOk(u) && Assigned(u, id) && Drift(u, id) == Drift(t, id) - (if Owns(t, id, p) then 0 else 1) &&
      OthersSame(t, u, id) && (forall x :: Find(u, x) == Find(t, x)) &&
      forall q :: Owns(u, id, q) <==> Owns(t, id, q) && q != p
  {
    var i, u := Find(t, id), SwFreePrivate(t, id, p);
    FreeOutcome(t[i].heap, p);
    forall x ensures Find(u, x) == Find(t, x) { FindSame(t, u, x); }
  }

  lemma InvDrift(t: Table, id: int)
    requires Inv(t)
    ensures HeapsOk(t) && (Assigned(t, id) ==> Drift(t, id) == 0)
  {
    forall i | 0 <= i < |t| ensures BuddyRuns.Inv(t[i].heap) && LiveBinsOk(t[i].heap) { assert SlotOk(t[i]); }
    if Assigned(t, id) { assert SlotOk(t[Find(t, id)]); }
  }

  // ----- booting

  /** Heaps as the boot code sets them up, wherever they lie: unassigned, nothing allocated. */
  function Booted(starts: seq<int>, heapSize: nat, hk: nat): (t: Table)
    requires |starts| == NUM_OF_HEAPS && heapSize >= MAX_BLOCK_SIZE && hk <= heapSize
  {
    seq(NUM_OF_HEAPS, i requires 0 <= i < NUM_OF_HEAPS => Slot(-1, 0, InitHeap(starts[i], heapSize, hk)))
  }

  /** The booted table is in order, and the common heap then gets its slot. */
  lemma BootInv(starts: seq<int>, heapSize: nat, hk: nat)
    requires |starts| == NUM_OF_HEAPS && forall i :: 0 <= i < |starts| ==> starts[i] > 0
    requires heapSize >= MAX_BLOCK_SIZE && hk <= heapSize && (heapSize - hk) % MAX_BLOCK_SIZE == 0
    requires (heapSize - hk) / MAX_BLOCK_SIZE <= (hk / 2) / 16
    ensures Inv(Booted(starts, heapSize, hk))
    ensures var r := AllocPrivateHeap(Booted(starts, heapSize, hk), COMMON_HEAP_ID);
      r.0 == 0 && Inv(r.1) && Assigned(r.1, COMMON_HEAP_ID) && forall id :: id > COMMON_HEAP_ID ==> !Assigned(r.1, id)
  {
    var t := Booted(starts, heapSize, hk);
    forall i | 0 <= i < NUM_OF_HEAPS ensures SlotOk(t[i]) && LiveBinsOk(t[i].heap) {
      BuddyRuns.InitInv(starts[i], heapSize, hk);
    }
    AllocHeapKeeps(t, COMMON_HEAP_ID);
  }
}
