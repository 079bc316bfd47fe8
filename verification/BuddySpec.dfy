/** The buddy allocator as functions on an immutable heap value: what each routine of
    sw_buddy.c does to the bins, the list of live blocks and the two pools of housekeeping
    nodes.  `BuddyHeap.dfy` proves that the routines, run on node arrays, compute these functions. */
module BuddySpec {
  import opened Wrappers

  const MIN_BLOCK_SIZE: nat := 4
  const MAX_BLOCK_SIZE: nat := 4096
  const BINS_MAX_ORDER: nat := 11

  /** Bytes in a block of bin `bin`, MIN_BLOCK_SIZE << bin. */
  function BlkSize(bin: nat): (r: nat)
    ensures r >= MIN_BLOCK_SIZE && r % MIN_BLOCK_SIZE == 0
  {
    if bin == 0 then MIN_BLOCK_SIZE else 2 * BlkSize(bin - 1)
  }

  datatype Blk = Blk(addr: int, bin: nat)
  datatype Live = Live(addr: int, size: nat, bin: nat)

  /** `orphans` are blocks the allocator has taken out of a bin and lost together with the
      free node that described them; `dropped` are blocks whose free found no node.  The
      source has no field for either: they are what its error paths leak. */
  datatype Heap = Heap(
    memStart: int, memSize: nat, heapSize: nat, fnCap: nat, anCap: nat,
    bins: seq<seq<int>>, live: seq<Live>, orphans: seq<Blk>, dropped: seq<Blk>)

  predicate Shape(h: Heap) {
    |h.bins| == BINS_MAX_ORDER && h.heapSize >= MAX_BLOCK_SIZE
  }

  // ----- the blocks of a heap

  function TotalFree(bins: seq<seq<int>>, b: nat := 0): nat
    requires b <= |bins|
    decreases |bins| - b
  {
    if b == |bins| then 0 else |bins[b]| + TotalFree(bins, b + 1)
  }

  /** Free nodes with a non-null map: one per listed block and one per orphan. */
  function NodesUsed(h: Heap): nat {
    TotalFree(h.bins) + |h.orphans|
  }

  function LiveBlocks(live: seq<Live>): seq<Blk> {
    seq(|live|, i requires 0 <= i < |live| => Blk(live[i].addr, live[i].bin))
  }

  /** How often `x` occurs in `s`. */
  function Occ<T(==)>(s: seq<T>, x: T): nat {
    if s == [] then 0 else (if s[0] == x then 1 else 0) + Occ(s[1..], x)
  }

  /** How often block `x` is listed in its bin. */
  function FreeCount(bins: seq<seq<int>>, x: Blk): nat {
    if x.bin < |bins| then Occ(bins[x.bin], x.addr) else 0
  }

  /** How often block `x` is free, live or lost. */
  function Count(h: Heap, x: Blk): nat {
    FreeCount(h.bins, x) + Occ(LiveBlocks(h.live), x) + Occ(h.orphans, x) + Occ(h.dropped, x)
  }

  /** The blocks no routine can reach any more. */
  function LostBlocks(h: Heap): seq<Blk> { h.orphans + h.dropped }

  // ----- buddy_get_block

  /** The block taken for bin `idx`, whose node is still in use, and the heap left behind. */
  function GetBlock(h: Heap, idx: nat): (r: (Option<int>, Heap))
    requires Shape(h)
    ensures Shape(r.1)
    decreases BINS_MAX_ORDER - idx
  {
    if idx >= BINS_MAX_ORDER then
      (None, h)
    else if h.bins[idx] == [] then
      var (farea, h1) := GetBlock(h, idx + 1);
      match farea {
        case None => (None, h1)
        case Some(a) => SplitBlock(h1, idx, a)
      }
    else
      var last := |h.bins[idx]| - 1;
      (Some(h.bins[idx][last]), h.(bins := h.bins[idx := h.bins[idx][..last]]))
  }

  /** The block at `a` in hand, of bin `idx + 1`, is halved: the low half stays in bin `idx`, the
      high half is handed out on a new node.  Without a free node the block is lost. */
  function SplitBlock(h: Heap, idx: nat, a: int): (r: (Option<int>, Heap))
    requires Shape(h) && idx < BINS_MAX_ORDER
    ensures Shape(r.1)
  {
    if NodesUsed(h) + 1 < h.fnCap then
      (Some(a + BlkSize(idx)), h.(bins := h.bins[idx := h.bins[idx] + [a]]))
    else
      (None, h.(orphans := h.orphans + [Blk(a, idx + 1)]))
  }

  // ----- add_free_area_to_bin

  /** The index of the first larger address, or of the last one. */
  function InsertPos(bin: seq<int>, a: int, k: nat := 0): (r: nat)
    requires k < |bin|
    ensures k <= r < |bin|
    decreases |bin| - k
  {
    if bin[k] > a || k + 1 == |bin| then k else InsertPos(bin, a, k + 1)
  }

  function AddToBin(bin: seq<int>, a: int): (r: seq<int>)
    ensures |r| == |bin| + 1
  {
    if bin == [] then [a]
    else
      var k := InsertPos(bin, a) + 1;
      bin[..k] + [a] + bin[k..]
  }

  // ----- coalesce_buddies

  /** The first list-consecutive pair in which the second block starts where the first ends. */
  function FirstAdjacent(bin: seq<int>, size: nat, i: nat := 0): (r: Option<nat>)
    requires i <= |bin|
    ensures r.Some? ==> i <= r.value && r.value + 1 < |bin| && bin[r.value] + size == bin[r.value + 1]
    ensures r.Some? ==> forall k {:trigger bin[k]} :: i <= k < r.value ==> bin[k] + size != bin[k + 1]
    ensures r.None? ==> forall k {:trigger bin[k]} :: i <= k && k + 1 < |bin| ==> bin[k] + size != bin[k + 1]
    decreases |bin| - i
  {
    if i + 1 >= |bin| then None
    else if bin[i] + size == bin[i + 1] then Some(i)
    else FirstAdjacent(bin, size, i + 1)
  }

  predicate NoAdjacent(bin: seq<int>, size: nat) {
    forall k {:trigger bin[k]} :: 0 <= k && k + 1 < |bin| ==> bin[k] + size != bin[k + 1]
  }

  function Coalesce(bins: seq<seq<int>>, b: nat): (r: seq<seq<int>>)
    requires |bins| == BINS_MAX_ORDER && b < BINS_MAX_ORDER
    ensures |r| == BINS_MAX_ORDER
    decreases BINS_MAX_ORDER - b, |bins[b]|
  {
    if b == BINS_MAX_ORDER - 1 then bins
    else
      match FirstAdjacent(bins[b], BlkSize(b)) {
        case Some(i) => Coalesce(MergePair(bins, b, i), b)
        case None => Coalesce(bins, b + 1)
      }
  }

  function MergePair(bins: seq<seq<int>>, b: nat, i: nat): (r: seq<seq<int>>)
    requires b + 1 < |bins| && i + 1 < |bins[b]|
    ensures |r| == |bins| && |r[b]| == |bins[b]| - 2
  {
    bins[b := bins[b][..i] + bins[b][i + 2..]][b + 1 := AddToBin(bins[b + 1], bins[b][i])]
  }

  // ----- sw_buddy_malloc, for sizes up to MAX_BLOCK_SIZE

  function MallocFrom(h: Heap, size: nat, idx: nat, curr: nat): (r: (Option<int>, Heap))
    requires Shape(h)
    ensures Shape(r.1)
    decreases BINS_MAX_ORDER + 1 - idx
  {
    if idx > BINS_MAX_ORDER then (None, h)
    else if size > curr then MallocFrom(h, size, idx + 1, 2 * curr)
    else
      var (farea, h1) := GetBlock(h, idx);
      match farea {
        case None => MallocFrom(h1, size, idx + 1, curr)
        case Some(a) =>
          if |h1.live| < h1.anCap then (Some(a), h1.(live := h1.live + [Live(a, curr, idx)]))
          else (None, h1.(orphans := h1.orphans + [Blk(a, idx)]))
      }
  }

  function Malloc(h: Heap, size: nat): (r: (Option<int>, Heap))
    requires Shape(h) && size <= MAX_BLOCK_SIZE
    ensures Shape(r.1)
  {
    if size > h.heapSize then (None, h) else MallocFrom(h, size, 0, MIN_BLOCK_SIZE)
  }

  // ----- buddy_free

  function SearchLive(live: seq<Live>, addr: int, i: nat := 0): (r: Option<nat>)
    requires i <= |live|
    ensures r.Some? ==> i <= r.value < |live| && live[r.value].addr == addr
    ensures r.None? ==> forall k :: i <= k < |live| ==> live[k].addr != addr
    decreases |live| - i
  {
    if i == |live| then None
    else if live[i].addr == addr then Some(i)
    else SearchLive(live, addr, i + 1)
  }

  function ReturnToPool(h: Heap, a: Live): (r: Heap)
    requires Shape(h) && a.bin < BINS_MAX_ORDER
    ensures Shape(r) && r.live == h.live
  {
    if NodesUsed(h) < h.fnCap then
      var bins := h.bins[a.bin := AddToBin(h.bins[a.bin], a.addr)];
      h.(bins := if |bins[a.bin]| > 1 then Coalesce(bins, a.bin) else bins)
    else
      h.(dropped := h.dropped + [Blk(a.addr, a.bin)])
  }

  function Free(h: Heap, addr: int): (r: Heap)
    requires Shape(h) && LiveBinsOk(h)
    ensures Shape(r)
  {
    match SearchLive(h.live, addr) {
      case None => h
      case Some(i) =>
        var h1 := ReturnToPool(h, h.live[i]);
        h1.(live := h1.live[..i] + h1.live[i + 1..])
    }
  }

  predicate LiveBinsOk(h: Heap) {
    forall i :: 0 <= i < |h.live| ==> h.live[i].bin < BINS_MAX_ORDER
  }

  // ----- buddy_init

  function InitBlocks(memStart: int, n: nat): (r: seq<int>)
    ensures |r| == n && forall i :: 0 <= i < n ==> r[i] == memStart + i * MAX_BLOCK_SIZE
  {
    seq(n, i => memStart + i * MAX_BLOCK_SIZE)
  }

  /** The heap in buddy_init after the first `n` blocks above the housekeeping area. */
  function FilledHeap(heapStart: int, heapSize: nat, hk: nat, n: nat): (h: Heap)
    requires heapSize >= MAX_BLOCK_SIZE && hk <= heapSize
    ensures Shape(h) && LiveBinsOk(h)
  {
    Heap(heapStart + hk, heapSize - hk, heapSize, (hk / 2) / 16, (hk / 2) / 24,
         seq(BINS_MAX_ORDER, i => if i == BINS_MAX_ORDER - 1 then InitBlocks(heapStart + hk, n) else []),
         [], [], [])
  }

  /** The heap left by a successful buddy_init. */
  function InitHeap(heapStart: int, heapSize: nat, hk: nat): (h: Heap)
    requires heapSize >= MAX_BLOCK_SIZE && hk <= heapSize
    ensures Shape(h) && LiveBinsOk(h)
  {
    FilledHeap(heapStart, heapSize, hk, (heapSize - hk) / MAX_BLOCK_SIZE)
  }
}
