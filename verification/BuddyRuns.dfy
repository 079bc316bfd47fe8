/** What holds in every state the buddy allocator can reach, and exactly when it loses memory. */
module BuddyRuns {
  import opened Wrappers
  import opened BuddySpec
  import opened BuddyTiling

  datatype Op = Malloc(size: nat) | Free(addr: int)

  predicate OpOk(op: Op) { op.Malloc? ==> op.size <= MAX_BLOCK_SIZE }

  predicate LiveOk(a: Live) { a.bin < BINS_MAX_ORDER && a.size <= BlkSize(a.bin) }

  ghost predicate Bounded(h: Heap) {
    && Shape(h)
    && NodesUsed(h) <= h.fnCap && |h.live| <= h.anCap
    && (forall i :: 0 <= i < |h.live| ==> LiveOk(h.live[i]))
    && (forall b :: 0 <= b < BINS_MAX_ORDER - 1 ==> NoAdjacent(h.bins[b], BlkSize(b)))
  }

  ghost predicate Tiled(h: Heap) { exists l: seq<Blk> :: Lays(h, l) }

  /** The invariant of the allocator: pools not overdrawn, live blocks at least as large as
      asked for, no bin below the top with two list-consecutive blocks that touch, and free,
      live and lost blocks filling the memory. */
  ghost predicate Inv(h: Heap) { Bounded(h) && Tiled(h) }

  // ----- counting free nodes

  lemma {:induction false} TotalFreeUpdate(bins: seq<seq<int>>, k: nat, bin: seq<int>, b: nat := 0)
    requires b <= k < |bins|
    ensures TotalFree(bins[k := bin], b) + |bins[k]| == TotalFree(bins, b) + |bin|
    decreases k - b
  {
    if b == k {
      TotalFreeFrom(bins, bins[k := bin], k + 1);
    } else {
      TotalFreeUpdate(bins, k, bin, b + 1);
    }
  }

  lemma {:induction false} TotalFreeFrom(x: seq<seq<int>>, y: seq<seq<int>>, b: nat)
    requires b <= |x| == |y| && forall i :: b <= i < |x| ==> x[i] == y[i]
    ensures TotalFree(x, b) == TotalFree(y, b)
    decreases |x| - b
  {
    if b < |x| { TotalFreeFrom(x, y, b + 1); }
  }

  // ----- the order of a request and the bin that serves it

  function Order(size: nat, idx: nat := 0): (r: nat)
    requires idx < BINS_MAX_ORDER && size <= MAX_BLOCK_SIZE
    ensures idx <= r < BINS_MAX_ORDER && size <= BlkSize(r)
    ensures r > idx ==> BlkSize(r - 1) < size
    decreases BINS_MAX_ORDER - idx
  {
    BlkSizeTop();
    if size <= BlkSize(idx) then idx else Order(size, idx + 1)
  }

  function LeastBin(bins: seq<seq<int>>, idx: nat): (r: nat)
    requires |bins| == BINS_MAX_ORDER && idx <= BINS_MAX_ORDER
    ensures idx <= r <= BINS_MAX_ORDER
    ensures forall b :: idx <= b < r ==> bins[b] == []
    ensures r < BINS_MAX_ORDER ==> bins[r] != []
    decreases BINS_MAX_ORDER - idx
  {
    if idx == BINS_MAX_ORDER || bins[idx] != [] then idx else LeastBin(bins, idx + 1)
  }

  function Last(s: seq<int>): int requires s != [] { s[|s| - 1] }

  /** There is a block to take for bin `idx` and there are nodes for all its splits. */
  predicate CanServe(h: Heap, idx: nat)
    requires Shape(h) && idx < BINS_MAX_ORDER
  {
    var j := LeastBin(h.bins, idx);
    j < BINS_MAX_ORDER && NodesUsed(h) + (j - idx) <= h.fnCap
  }

  // ----- what buddy_get_block does

  /** Free nodes in use while `o` is in the caller's hand. */
  function NodesWith(h: Heap, o: Option<int>): nat { NodesUsed(h) + if o.Some? then 1 else 0 }

  lemma {:induction false} GetBlockBounds(h: Heap, idx: nat)
    requires Shape(h) && NodesUsed(h) <= h.fnCap
    ensures var (o, g) := GetBlock(h, idx);
      && g == h.(bins := g.bins, orphans := g.orphans)
      && |h.orphans| <= |g.orphans| && NodesUsed(h) <= NodesWith(g, o) <= h.fnCap
      && (forall b :: 0 <= b < idx && b < BINS_MAX_ORDER ==> g.bins[b] == h.bins[b])
      && (forall b {:trigger g.bins[b]} :: 0 <= b < BINS_MAX_ORDER ==> g.bins[b] <= h.bins[b] || |g.bins[b]| == 1)
    decreases BINS_MAX_ORDER - idx
  {
    if idx < BINS_MAX_ORDER {
      if h.bins[idx] == [] {
        GetBlockBounds(h, idx + 1);
        var (f, g) := GetBlock(h, idx + 1);
        if f.Some? { TotalFreeUpdate(g.bins, idx, g.bins[idx] + [f.value]); }
      } else {
        TotalFreeUpdate(h.bins, idx, h.bins[idx][..|h.bins[idx]| - 1]);
      }
    }
  }

  /** It takes the last block of the least non-empty bin and hands out its top end. */
  lemma {:induction false} GetBlockServes(h: Heap, idx: nat)
    requires Shape(h) && idx < BINS_MAX_ORDER && CanServe(h, idx)
    ensures var j, r := LeastBin(h.bins, idx), GetBlock(h, idx);
      && r.0 == Some(Last(h.bins[j]) + BlkSize(j) - BlkSize(idx))
      && r.1.orphans == h.orphans && NodesUsed(r.1) + 1 == NodesUsed(h) + (j - idx)
    decreases BINS_MAX_ORDER - idx
  {
    if h.bins[idx] == [] {
      GetBlockServes(h, idx + 1);
      GetBlockBounds(h, idx + 1);
      var r := GetBlock(h, idx + 1);
      SplitServes(r.1, h.fnCap, idx, r.0.value);
    } else {
      TotalFreeUpdate(h.bins, idx, h.bins[idx][..|h.bins[idx]| - 1]);
    }
  }

  lemma SplitServes(g: Heap, cap: nat, idx: nat, a: int)
    requires Shape(g) && idx < BINS_MAX_ORDER && g.fnCap == cap && NodesUsed(g) + 1 < cap
    ensures var r := SplitBlock(g, idx, a);
      r.0 == Some(a + BlkSize(idx)) && r.1.orphans == g.orphans && NodesUsed(r.1) == NodesUsed(g) + 1
  {
    TotalFreeUpdate(g.bins, idx, g.bins[idx] + [a]);
  }

  /** Of each split it keeps the low half, as the only block of its bin. */
  lemma {:induction false} GetBlockKeeps(h: Heap, idx: nat, j: nat, b: nat)
    requires Shape(h) && idx < BINS_MAX_ORDER && CanServe(h, idx) && b < BINS_MAX_ORDER && j == LeastBin(h.bins, idx)
    ensures GetBlock(h, idx).1.bins[b] == KeptBin(h.bins, idx, j, b)
    decreases BINS_MAX_ORDER - idx
  {
    if h.bins[idx] == [] {
      GetBlockKeeps(h, idx + 1, j, b);
      GetBlockBounds(h, idx + 1);
      GetBlockServes(h, idx + 1);
      var (f, g) := GetBlock(h, idx + 1);
      if b == idx { assert GetBlock(h, idx).1.bins[b] == g.bins[b] + [f.value]; }
    }
  }

  function KeptBin(bins: seq<seq<int>>, idx: nat, j: nat, b: nat): seq<int>
    requires idx <= j < |bins| && b < |bins| && bins[j] != []
  {
    if idx <= b < j then [Last(bins[j]) + BlkSize(j) - BlkSize(b + 1)]
    else if b == j then bins[j][..|bins[j]| - 1]
    else bins[b]
  }

  /** With no block of this order or above nothing happens; with a block but too few nodes for
      its splits, a block is lost. */
  lemma {:induction false} GetBlockFails(h: Heap, idx: nat)
    requires Shape(h) && idx <= BINS_MAX_ORDER && NodesUsed(h) <= h.fnCap
    ensures LeastBin(h.bins, idx) == BINS_MAX_ORDER ==> GetBlock(h, idx) == (None, h)
    ensures LeastBin(h.bins, idx) < BINS_MAX_ORDER && !CanServe(h, idx) ==> |GetBlock(h, idx).1.orphans| > |h.orphans|
    decreases BINS_MAX_ORDER - idx
  {
    if idx < BINS_MAX_ORDER && h.bins[idx] == [] {
      GetBlockFails(h, idx + 1);
      GetBlockBounds(h, idx + 1);
      if LeastBin(h.bins, idx) < BINS_MAX_ORDER && CanServe(h, idx + 1) { GetBlockServes(h, idx + 1); }
    }
  }

  // ----- what sw_buddy_malloc does

  lemma {:induction false} MallocFromBounds(h: Heap, size: nat, idx: nat, curr: nat)
    requires Shape(h) && NodesUsed(h) <= h.fnCap && |h.live| <= h.anCap && curr <= BlkSize(idx)
    ensures var g := MallocFrom(h, size, idx, curr).1;
      && g == h.(bins := g.bins, orphans := g.orphans, live := g.live)
      && |h.orphans| <= |g.orphans| && NodesUsed(g) <= g.fnCap && |g.live| <= g.anCap
      && (g.live == h.live || (|g.live| == |h.live| + 1 && g.live[..|h.live|] == h.live && LiveOk(g.live[|h.live|])))
      && (forall b {:trigger g.bins[b]} :: 0 <= b < BINS_MAX_ORDER ==> g.bins[b] <= h.bins[b] || |g.bins[b]| == 1)
    decreases BINS_MAX_ORDER + 1 - idx
  {
    if idx > BINS_MAX_ORDER {
    } else if size > curr {
      MallocFromBounds(h, size, idx + 1, 2 * curr);
    } else {
      GetBlockBounds(h, idx);
      var (o, g) := GetBlock(h, idx);
      if o.None? { MallocFromBounds(g, size, idx + 1, curr); }
    }
  }

  lemma {:induction false} SkipSmallBins(h: Heap, size: nat, idx: nat)
    requires Shape(h) && size <= MAX_BLOCK_SIZE && idx <= Order(size)
    ensures MallocFrom(h, size, idx, BlkSize(idx)) == MallocFrom(h, size, Order(size), BlkSize(Order(size)))
    decreases Order(size) - idx
  {
    if idx < Order(size) {
      BlkSizeMonotone(idx, Order(size) - 1);
      SkipSmallBins(h, size, idx + 1);
    }
  }

  lemma {:induction false} BlkSizeMonotone(i: nat, j: nat)
    requires i <= j
    ensures BlkSize(i) <= BlkSize(j) && BlkSize(j) >= BlkSize(i) + MIN_BLOCK_SIZE * (j - i)
  {
    if i < j { BlkSizeMonotone(i, j - 1); }
  }

  /** sw_buddy_malloc when there is a block, nodes for its splits and a node for the live block:
      the least order `o` that fits, at the top end of the last block of the least non-empty
      bin `j`. */
  lemma MallocServes(h: Heap, size: nat, o: nat, j: nat)
    requires Shape(h) && size <= MAX_BLOCK_SIZE && o == Order(size) && j == LeastBin(h.bins, o)
    requires NodesUsed(h) <= h.fnCap && CanServe(h, o) && |h.live| < h.anCap
    ensures var a := Last(h.bins[j]) + BlkSize(j) - BlkSize(o);
      var g := BuddySpec.Malloc(h, size).1;
      && BuddySpec.Malloc(h, size) == (Some(a), h.(bins := g.bins, live := h.live + [Live(a, BlkSize(o), o)]))
      && forall b :: 0 <= b < BINS_MAX_ORDER ==> g.bins[b] == KeptBin(h.bins, o, j, b)
  {
    MallocStartsAt(h, size);
    ServesTop(h, size, o, j);
    KeepsAll(h, o, j);
  }

  lemma MallocStartsAt(h: Heap, size: nat)
    requires Shape(h) && size <= MAX_BLOCK_SIZE
    ensures BuddySpec.Malloc(h, size) == MallocFrom(h, size, Order(size), BlkSize(Order(size)))
  {
    SkipSmallBins(h, size, 0);
  }

  lemma ServesTop(h: Heap, size: nat, o: nat, j: nat)
    requires Shape(h) && o < BINS_MAX_ORDER && size <= BlkSize(o) && j == LeastBin(h.bins, o)
    requires NodesUsed(h) <= h.fnCap && CanServe(h, o) && |h.live| < h.anCap
    ensures var a := Last(h.bins[j]) + BlkSize(j) - BlkSize(o);
      MallocFrom(h, size, o, BlkSize(o))
      == (Some(a), h.(bins := GetBlock(h, o).1.bins, live := h.live + [Live(a, BlkSize(o), o)]))
  {
    GetBlockBounds(h, o);
    GetBlockServes(h, o);
  }

  lemma KeepsAll(h: Heap, o: nat, j: nat)
    requires Shape(h) && o < BINS_MAX_ORDER && j == LeastBin(h.bins, o) && CanServe(h, o)
    ensures forall b :: 0 <= b < BINS_MAX_ORDER ==> GetBlock(h, o).1.bins[b] == KeptBin(h.bins, o, j, b)
  {
    forall b | 0 <= b < BINS_MAX_ORDER ensures GetBlock(h, o).1.bins[b] == KeptBin(h.bins, o, j, b) {
      GetBlockKeeps(h, o, j, b);
    }
  }

  /** With no block large enough it returns NULL and changes nothing. */
  lemma MallocFindsNothing(h: Heap, size: nat)
    requires Shape(h) && size <= MAX_BLOCK_SIZE && LeastBin(h.bins, Order(size)) == BINS_MAX_ORDER
    ensures BuddySpec.Malloc(h, size) == (None, h)
  {
    SkipSmallBins(h, size, 0);
    NothingAbove(h, size, Order(size), BlkSize(Order(size)));
  }

  /** With a block but without the nodes it needs, a block is lost. */
  lemma MallocLoses(h: Heap, size: nat)
    requires Shape(h) && size <= MAX_BLOCK_SIZE && LeastBin(h.bins, Order(size)) < BINS_MAX_ORDER
    requires NodesUsed(h) <= h.fnCap && |h.live| <= h.anCap
    requires !(CanServe(h, Order(size)) && |h.live| < h.anCap)
    ensures |BuddySpec.Malloc(h, size).1.orphans| > |h.orphans|
  {
    var o := Order(size);
    SkipSmallBins(h, size, 0);
    GetBlockBounds(h, o);
    if CanServe(h, o) { GetBlockServes(h, o); } else { GetBlockFails(h, o); }
    var (f, h1) := GetBlock(h, o);
    if f.None? {
      BlkSizeMonotone(o, o + 1);
      MallocFromBounds(h1, size, o + 1, BlkSize(o));
    }
  }

  lemma {:induction false} NothingAbove(h: Heap, size: nat, idx: nat, curr: nat)
    requires Shape(h) && idx <= BINS_MAX_ORDER && LeastBin(h.bins, idx) == BINS_MAX_ORDER && size <= curr
    ensures MallocFrom(h, size, idx, curr) == (None, h)
    decreases BINS_MAX_ORDER - idx
  {
    EmptyGetBlock(h, idx);
    if idx < BINS_MAX_ORDER { NothingAbove(h, size, idx + 1, curr); }
  }

  lemma {:induction false} EmptyGetBlock(h: Heap, idx: nat)
    requires Shape(h) && idx <= BINS_MAX_ORDER && LeastBin(h.bins, idx) == BINS_MAX_ORDER
    ensures GetBlock(h, idx) == (None, h)
    decreases BINS_MAX_ORDER - idx
  {
    if idx < BINS_MAX_ORDER { EmptyGetBlock(h, idx + 1); }
  }

  /** A request loses no memory if and only if there is nothing to take, or there are free nodes
      for its splits and a node for the live block. */
  lemma MallocLosesNothingIff(h: Heap, size: nat)
    requires Shape(h) && NodesUsed(h) <= h.fnCap && |h.live| <= h.anCap && size <= MAX_BLOCK_SIZE
    ensures var g := BuddySpec.Malloc(h, size).1;
      LostBlocks(g) == LostBlocks(h) <==>
        (LeastBin(h.bins, Order(size)) == BINS_MAX_ORDER || (CanServe(h, Order(size)) && |h.live| < h.anCap))
  {
    var o := Order(size);
    MallocFromBounds(h, size, 0, MIN_BLOCK_SIZE);
    if LeastBin(h.bins, o) == BINS_MAX_ORDER {
      MallocFindsNothing(h, size);
    } else if CanServe(h, o) && |h.live| < h.anCap {
      MallocServes(h, size, o, LeastBin(h.bins, o));
    } else {
      MallocLoses(h, size);
    }
  }

  /** A free loses no memory if and only if the address is not live or a free node is left. */
  lemma FreeLosesNothingIff(h: Heap, addr: int)
    requires Shape(h) && LiveBinsOk(h)
    ensures LostBlocks(BuddySpec.Free(h, addr)) == LostBlocks(h) <==>
              ((forall i :: 0 <= i < |h.live| ==> h.live[i].addr != addr) || NodesUsed(h) < h.fnCap)
  {
  }

  /** What a block that served a request is like: it fits, and is not twice too large. */
  lemma ServedSize(h: Heap, size: nat)
    requires size <= MAX_BLOCK_SIZE
    ensures size <= BlkSize(Order(size)) && (size > MIN_BLOCK_SIZE ==> BlkSize(Order(size)) < 2 * size)
  {
  }

  // ----- where buddy_free puts a block

  /** Everything passed over is no larger, and the search ends at a larger address or at the last. */
  lemma {:induction false} InsertPosIs(bin: seq<int>, a: int, k: nat)
    requires k < |bin|
    ensures var r := InsertPos(bin, a, k);
      (forall i :: k <= i < r ==> bin[i] <= a) && (bin[r] > a || r == |bin| - 1)
    decreases |bin| - k
  {
    if bin[k] <= a && k + 1 < |bin| { InsertPosIs(bin, a, k + 1); }
  }

  /** A freed block goes directly behind the first block at a larger address, or to the end when there
      is none; the others keep their order. */
  lemma AddedBehindFirstLarger(bin: seq<int>, a: int) returns (k: nat)
    ensures k <= |bin| && AddToBin(bin, a) == bin[..k] + [a] + bin[k..]
    ensures k == 0 <==> bin == []
    ensures forall i :: 0 <= i < k - 1 ==> bin[i] <= a
    ensures k > 0 ==> bin[k - 1] > a || k == |bin|
  {
    k := 0;
    if bin != [] {
      InsertPosIs(bin, a, 0);
      k := InsertPos(bin, a) + 1;
    }
  }

  /** It becomes the last one, the next to be handed out, if and only if none but the former last block lies
      above it. */
  lemma AddedLast(bin: seq<int>, a: int)
    requires a !in bin
    ensures AddToBin(bin, a)[|bin|] == a <==> (forall i :: 0 <= i < |bin| - 1 ==> bin[i] <= a)
  {
    var k := AddedBehindFirstLarger(bin, a);
  }

  lemma {:induction false} CoalesceNothing(bins: seq<seq<int>>, b: nat)
    requires |bins| == BINS_MAX_ORDER && b < BINS_MAX_ORDER
    requires forall c :: b <= c < BINS_MAX_ORDER - 1 ==> NoAdjacent(bins[c], BlkSize(c))
    ensures Coalesce(bins, b) == bins
    decreases BINS_MAX_ORDER - b
  {
    if b < BINS_MAX_ORDER - 1 {
      assert FirstAdjacent(bins[b], BlkSize(b)) == None;
      CoalesceNothing(bins, b + 1);
    }
  }

  /** A block that touches no list neighbour goes into its bin behind the first block above it (or
      last) and changes nothing else. */
  lemma FreeFiles(h: Heap, i: nat)
    requires Bounded(h) && i < |h.live| && SearchLive(h.live, h.live[i].addr) == Some(i) && NodesUsed(h) < h.fnCap
    requires var b := h.live[i].bin;
      b < BINS_MAX_ORDER - 1 ==> NoAdjacent(AddToBin(h.bins[b], h.live[i].addr), BlkSize(b))
    ensures var b, a := h.live[i].bin, h.live[i].addr;
      BuddySpec.Free(h, a) ==
        h.(bins := h.bins[b := AddToBin(h.bins[b], a)], live := h.live[..i] + h.live[i + 1..])
  {
    var b, a := h.live[i].bin, h.live[i].addr;
    CoalesceNothing(h.bins[b := AddToBin(h.bins[b], a)], b);
  }

  /** Such a block is what the next request of its order gets if and only if none but the last block of
      the bin lies above it. */
  lemma FreedIsNext(h: Heap, i: nat, size: nat)
    requires Inv(h) && i < |h.live| && SearchLive(h.live, h.live[i].addr) == Some(i) && NodesUsed(h) < h.fnCap
    requires size <= MAX_BLOCK_SIZE && Order(size) == h.live[i].bin
    requires var b := h.live[i].bin;
      b < BINS_MAX_ORDER - 1 ==> NoAdjacent(AddToBin(h.bins[b], h.live[i].addr), BlkSize(b))
    ensures var bin, a := h.bins[h.live[i].bin], h.live[i].addr;
      BuddySpec.Malloc(BuddySpec.Free(h, a), size).0 == Some(a) <==> forall k :: 0 <= k < |bin| - 1 ==> bin[k] <= a
  {
    var b, a := h.live[i].bin, h.live[i].addr;
    var bin := h.bins[b];
    var g := BuddySpec.Free(h, a);
    FreeFiles(h, i);
    LiveNotFree(h, i);
    AddedLast(bin, a);
    TotalFreeUpdate(h.bins, b, AddToBin(bin, a));
    assert LeastBin(g.bins, b) == b;
    MallocServes(g, size, b, b);
  }

  lemma LiveNotFree(h: Heap, i: nat)
    requires Inv(h) && i < |h.live|
    ensures h.live[i].addr !in h.bins[h.live[i].bin]
  {
    var b := LiveBlocks(h.live);
    OccAt(b, i, b[i]);
    BlocksDisjoint(h, b[i], b[i]);
    if h.live[i].addr in h.bins[h.live[i].bin] {
      var k :| 0 <= k < |h.bins[h.live[i].bin]| && h.bins[h.live[i].bin][k] == h.live[i].addr;
      OccAt(h.bins[h.live[i].bin], k, h.live[i].addr);
    }
  }

  /** Merging takes the two neighbours out of their bin and files the first, now twice as long, one bin
      up; no other bin changes. */
  lemma MergePairFiles(bins: seq<seq<int>>, b: nat, i: nat) returns (k: nat)
    requires b + 1 < |bins| && i + 1 < |bins[b]|
    ensures var r, up, a := MergePair(bins, b, i), bins[b + 1], bins[b][i];
      r[b] == bins[b][..i] + bins[b][i + 2..] && k <= |up| && r[b + 1] == up[..k] + [a] + up[k..] &&
      (k == 0 <==> up == []) && (forall j :: 0 <= j < k - 1 ==> up[j] <= a) && (k > 0 ==> up[k - 1] > a || k == |up|) &&
      forall c :: 0 <= c < |bins| && c != b && c != b + 1 ==> r[c] == bins[c]
  {
    k := AddedBehindFirstLarger(bins[b + 1], bins[b][i]);
  }

  // ----- the invariant

  lemma NoAdjacentSmaller(s: seq<int>, t: seq<int>, size: nat)
    requires NoAdjacent(t, size) && (s <= t || |s| == 1)
    ensures NoAdjacent(s, size)
  {
    forall k {:trigger s[k]} | 0 <= k && k + 1 < |s| ensures s[k] + size != s[k + 1] {
      assert s[k] == t[k] && s[k + 1] == t[k + 1];
    }
  }

  lemma {:induction false} CoalesceClean(bins: seq<seq<int>>, b: nat)
    requires |bins| == BINS_MAX_ORDER && b < BINS_MAX_ORDER
    ensures var r := Coalesce(bins, b);
      && TotalFree(r) <= TotalFree(bins)
      && (forall c :: 0 <= c < b ==> r[c] == bins[c])
      && (forall c :: b <= c < BINS_MAX_ORDER - 1 ==> NoAdjacent(r[c], BlkSize(c)))
    decreases BINS_MAX_ORDER - b, |bins[b]|
  {
    if b < BINS_MAX_ORDER - 1 {
      match FirstAdjacent(bins[b], BlkSize(b)) {
        case None =>
          CoalesceClean(bins, b + 1);
        case Some(i) =>
          MergePairShrinks(bins, b, i);
          CoalesceClean(MergePair(bins, b, i), b);
      }
    }
  }

  lemma MergePairShrinks(bins: seq<seq<int>>, b: nat, i: nat)
    requires b + 1 < |bins| && i + 1 < |bins[b]|
    ensures TotalFree(MergePair(bins, b, i)) + 1 == TotalFree(bins)
  {
    var s := bins[b][..i] + bins[b][i + 2..];
    TotalFreeUpdate(bins, b, s);
    TotalFreeUpdate(bins[b := s], b + 1, AddToBin(bins[b + 1], bins[b][i]));
  }

  lemma MallocBounded(h: Heap, size: nat)
    requires Bounded(h) && size <= MAX_BLOCK_SIZE
    ensures Bounded(BuddySpec.Malloc(h, size).1)
  {
    MallocFromBounds(h, size, 0, MIN_BLOCK_SIZE);
    var g := MallocFrom(h, size, 0, MIN_BLOCK_SIZE).1;
    forall i | 0 <= i < |g.live| ensures LiveOk(g.live[i]) {
      if i < |h.live| { assert g.live[i] == g.live[..|h.live|][i]; }
    }
    forall b | 0 <= b < BINS_MAX_ORDER - 1 ensures NoAdjacent(g.bins[b], BlkSize(b)) {
      NoAdjacentSmaller(g.bins[b], h.bins[b], BlkSize(b));
    }
  }

  lemma MallocTiled(h: Heap, size: nat)
    requires Shape(h) && size <= MAX_BLOCK_SIZE && Tiled(h)
    ensures Tiled(BuddySpec.Malloc(h, size).1)
  {
    var l: seq<Blk> :| Lays(h, l);
    l := MallocFromLays(h, size, 0, MIN_BLOCK_SIZE, l);
  }

  lemma FreeBounded(h: Heap, addr: int)
    requires Bounded(h)
    ensures Bounded(BuddySpec.Free(h, addr))
  {
    var f := SearchLive(h.live, addr);
    if f.Some? && NodesUsed(h) < h.fnCap {
      var a := h.live[f.value];
      var bins := h.bins[a.bin := AddToBin(h.bins[a.bin], a.addr)];
      TotalFreeUpdate(h.bins, a.bin, bins[a.bin]);
      if |bins[a.bin]| > 1 { CoalesceClean(bins, a.bin); }
    }
  }

  lemma FreeTiled(h: Heap, addr: int)
    requires Shape(h) && LiveBinsOk(h) && Tiled(h)
    ensures Tiled(BuddySpec.Free(h, addr))
  {
    var l: seq<Blk> :| Lays(h, l);
    l := FreeLays(h, addr, l);
  }

  ghost function Step(h: Heap, op: Op): (r: Heap)
    requires Inv(h) && OpOk(op)
    ensures Inv(r)
  {
    match op
    case Malloc(size) => MallocBounded(h, size); MallocTiled(h, size); BuddySpec.Malloc(h, size).1
    case Free(addr) => FreeBounded(h, addr); FreeTiled(h, addr); BuddySpec.Free(h, addr)
  }

  /** Every state of every run has the invariant. */
  ghost function Run(h: Heap, ops: seq<Op>): (r: Heap)
    requires Inv(h) && forall i :: 0 <= i < |ops| ==> OpOk(ops[i])
    ensures Inv(r)
    decreases |ops|
  {
    if ops == [] then h else Run(Step(h, ops[0]), ops[1..])
  }

  lemma InitInv(heapStart: int, heapSize: nat, hk: nat)
    requires heapSize >= MAX_BLOCK_SIZE && hk <= heapSize && (heapSize - hk) % MAX_BLOCK_SIZE == 0
    requires (heapSize - hk) / MAX_BLOCK_SIZE <= (hk / 2) / 16
    ensures Inv(InitHeap(heapStart, heapSize, hk))
  {
    var h := InitHeap(heapStart, heapSize, hk);
    var l := InitLays(heapStart, heapSize, hk);
    TotalFreeTop(h.bins, 0);
    assert h.bins[BINS_MAX_ORDER - 1] == InitBlocks(heapStart + hk, (heapSize - hk) / MAX_BLOCK_SIZE);
  }

  lemma {:induction false} TotalFreeTop(bins: seq<seq<int>>, b: nat)
    requires |bins| == BINS_MAX_ORDER && b < BINS_MAX_ORDER && forall i :: b <= i < BINS_MAX_ORDER - 1 ==> bins[i] == []
    ensures TotalFree(bins, b) == |bins[BINS_MAX_ORDER - 1]|
    decreases BINS_MAX_ORDER - b
  {
    if b < BINS_MAX_ORDER - 1 { TotalFreeTop(bins, b + 1); }
  }

  // ----- what the tiling says about blocks and bytes

  /** Every byte of the memory lies in exactly one block. */
  lemma {:induction false} EveryByteOnce(l: seq<Blk>, s: int, e: int, x: int) returns (k: nat)
    requires Chain(l, s, e) && s <= x < e
    ensures k < |l| && l[k].addr <= x < End(l[k])
    ensures forall i :: 0 <= i < |l| && i != k ==> !(l[i].addr <= x < End(l[i]))
  {
    if x < End(l[0]) {
      k := 0;
      forall i | 0 < i < |l| ensures x < l[i].addr { ChainAt(l, s, e, 0, i); }
    } else {
      var j := EveryByteOnce(l[1..], End(l[0]), e, x);
      k := j + 1;
      forall i | 0 < i < |l| && i != k ensures !(l[i].addr <= x < End(l[i])) {
        assert l[i] == l[1..][i - 1];
      }
    }
  }

  lemma {:induction false} OccTwice(l: seq<Blk>, x: Blk) returns (i: nat, j: nat)
    requires Occ(l, x) >= 2
    ensures i < j < |l| && l[i] == x == l[j]
  {
    if l[0] == x {
      i := 0;
      j := OccFind(l[1..], x);
    } else {
      i, j := OccTwice(l[1..], x);
      i := i + 1;
    }
    j := j + 1;
  }

  /** Two blocks that are free, live or lost, in whatever lists, do not overlap, and no block
      is listed twice; all lie in the memory at multiples of the least block size. */
  lemma BlocksDisjoint(h: Heap, x: Blk, y: Blk)
    requires Tiled(h) && Count(h, x) > 0 && Count(h, y) > 0
    ensures Count(h, x) == 1
    ensures x == y || End(x) <= y.addr || End(y) <= x.addr
    ensures h.memStart <= x.addr && End(x) <= h.memStart + h.memSize && (x.addr - h.memStart) % MIN_BLOCK_SIZE == 0
  {
    var l: seq<Blk> :| Lays(h, l);
    var e := h.memStart + h.memSize;
    assert Occ(l, x) == Count(h, x) && Occ(l, y) == Count(h, y);
    if Count(h, x) >= 2 {
      var i, j := OccTwice(l, x);
      ChainAt(l, h.memStart, e, i, j);
    }
    var i := OccFind(l, x);
    var j := OccFind(l, y);
    ChainAt(l, h.memStart, e, i, i);
    if i < j { ChainAt(l, h.memStart, e, i, j); } else if j < i { ChainAt(l, h.memStart, e, j, i); }
  }

  // ----- pools as large as the memory has least blocks never run out

  function Flat(bins: seq<seq<int>>, b: nat := 0): seq<Blk>
    requires b <= |bins|
    decreases |bins| - b
  {
    if b == |bins| then [] else seq(|bins[b]|, i requires 0 <= i < |bins[b]| => Blk(bins[b][i], b)) + Flat(bins, b + 1)
  }

  lemma {:induction false} TaggedOcc(bin: seq<int>, b: nat, x: Blk)
    ensures Occ(seq(|bin|, i requires 0 <= i < |bin| => Blk(bin[i], b)), x)
         == if x.bin == b then Occ(bin, x.addr) else 0
  {
    var s := seq(|bin|, i requires 0 <= i < |bin| => Blk(bin[i], b));
    if bin != [] {
      var t := bin[1..];
      TaggedOcc(t, b, x);
      assert s[1..] == seq(|t|, i requires 0 <= i < |t| => Blk(t[i], b));
    }
  }

  lemma {:induction false} FlatOcc(bins: seq<seq<int>>, b: nat, x: Blk)
    requires b <= |bins|
    ensures |Flat(bins, b)| == TotalFree(bins, b)
    ensures Occ(Flat(bins, b), x) == if x.bin >= b then FreeCount(bins, x) else 0
    decreases |bins| - b
  {
    if b < |bins| {
      FlatOcc(bins, b + 1, x);
      TaggedOcc(bins[b], b, x);
      OccConcat(seq(|bins[b]|, i requires 0 <= i < |bins[b]| => Blk(bins[b][i], b)), Flat(bins, b + 1), x);
    }
  }

  lemma {:induction false} FewerOccShorter<T>(s: seq<T>, t: seq<T>)
    requires forall x :: Occ(s, x) <= Occ(t, x)
    ensures |s| <= |t|
    decreases |s|
  {
    if s != [] {
      assert 0 < Occ(s, s[0]) <= Occ(t, s[0]);
      var k := OccFind(t, s[0]);
      var t' := t[..k] + t[k + 1..];
      forall x ensures Occ(s[1..], x) <= Occ(t', x) {
        OccAt(t, k, x);
        assert Occ(s, x) <= Occ(t, x);
      }
      FewerOccShorter(s[1..], t');
    }
  }

  lemma LayoutLength(h: Heap, l: seq<Blk>)
    requires Lays(h, l)
    ensures |l| == NodesUsed(h) + |h.live| + |h.dropped|
  {
    var live := LiveBlocks(h.live);
    var all := Flat(h.bins) + (live + (h.orphans + h.dropped));
    forall x ensures Occ(l, x) == Occ(all, x) {
      assert Occ(l, x) == Count(h, x);
      FlatOcc(h.bins, 0, x);
      OccConcat(Flat(h.bins), live + (h.orphans + h.dropped), x);
      OccConcat(live, h.orphans + h.dropped, x);
      OccConcat(h.orphans, h.dropped, x);
    }
    FlatOcc(h.bins, 0, Blk(0, 0));
    FewerOccShorter(l, all);
    FewerOccShorter(all, l);
  }

  lemma {:induction false} ChainRoom(l: seq<Blk>, s: int, e: int, k: nat)
    requires Chain(l, s, e) && k < |l|
    ensures s + MIN_BLOCK_SIZE * (|l| - 1) + BlkSize(l[k].bin) <= e
  {
    if k == 0 {
      ChainEnd(l[1..], End(l[0]), e);
    } else {
      ChainRoom(l[1..], End(l[0]), e, k - 1);
    }
  }

  /** The splits a request needs are no more than the least blocks it leaves room for. */
  lemma RoomForSplits(h: Heap, l: seq<Blk>, j: nat)
    requires Shape(h) && Lays(h, l) && j < BINS_MAX_ORDER && h.bins[j] != []
    ensures MIN_BLOCK_SIZE * (|l| + j) <= h.memSize
    ensures |l| > |h.live|
  {
    var x := Blk(Last(h.bins[j]), j);
    OccAt(h.bins[j], |h.bins[j]| - 1, x.addr);
    assert Occ(l, x) == Count(h, x);
    var k := OccFind(l, x);
    ChainRoom(l, h.memStart, h.memStart + h.memSize, k);
    BlkSizeMonotone(0, j);
    LayoutLength(h, l);
    BinInTotal(h.bins, j, 0);
  }

  lemma {:induction false} BinInTotal(bins: seq<seq<int>>, j: nat, b: nat)
    requires b <= j < |bins|
    ensures |bins[j]| <= TotalFree(bins, b)
    decreases j - b
  {
    if b < j { BinInTotal(bins, j, b + 1); }
  }

  predicate PoolsCoverMemory(h: Heap) {
    h.memSize <= MIN_BLOCK_SIZE * h.fnCap && h.memSize <= MIN_BLOCK_SIZE * h.anCap
  }

  /** If both pools have a node for each least block of the memory, then a request either finds
      no block large enough or is served, and a live block can always be taken back: no node
      is ever missing, in the middle of a split or of a free either. */
  lemma PoolsSuffice(h: Heap, size: nat)
    requires Inv(h) && PoolsCoverMemory(h) && size <= MAX_BLOCK_SIZE
    ensures LeastBin(h.bins, Order(size)) == BINS_MAX_ORDER || (CanServe(h, Order(size)) && |h.live| < h.anCap)
    ensures h.live != [] ==> NodesUsed(h) < h.fnCap
  {
    var l: seq<Blk> :| Lays(h, l);
    LayoutLength(h, l);
    ChainEnd(l, h.memStart, h.memStart + h.memSize);
    var j := LeastBin(h.bins, Order(size));
    if j < BINS_MAX_ORDER { RoomForSplits(h, l, j); }
  }

  lemma StepLosesNothing(h: Heap, op: Op)
    requires Inv(h) && PoolsCoverMemory(h) && OpOk(op) && LostBlocks(h) == []
    ensures LostBlocks(Step(h, op)) == [] && PoolsCoverMemory(Step(h, op))
  {
    match op {
      case Malloc(size) =>
        PoolsSuffice(h, size);
        MallocLosesNothingIff(h, size);
        MallocFromBounds(h, size, 0, MIN_BLOCK_SIZE);
      case Free(addr) =>
        PoolsSuffice(h, 0);
        FreeLosesNothingIff(h, addr);
    }
  }

  /** With such pools no run ever loses memory. */
  lemma {:induction false} NothingLostInAnyRun(h: Heap, ops: seq<Op>)
    requires Inv(h) && PoolsCoverMemory(h) && LostBlocks(h) == []
    requires forall i :: 0 <= i < |ops| ==> OpOk(ops[i])
    ensures LostBlocks(Run(h, ops)) == []
    decreases |ops|
  {
    if ops != [] {
      StepLosesNothing(h, ops[0]);
      NothingLostInAnyRun(Step(h, ops[0]), ops[1..]);
    }
  }

  // ----- the shipped configuration does lose memory

  const HEAP_SIZE: nat := 65536
  const HK_SIZE: nat := 16384   // 25 percent of HEAP_SIZE

  /** The state after `n` requests of one byte each, as long as there are live nodes. */
  ghost predicate AfterSmallMallocs(h: Heap, n: nat) {
    && Inv(h) && |h.live| == n && LostBlocks(h) == []
    && h.fnCap == 512 && h.anCap == 341 && h.memSize == HEAP_SIZE - HK_SIZE
    && (forall i :: 0 <= i < n ==> h.live[i].bin == 0)
    && (forall b :: 0 <= b < BINS_MAX_ORDER - 1 ==> |h.bins[b]| <= 1)
    && |h.bins[BINS_MAX_ORDER - 1]| <= 12
  }

  lemma SmallMallocsStart(heapStart: int)
    ensures AfterSmallMallocs(InitHeap(heapStart, HEAP_SIZE, HK_SIZE), 0)
  {
    var h := InitHeap(heapStart, HEAP_SIZE, HK_SIZE);
    InitInv(heapStart, HEAP_SIZE, HK_SIZE);
    assert h.bins[BINS_MAX_ORDER - 1] == InitBlocks(heapStart + HK_SIZE, 12);
  }

  /** While live blocks of the least size fill less than the memory, some bin has a block. */
  lemma SmallMallocsFindBlock(h: Heap, n: nat)
    requires AfterSmallMallocs(h, n) && n <= 341
    ensures LeastBin(h.bins, 0) < BINS_MAX_ORDER
  {
    var l: seq<Blk> :| Lays(h, l);
    LayoutLength(h, l);
    if LeastBin(h.bins, 0) == BINS_MAX_ORDER {
      TotalFreeTop(h.bins, 0);
      forall k | 0 <= k < |l| ensures l[k].bin == 0 {
        assert Occ(l, l[k]) == Count(h, l[k]);
        OccAt(l, k, l[k]);
        var i := OccFind(LiveBlocks(h.live), l[k]);
      }
      ChainOfLeast(l, h.memStart, h.memStart + h.memSize);
      assert false;
    }
  }

  lemma {:induction false} ChainOfLeast(l: seq<Blk>, s: int, e: int)
    requires Chain(l, s, e) && forall k :: 0 <= k < |l| ==> l[k].bin == 0
    ensures e == s + MIN_BLOCK_SIZE * |l|
  {
    if l != [] { ChainOfLeast(l[1..], End(l[0]), e); }
  }

  lemma FewNodesUsed(h: Heap, n: nat)
    requires AfterSmallMallocs(h, n)
    ensures NodesUsed(h) <= 22
  {
    TotalFreeAtMost(h.bins, 0);
  }

  lemma {:induction false} TotalFreeAtMost(bins: seq<seq<int>>, b: nat)
    requires |bins| == BINS_MAX_ORDER && b < BINS_MAX_ORDER
    requires forall i :: b <= i < BINS_MAX_ORDER - 1 ==> |bins[i]| <= 1
    ensures TotalFree(bins, b) <= (BINS_MAX_ORDER - 1 - b) + |bins[BINS_MAX_ORDER - 1]|
    decreases BINS_MAX_ORDER - b
  {
    if b < BINS_MAX_ORDER - 1 { TotalFreeAtMost(bins, b + 1); }
  }

  lemma SmallMallocStep(h: Heap, n: nat)
    requires AfterSmallMallocs(h, n) && n < 341
    ensures AfterSmallMallocs(Step(h, Malloc(1)), n + 1)
  {
    SmallMallocsFindBlock(h, n);
    FewNodesUsed(h, n);
    var j := LeastBin(h.bins, 0);
    assert Order(1) == 0;
    MallocServes(h, 1, 0, j);
    var g := Step(h, Malloc(1));
    forall b | 0 <= b < BINS_MAX_ORDER ensures |g.bins[b]| <= if b < BINS_MAX_ORDER - 1 then 1 else 12 {
      assert g.bins[b] == KeptBin(h.bins, 0, j, b);
    }
  }

  /** `n` requests of one byte. */
  function OneByteRequests(n: nat): (ops: seq<Op>)
    ensures forall i :: 0 <= i < |ops| ==> OpOk(ops[i])
  {
    if n == 0 then [] else OneByteRequests(n - 1) + [Malloc(1)]
  }

  lemma {:induction false} SmallMallocs(h: Heap, n: nat)
    requires AfterSmallMallocs(h, 0) && n <= 341
    ensures AfterSmallMallocs(Run(h, OneByteRequests(n)), n)
  {
    if n > 0 {
      SmallMallocs(h, n - 1);
      SmallMallocStep(Run(h, OneByteRequests(n - 1)), n - 1);
      RunSnoc(h, OneByteRequests(n - 1), Malloc(1));
    }
  }

  lemma {:induction false} RunSnoc(h: Heap, ops: seq<Op>, op: Op)
    requires Inv(h) && OpOk(op) && forall i :: 0 <= i < |ops| ==> OpOk(ops[i])
    ensures (forall i :: 0 <= i < |ops + [op]| ==> OpOk((ops + [op])[i])) && Run(h, ops + [op]) == Step(Run(h, ops), op)
    decreases |ops|
  {
    if ops == [] {
      assert [op][1..] == [];
    } else {
      assert (ops + [op])[1..] == ops[1..] + [op];
      RunSnoc(Step(h, ops[0]), ops[1..], op);
    }
  }

  lemma FullPoolLoses(h: Heap)
    requires AfterSmallMallocs(h, 341)
    ensures BuddySpec.Malloc(h, 1).0 == None && |BuddySpec.Malloc(h, 1).1.orphans| == 1
  {
    SmallMallocsFindBlock(h, 341);
    FewNodesUsed(h, 341);
    assert Order(1) == 0;
    GetBlockServes(h, 0);
    GetBlockBounds(h, 0);
  }

  /** With the shipped sizes, the 342nd request of one byte returns NULL and loses a block,
      although all but 1364 of the 49152 bytes are still free. */
  lemma ShippedPoolsLoseMemory(heapStart: int)
    ensures var h0 := InitHeap(heapStart, HEAP_SIZE, HK_SIZE);
      && Inv(h0)
      && var h := Run(h0, OneByteRequests(341));
        && |h.live| == 341 && LostBlocks(h) == []
        && BuddySpec.Malloc(h, 1).0 == None && |BuddySpec.Malloc(h, 1).1.orphans| == 1
  {
    var h0 := InitHeap(heapStart, HEAP_SIZE, HK_SIZE);
    SmallMallocsStart(heapStart);
    SmallMallocs(h0, 341);
    FullPoolLoses(Run(h0, OneByteRequests(341)));
  }
}
