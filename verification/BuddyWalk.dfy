/** Exactly when sw_buddy_malloc returns a block, also when free nodes are short: a failed attempt at
    one bin loses a block and the next bin is tried. */
module BuddyWalk {
  import opened Wrappers
  import opened BuddySpec
  import opened BuddyRuns

  /** How many blocks the bins from `i` up to, not including, `e` hold. */
  function Blocks(bins: seq<seq<int>>, i: nat, e: nat): (n: nat)
    requires i <= e <= |bins|
  {
    if i == e then 0 else Blocks(bins, i, e - 1) + |bins[e - 1]|
  }

  lemma {:induction false} BlocksFrom(bins: seq<seq<int>>, i: nat, e: nat)
    requires i < e <= |bins|
    ensures Blocks(bins, i, e) == |bins[i]| + Blocks(bins, i + 1, e)
  {
    if i + 1 < e { BlocksFrom(bins, i, e - 1); }
  }

  lemma {:induction false} BlocksNone(bins: seq<seq<int>>, i: nat, e: nat)
    requires i <= e <= |bins| && forall b :: i <= b < e ==> bins[b] == []
    ensures Blocks(bins, i, e) == 0
  {
    if i < e { BlocksNone(bins, i, e - 1); }
  }

  /** Some stretch of bins from `i` on, ending behind `j`, holds as many blocks as it has bins, `p` spare
      nodes counting as blocks. */
  predicate Enough(bins: seq<seq<int>>, i: nat, j: nat, p: nat) {
    exists e :: i < e <= |bins| && j < e && Blocks(bins, i, e) + p >= e - i
  }

  // ----- the walk once every free node is in use

  /** The heap after a failed attempt with no node to spare: the last block of bin `j` is lost. */
  function Robbed(h: Heap, j: nat): (g: Heap)
    requires Shape(h) && j < BINS_MAX_ORDER && h.bins[j] != []
    ensures Shape(g)
  {
    var s := h.bins[j];
    h.(bins := h.bins[j := s[..|s| - 1]], orphans := h.orphans + [Blk(Last(s), j)])
  }

  lemma RobbedNodes(h: Heap, j: nat)
    requires Shape(h) && j < BINS_MAX_ORDER && h.bins[j] != []
    ensures NodesUsed(Robbed(h, j)) == NodesUsed(h)
  {
    TotalFreeUpdate(h.bins, j, h.bins[j][..|h.bins[j]| - 1]);
  }

  /** With no node to spare a block is taken from its own bin or lost. */
  lemma {:induction false} FullGetBlock(h: Heap, idx: nat)
    requires Shape(h) && idx < BINS_MAX_ORDER && NodesUsed(h) == h.fnCap
    ensures var j, r := LeastBin(h.bins, idx), GetBlock(h, idx);
      if j == idx then r.0.Some? && r.1.live == h.live && r.1.anCap == h.anCap
      else if j == BINS_MAX_ORDER then r == (None, h)
      else r == (None, Robbed(h, j))
    decreases BINS_MAX_ORDER - idx
  {
    var j := LeastBin(h.bins, idx);
    if j == BINS_MAX_ORDER {
      GetBlockFails(h, idx);
    } else if j > idx {
      var r := GetBlock(h, idx + 1);
      if j == idx + 1 {
        TotalFreeUpdate(h.bins, j, h.bins[j][..|h.bins[j]| - 1]);
        assert NodesUsed(r.1) + 1 == h.fnCap;
      } else {
        FullGetBlock(h, idx + 1);
      }
    }
  }

  /** Taking one block from the least non-empty bin above `i` takes one off every count behind it. */
  lemma RobbedEnough(bins: seq<seq<int>>, i: nat, j: nat, e: nat)
    requires i < j < |bins| && bins[j] != [] && i < e <= |bins| && forall b :: i <= b < j ==> bins[b] == []
    ensures var r := bins[j := bins[j][..|bins[j]| - 1]];
      Blocks(r, i + 1, e) == Blocks(bins, i, e) - if j < e then 1 else 0
  {
    BlocksFrom(bins, i, e);
    BlocksUpdate(bins, i + 1, e, j, bins[j][..|bins[j]| - 1]);
  }

  lemma {:induction false} BlocksUpdate(bins: seq<seq<int>>, i: nat, e: nat, j: nat, s: seq<int>)
    requires i <= j < |bins| && i <= e <= |bins|
    ensures Blocks(bins[j := s], i, e) == Blocks(bins, i, e) + if j < e then |s| - |bins[j]| else 0
  {
    if i < e { BlocksUpdate(bins, i, e - 1, j, s); }
  }

  /** The walk finds a block if and only if some stretch of bins from here holds as many blocks as it
      has bins: each step up loses one block, of the least bin that has any. */
  lemma {:induction false} FullWalk(h: Heap, size: nat, idx: nat, curr: nat)
    requires Shape(h) && idx <= BINS_MAX_ORDER && size <= curr && NodesUsed(h) == h.fnCap
    ensures MallocFrom(h, size, idx, curr).0.Some? <==> |h.live| < h.anCap && Enough(h.bins, idx, idx, 0)
    decreases BINS_MAX_ORDER - idx
  {
    if idx == BINS_MAX_ORDER {
      assert GetBlock(h, idx) == (None, h);
      assert MallocFrom(h, size, idx + 1, curr) == (None, h);
    } else {
      var j := LeastBin(h.bins, idx);
      FullGetBlock(h, idx);
      if j == idx {
        assert Blocks(h.bins, idx, idx + 1) == Blocks(h.bins, idx, idx) + |h.bins[idx]|;
      } else if j == BINS_MAX_ORDER {
        NothingAbove(h, size, idx, curr);
        forall e | idx < e <= BINS_MAX_ORDER ensures Blocks(h.bins, idx, e) == 0 { BlocksNone(h.bins, idx, e); }
      } else {
        RobbedNodes(h, j);
        FullWalk(Robbed(h, j), size, idx + 1, curr);
        WalkOn(h.bins, idx, j);
      }
    }
  }

  lemma WalkOn(bins: seq<seq<int>>, i: nat, j: nat)
    requires i < j < |bins| && bins[j] != [] && forall b :: i <= b < j ==> bins[b] == []
    ensures var r := bins[j := bins[j][..|bins[j]| - 1]]; Enough(r, i + 1, i + 1, 0) <==> Enough(bins, i, i, 0)
  {
    var r := bins[j := bins[j][..|bins[j]| - 1]];
    if Enough(bins, i, i, 0) {
      var e :| i < e <= |bins| && i < e && Blocks(bins, i, e) + 0 >= e - i;
      if e <= j { BlocksNone(bins, i, e); }
      RobbedEnough(bins, i, j, e);
    }
    if Enough(r, i + 1, i + 1, 0) {
      var e :| i + 1 < e <= |r| && i + 1 < e && Blocks(r, i + 1, e) + 0 >= e - (i + 1);
      RobbedEnough(bins, i, j, e);
      if e <= j { BlocksNone(bins, i, e); }
    }
  }

  // ----- the first attempt, with some nodes to spare

  /** The heap after an attempt that ran out of nodes on the way down from bin `j`, `p` splits later. */
  function Stranded(h: Heap, j: nat, p: nat): (g: Heap)
    requires Shape(h) && p <= j < BINS_MAX_ORDER && GetBlock(h, j - p).0.Some?
    ensures Shape(g)
  {
    var r := GetBlock(h, j - p);
    r.1.(orphans := r.1.orphans + [Blk(r.0.value, j - p)])
  }

  /** With fewer nodes to spare than splits to make, the block left after the last node is lost. */
  lemma {:induction false} ShortGetBlock(h: Heap, idx: nat, j: nat, p: nat)
    requires Shape(h) && idx < BINS_MAX_ORDER && j == LeastBin(h.bins, idx) < BINS_MAX_ORDER
    requires NodesUsed(h) + p == h.fnCap && p < j - idx
    ensures GetBlock(h, j - p).0.Some? && GetBlock(h, idx) == (None, Stranded(h, j, p))
    decreases BINS_MAX_ORDER - idx
  {
    if idx == j - p - 1 {
      assert LeastBin(h.bins, j - p) == j && CanServe(h, j - p);
      GetBlockServes(h, j - p);
      GetBlockBounds(h, j - p);
    } else {
      assert LeastBin(h.bins, idx + 1) == j;
      ShortGetBlock(h, idx + 1, j, p);
    }
  }

  lemma StrandedHeap(h: Heap, j: nat, p: nat, b: nat)
    requires Shape(h) && p <= j < BINS_MAX_ORDER && j == LeastBin(h.bins, j - p) && NodesUsed(h) + p == h.fnCap
    requires b < BINS_MAX_ORDER
    ensures GetBlock(h, j - p).0.Some?
    ensures var g := Stranded(h, j, p);
      NodesUsed(g) == g.fnCap && g.live == h.live && g.anCap == h.anCap && g.bins[b] == KeptBin(h.bins, j - p, j, b)
  {
    GetBlockServes(h, j - p);
    GetBlockBounds(h, j - p);
    GetBlockKeeps(h, j - p, j, b);
  }

  /** What the bins hold then: one low half for each split made, one block less in bin `j`. */
  lemma {:induction false} StrandedBlocks(bins: seq<seq<int>>, r: seq<seq<int>>, o: nat, j: nat, p: nat, e: nat)
    requires |r| == |bins| && o < j - p <= j < |bins| && bins[j] != [] && o < e <= |bins|
    requires forall b :: o <= b < j ==> bins[b] == []
    requires forall b :: 0 <= b < |bins| ==> r[b] == KeptBin(bins, j - p, j, b)
    ensures Blocks(r, o + 1, e) == if e <= j - p then 0 else if e <= j then e - (j - p) else p + Blocks(bins, o, e) - 1
    decreases e
  {
    if e <= o + 1 {
      BlocksNone(bins, o, e);
    } else {
      StrandedBlocks(bins, r, o, j, p, e - 1);
      assert r[e - 1] == KeptBin(bins, j - p, j, e - 1);
      if e - 1 == j { BlocksNone(bins, o, e - 1); }
    }
  }

  /** A block will be found for bin `o`: there is one, and either the nodes suffice up to one split, whose
      loss the next bin makes up for, or the bins from `o` on hold enough. */
  predicate Serves(h: Heap, o: nat)
    requires Shape(h) && o < BINS_MAX_ORDER && NodesUsed(h) <= h.fnCap
  {
    var j, p := LeastBin(h.bins, o), h.fnCap - NodesUsed(h);
    j < BINS_MAX_ORDER && ((p > 0 && j - o <= p + 1) || Enough(h.bins, o, j, p))
  }

  lemma StrandedEnough(bins: seq<seq<int>>, r: seq<seq<int>>, o: nat, j: nat, p: nat)
    requires |r| == |bins| && o < j - p <= j < |bins| && bins[j] != []
    requires forall b :: o <= b < j ==> bins[b] == []
    requires forall b :: 0 <= b < |bins| ==> r[b] == KeptBin(bins, j - p, j, b)
    ensures Enough(r, o + 1, o + 1, 0) <==> (p > 0 && j - o <= p + 1) || Enough(bins, o, j, p)
  {
    if Enough(r, o + 1, o + 1, 0) {
      var e :| o + 1 < e <= |r| && o + 1 < e && Blocks(r, o + 1, e) + 0 >= e - (o + 1);
      StrandedBlocks(bins, r, o, j, p, e);
    }
    if p > 0 && j - o <= p + 1 { StrandedBlocks(bins, r, o, j, p, j); }
    if Enough(bins, o, j, p) {
      var e :| o < e <= |bins| && j < e && Blocks(bins, o, e) + p >= e - o;
      StrandedBlocks(bins, r, o, j, p, e);
    }
  }

  /** sw_buddy_malloc returns a block if and only if a node for live blocks is left and a block will be
      found, which can be read off the state before the call. */
  lemma MallocSucceedsIff(h: Heap, size: nat)
    requires Shape(h) && NodesUsed(h) <= h.fnCap && |h.live| <= h.anCap && size <= MAX_BLOCK_SIZE
    ensures BuddySpec.Malloc(h, size).0.Some? <==> |h.live| < h.anCap && Serves(h, Order(size))
  {
    var o := Order(size);
    var j, p := LeastBin(h.bins, o), h.fnCap - NodesUsed(h);
    MallocStartsAt(h, size);
    if j == BINS_MAX_ORDER {
      NothingAbove(h, size, o, BlkSize(o));
    } else if p >= j - o {
      GetBlockServes(h, o);
      GetBlockBounds(h, o);
      assert Blocks(h.bins, o, o + 1) == Blocks(h.bins, o, o) + |h.bins[o]|;
    } else {
      ShortGetBlock(h, o, j, p);
      var g := Stranded(h, j, p);
      assert LeastBin(h.bins, j - p) == j;
      forall b | 0 <= b < BINS_MAX_ORDER ensures g.bins[b] == KeptBin(h.bins, j - p, j, b) { StrandedHeap(h, j, p, b); }
      StrandedHeap(h, j, p, 0);
      FullWalk(g, size, o + 1, BlkSize(o));
      StrandedEnough(h.bins, g.bins, o, j, p);
    }
  }
}
