/** The allocator of sw_buddy.c for one heap, on node arrays updated in place.  Every routine is
    proved to compute its function in BuddySpec.  A pointer to a node is its index, -1 is NULL. */
module BuddyHeap {
  import opened Wrappers
  import opened BuddySpec
  import opened BuddyNodes
  import BuddyRuns
  import BuddyTiling

  const OTZ_EFAIL := -1

  predicate IsPowTwo(x: nat) { x != 0 && (x == 1 || (x % 2 == 0 && IsPowTwo(x / 2))) }

  class SwHeap {
    var hkFn: array<int>          // map fields of the free nodes
    var hkAn: array<AcNode>
    var freeArea: array<Bin>
    var current: seq<nat>         // list of live nodes
    var memStart: int
    var memSize: nat
    var heapSize: nat
    ghost var owner: seq<Owner>
    ghost var orphans: seq<(nat, nat)>
    ghost var dropped: seq<Blk>

    ghost function S(): State
      reads this, hkFn, hkAn, freeArea
    {
      State(memStart, memSize, heapSize, hkFn[..], hkAn[..], freeArea[..], current, owner, orphans, dropped)
    }

    /** Consistent, with `held` free nodes in a caller's hand. */
    ghost predicate ValidWith(held: nat)
      reads this, hkFn, hkAn, freeArea
    {
      Ok(S(), held) && CountsOk(freeArea[..], 0, 0)
    }

    ghost predicate Valid()
      reads this, hkFn, hkAn, freeArea
    {
      ValidWith(0)
    }

    ghost predicate InHand(node: int)
      reads this, hkFn
    {
      0 <= node < hkFn.Length == |owner| && owner[node] == Held
    }

    // ----- node pools

    method GetFreeHkNode() returns (node: int)
      ensures node == -1 ==> forall n :: 0 <= n < hkFn.Length ==> hkFn[n] != 0
      ensures node != -1 ==> 0 <= node < hkFn.Length && hkFn[node] == 0 && forall n :: 0 <= n < node ==> hkFn[n] != 0
    {
      node := 0;
      while node < hkFn.Length
        invariant 0 <= node <= hkFn.Length
        invariant forall n :: 0 <= n < node ==> hkFn[n] != 0
      {
        if hkFn[node] == 0 { return; }
        node := node + 1;
      }
      node := -1;
    }

    method GetFreeAcNode() returns (node: int)
      ensures node == -1 ==> forall n :: 0 <= n < hkAn.Length ==> hkAn[n].addr != 0
      ensures node != -1 ==> 0 <= node < hkAn.Length && hkAn[node].addr == 0
      ensures node != -1 ==> forall n :: 0 <= n < node ==> hkAn[n].addr != 0
    {
      node := 0;
      while node < hkAn.Length
        invariant 0 <= node <= hkAn.Length
        invariant forall n :: 0 <= n < node ==> hkAn[n].addr != 0
      {
        if hkAn[node].addr == 0 { return; }
        node := node + 1;
      }
      node := -1;
    }

    // ----- single list and node updates

    /** Links a node in hand into bin `b` after its first `k` nodes and counts it. */
    method LinkAt(node: nat, b: nat, k: nat, ghost held: nat, ghost off: nat, ghost d: int)
      requires Ok(S(), held) && held > 0 && InHand(node) && CountsOk(freeArea[..], off, d)
      requires b < freeArea.Length && k <= |freeArea[b].nodes|
      modifies `owner, freeArea
      ensures Ok(S(), held - 1) && CountsOk(freeArea[..], off, d)
      ensures var bin := old(Abs(S())).bins[b];
        Abs(S()) == old(Abs(S())).(bins := old(Abs(S())).bins[b := bin[..k] + [hkFn[node]] + bin[k..]])
      ensures owner == old(owner)[node := InBin(b)]
      ensures forall c :: 0 <= c < freeArea.Length && c != b ==> freeArea[c] == old(freeArea[c])
    {
      ghost var t := LinkNode(S(), held, node, b, k, freeArea[b].count + 1);
      freeArea[b] := Bin(freeArea[b].nodes[..k] + [node] + freeArea[b].nodes[k..], freeArea[b].count + 1);
      owner := owner[node := InBin(b)];
      assert S() == t;
    }

    /** list_del of the `k`th node of bin `b`; the count is left to the caller. */
    method UnlinkAt(b: nat, k: nat, ghost held: nat, ghost d: int) returns (node: nat)
      requires Ok(S(), held) && CountsOk(freeArea[..], b, d)
      requires b < freeArea.Length && k < |freeArea[b].nodes|
      modifies `owner, freeArea
      ensures node == old(freeArea[b].nodes[k]) && InHand(node) && hkFn[node] == old(Abs(S())).bins[b][k]
      ensures Ok(S(), held + 1) && CountsOk(freeArea[..], b, d + 1)
      ensures var bin := old(Abs(S())).bins[b];
        Abs(S()) == old(Abs(S())).(bins := old(Abs(S())).bins[b := bin[..k] + bin[k + 1..]])
      ensures freeArea[b].nodes == old(freeArea[b].nodes[..k] + freeArea[b].nodes[k + 1..])
      ensures owner == old(owner)[node := Held]
    {
      ghost var t := UnlinkNode(S(), held, b, k, freeArea[b].count);
      node := freeArea[b].nodes[k];
      freeArea[b] := Bin(freeArea[b].nodes[..k] + freeArea[b].nodes[k + 1..], freeArea[b].count);
      owner := owner[node := Held];
      assert S() == t;
    }

    method Uncount(b: nat, n: int, ghost held: nat)
      requires Ok(S(), held) && CountsOk(freeArea[..], b, n) && b < freeArea.Length
      modifies freeArea
      ensures Ok(S(), held) && CountsOk(freeArea[..], 0, 0) && Abs(S()) == old(Abs(S()))
      ensures freeArea[b].nodes == old(freeArea[b].nodes)
    {
      SetCount(S(), held, b, freeArea[b].count - n);
      freeArea[b] := Bin(freeArea[b].nodes, freeArea[b].count - n);
    }

    method UseNode(node: nat, v: int, ghost held: nat)
      requires Ok(S(), held) && node < hkFn.Length && hkFn[node] == 0 && v > 0
      modifies `owner, hkFn
      ensures Ok(S(), held + 1) && InHand(node) && hkFn[node] == v && Abs(S()) == old(Abs(S()))
    {
      ghost var t := TakeNode(S(), held, node, v);
      hkFn[node] := v;
      owner := owner[node := Held];
      assert S() == t;
    }

    method ClearNode(node: nat, ghost held: nat)
      requires Ok(S(), held) && held > 0 && InHand(node)
      modifies `owner, hkFn
      ensures Ok(S(), held - 1) && Abs(S()) == old(Abs(S())) && owner == old(owner)[node := Unused]
      ensures forall n :: 0 <= n < hkFn.Length && n != node ==> hkFn[n] == old(hkFn[n])
    {
      ghost var t := ReleaseNode(S(), held, node);
      hkFn[node] := 0;
      owner := owner[node := Unused];
      assert S() == t;
    }

    ghost method LoseNode(node: nat, b: nat)
      requires Ok(S(), 1) && InHand(node)
      modifies `owner, `orphans
      ensures Ok(S(), 0)
      ensures Abs(S()) == old(Abs(S())).(orphans := old(Abs(S())).orphans + [Blk(hkFn[node], b)])
    {
      var t := OrphanNode(S(), 1, node, b);
      orphans := orphans + [(node, b)];
      owner := owner[node := Orphaned];
      assert S() == t;
    }

    // ----- buddy_get_block

    method PopTail(idx: nat) returns (node: nat)
      requires Valid() && idx < freeArea.Length && freeArea[idx].nodes != []
      modifies `owner, freeArea
      ensures InHand(node) && ValidWith(1)
      ensures (Some(hkFn[node]), Abs(S())) == GetBlock(old(Abs(S())), idx)
    {
      ghost var bin := Abs(S()).bins[idx];
      var last := |freeArea[idx].nodes| - 1;
      SameCounts(freeArea[..], idx);
      node := UnlinkAt(idx, last, 0, 0);
      Uncount(idx, 1, 1);
      assert bin[..last] + bin[last + 1..] == bin[..last];
    }

    method Halve(farea: nat, idx: nat) returns (node: int)
      requires ValidWith(1) && InHand(farea) && idx < BINS_MAX_ORDER
      modifies `owner, `orphans, hkFn, freeArea
      ensures node == -1 || InHand(node)
      ensures ValidWith(if node == -1 then 0 else 1)
      ensures node == -1 ==> SplitBlock(old(Abs(S())), idx, old(hkFn[farea])) == (None, Abs(S()))
      ensures node != -1 ==> SplitBlock(old(Abs(S())), idx, old(hkFn[farea])) == (Some(hkFn[node]), Abs(S()))
    {
      ghost var g, a := Abs(S()), hkFn[farea];
      node := GetFreeHkNode();
      FreeNodeIff(S(), 1);
      if node != -1 {
        LinkAt(farea, idx, |freeArea[idx].nodes|, 1, 0, 0);
        AppendAsInsert(g.bins[idx], a);
        assert Abs(S()) == g.(bins := g.bins[idx := g.bins[idx] + [a]]);
        UseNode(node, hkFn[farea] + BlkSize(idx), 0);
      } else {
        LoseNode(farea, idx + 1);
      }
    }

    method BuddyGetBlock(idx: nat) returns (node: int)
      requires Valid()
      modifies `owner, `orphans, hkFn, freeArea
      ensures node == -1 || InHand(node)
      ensures ValidWith(if node == -1 then 0 else 1)
      ensures GetBlock(old(Abs(S())), idx) == (if node == -1 then None else Some(hkFn[node]), Abs(S()))
      decreases BINS_MAX_ORDER - idx
    {
      if idx >= BINS_MAX_ORDER {
        return -1;
      }
      assert |Abs(S()).bins[idx]| == |freeArea[idx].nodes|;
      if freeArea[idx].nodes == [] {
        node := BuddyGetBlock(idx + 1);
        if node != -1 { node := Halve(node, idx); }
      } else {
        node := PopTail(idx);
      }
    }

    // ----- add_free_area_to_bin

    method AddFreeAreaToBin(node: nat, b: nat, ghost off: nat, ghost d: int)
      requires Ok(S(), 1) && InHand(node) && b < freeArea.Length && CountsOk(freeArea[..], off, d)
      modifies `owner, freeArea
      ensures Ok(S(), 0) && CountsOk(freeArea[..], off, d)
      ensures Abs(S()) == old(Abs(S())).(bins := old(Abs(S())).bins[b := AddToBin(old(Abs(S())).bins[b], hkFn[node])])
      ensures forall c :: 0 <= c < freeArea.Length && c != b ==> freeArea[c] == old(freeArea[c])
    {
      ghost var bin := Abs(S()).bins[b];
      if freeArea[b].nodes == [] {
        LinkAt(node, b, 0, 1, off, d);
        assert bin == [] && bin[..0] + [hkFn[node]] + bin[0..] == [hkFn[node]];
      } else {
        var nodes := freeArea[b].nodes;
        var pos, carea := 0, 0;
        assert BinOk(S(), b);
        while pos < |nodes|
          invariant 0 <= pos <= |nodes| && 0 <= carea < |nodes| == |bin|
          invariant pos < |nodes| ==> InsertPos(bin, hkFn[node], pos) == InsertPos(bin, hkFn[node])
          invariant pos == |nodes| ==> carea == InsertPos(bin, hkFn[node])
        {
          carea := pos;
          if hkFn[nodes[pos]] > hkFn[node] { break; }
          pos := pos + 1;
        }
        LinkAt(node, b, carea + 1, 1, off, d);
      }
    }

    // ----- coalesce_buddies

    /** Takes the touching nodes at `i` and `i + 1` off bin `b`, keeping the first in hand. */
    method UnlinkPair(b: nat, i: nat) returns (lfa: nat)
      requires Valid() && b < freeArea.Length && i + 1 < |freeArea[b].nodes|
      modifies `owner, hkFn, freeArea
      ensures Ok(S(), 1) && CountsOk(freeArea[..], b, 2) && InHand(lfa) && hkFn[lfa] == old(Abs(S())).bins[b][i]
      ensures |freeArea[b].nodes| == old(|freeArea[b].nodes|) - 2
      ensures var bin := old(Abs(S())).bins[b];
        Abs(S()) == old(Abs(S())).(bins := old(Abs(S())).bins[b := bin[..i] + bin[i + 2..]])
    {
      ghost var t := PairOut(S(), b, i);
      var nodes, count := freeArea[b].nodes, freeArea[b].count;
      lfa := nodes[i];
      var cfa := nodes[i + 1];
      freeArea[b] := Bin(nodes[..i + 1] + nodes[i + 2..], count);
      freeArea[b] := Bin(freeArea[b].nodes[..i] + freeArea[b].nodes[i + 1..], count);
      hkFn[cfa] := 0;
      owner := owner[cfa := Unused][lfa := Held];
      assert S() == t;
    }

    method MergeAt(b: nat, i: nat)
      requires Valid() && b + 1 < freeArea.Length && i + 1 < |freeArea[b].nodes|
      modifies `owner, hkFn, freeArea
      ensures Valid() && |freeArea[b].nodes| == |Abs(S()).bins[b]| == old(|freeArea[b].nodes|) - 2
      ensures Abs(S()) == old(Abs(S())).(bins := MergePair(old(Abs(S())).bins, b, i))
    {
      var lfa := UnlinkPair(b, i);
      AddFreeAreaToBin(lfa, b + 1, b, 2);
      Uncount(b, 2, 0);
    }

    /** Compares node `pos` with its predecessor: merges them and restarts, or moves on. */
    method ScanNode(b: nat, pos: nat, ghost h: Heap) returns (next: nat)
      requires Valid() && Scanning(h, Abs(S()), b, pos) && pos < |Abs(S()).bins[b]| == |freeArea[b].nodes|
      modifies `owner, hkFn, freeArea
      ensures Valid() && Scanning(h, Abs(S()), b, next) && |Abs(S()).bins[b]| == |freeArea[b].nodes|
      ensures
        || (next == pos + 1 && |freeArea[b].nodes| == old(|freeArea[b].nodes|))
        || |freeArea[b].nodes| < old(|freeArea[b].nodes|)
    {
      ScanStep(h, Abs(S()), b, pos);
      var touching := Touching(b, pos);
      if touching {
        MergeAt(b, pos - 1);
        next := 0;
      } else {
        next := pos + 1;
      }
    }

    /** The scan of one bin, started afresh after each merge. */
    method CoalesceBin(b: nat)
      requires Valid() && b < BINS_MAX_ORDER - 1
      modifies `owner, hkFn, freeArea
      ensures Valid()
      ensures Abs(S()) == old(Abs(S())).(bins := Abs(S()).bins)
      ensures Coalesce(old(Abs(S())).bins, b) == Coalesce(Abs(S()).bins, b + 1)
    {
      ghost var h := Abs(S());
      ghost var g := h;
      var pos: nat := 0;
      var n: nat := |freeArea[b].nodes|;
      while pos < n
        invariant Valid() && g == Abs(S()) && n == |freeArea[b].nodes| == |g.bins[b]| && Scanning(h, g, b, pos)
        decreases n, n - pos
      {
        pos := ScanNode(b, pos, h);
        n := |freeArea[b].nodes|;
        g := Abs(S());
      }
      ScanEnd(h, g, b, pos);
    }

    method CoalesceBuddies(b: nat)
      requires Valid() && b < BINS_MAX_ORDER
      modifies `owner, hkFn, freeArea
      ensures Valid()
      ensures Abs(S()) == old(Abs(S())).(bins := Coalesce(old(Abs(S())).bins, b))
      decreases BINS_MAX_ORDER - b
    {
      if b == BINS_MAX_ORDER - 1 {
        return;
      }
      CoalesceBin(b);
      CoalesceBuddies(b + 1);
    }

    /** Whether node `pos` of bin `b` starts where its predecessor ends. */
    method Touching(b: nat, pos: nat) returns (r: bool)
      requires Valid() && b < freeArea.Length && pos < |freeArea[b].nodes|
      ensures var bin := Abs(S()).bins[b];
        |bin| == |freeArea[b].nodes| && r == (pos > 0 && bin[pos - 1] + BlkSize(b) == bin[pos])
    {
      assert BinOk(S(), b);
      var nodes := freeArea[b].nodes;
      r := pos > 0 && hkFn[nodes[pos - 1]] + BlkSize(b) == hkFn[nodes[pos]];
    }

    // ----- buddy_free

    method SearchForAllocatedBlock(ptr: int) returns (k: int)
      requires Valid()
      ensures SearchLive(Abs(S()).live, ptr) == if k == -1 then None else Some(k)
      ensures k == -1 || 0 <= k < |current|
    {
      k := 0;
      while k < |current|
        invariant 0 <= k <= |current|
        invariant SearchLive(Abs(S()).live, ptr) == SearchLive(Abs(S()).live, ptr, k)
      {
        if hkAn[current[k]].addr == ptr { return; }
        k := k + 1;
      }
      k := -1;
    }

    method ReturnToPool(a: AcNode) returns (ok: int)
      requires Valid() && a.addr > 0 && a.binNum < BINS_MAX_ORDER
      modifies `owner, `dropped, hkFn, freeArea
      ensures Valid()
      ensures Abs(S()) == BuddySpec.ReturnToPool(old(Abs(S())), Live(a.addr, a.blkSz, a.binNum))
    {
      ghost var h := Abs(S());
      var node := GetFreeHkNode();
      FreeNodeIff(S(), 0);
      if node != -1 {
        UseNode(node, a.addr, 0);
        AddFreeAreaToBin(node, a.binNum, 0, 0);
        assert |Abs(S()).bins[a.binNum]| == |freeArea[a.binNum].nodes| == freeArea[a.binNum].count;
        if freeArea[a.binNum].count > 1 {
          CoalesceBuddies(a.binNum);
        }
        ok := 0;
      } else {
        DropBlock(S(), Blk(a.addr, a.binNum));
        dropped := dropped + [Blk(a.addr, a.binNum)];
        ok := -1;
      }
    }

    method BuddyFree(ptr: int)
      requires Valid()
      modifies `owner, `dropped, `current, hkFn, hkAn, freeArea
      ensures Valid()
      ensures LiveBinsOk(old(Abs(S()))) && Abs(S()) == Free(old(Abs(S())), ptr)
    {
      var k := SearchForAllocatedBlock(ptr);
      if k == -1 {
        return;
      }
      var freed := current[k];
      var ok := ReturnToPool(hkAn[freed]);
      ghost var t := UnlistLive(S(), 0, k);
      current := current[..k] + current[k + 1..];
      hkAn[freed] := AcNode(0, 0, 0);
      assert S() == t;
    }

    // ----- sw_buddy_malloc

    /** Hands block `farea` to the live list, or loses it when no live node is left. */
    method Settle(farea: nat, size: nat, idx: nat) returns (addr: int)
      requires ValidWith(1) && InHand(farea) && idx < BINS_MAX_ORDER
      modifies `owner, `orphans, `current, hkFn, hkAn
      ensures Valid()
      ensures var h, a := old(Abs(S())), old(hkFn[farea]);
        if |h.live| < h.anCap then addr == a > 0 && Abs(S()) == h.(live := h.live + [Live(a, size, idx)])
        else addr == 0 && Abs(S()) == h.(orphans := h.orphans + [Blk(a, idx)])
    {
      var aarea := GetFreeAcNode();
      AcNodeIff(S(), 1);
      if aarea == -1 {
        LoseNode(farea, idx);
        return 0;
      }
      addr := hkFn[farea];
      ghost var t := EnlistLive(S(), 1, aarea, AcNode(addr, size, idx));
      hkAn[aarea] := AcNode(addr, size, idx);
      current := current + [aarea];
      assert S() == t;
      ClearNode(farea, 1);
    }

    /** The address of the block, or 0 (NULL). */
    method SwBuddyMalloc(size: nat) returns (addr: int)
      requires Valid() && size <= MAX_BLOCK_SIZE
      modifies `owner, `orphans, `current, hkFn, hkAn, freeArea
      ensures Valid()
      ensures addr == 0 ==> BuddySpec.Malloc(old(Abs(S())), size) == (None, Abs(S()))
      ensures addr != 0 ==> BuddySpec.Malloc(old(Abs(S())), size) == (Some(addr), Abs(S()))
    {
      if size > heapSize {
        return 0;
      }
      ghost var h := Abs(S());
      var idx, currBlk := 0, MIN_BLOCK_SIZE;
      while idx <= BINS_MAX_ORDER
        invariant Valid() && idx <= BINS_MAX_ORDER + 1
        invariant BuddySpec.Malloc(h, size) == MallocFrom(Abs(S()), size, idx, currBlk)
      {
        if size > currBlk {
          currBlk := 2 * currBlk;
        } else {
          var done;
          done, addr := TryBin(size, idx, currBlk);
          if done {
            return;
          }
        }
        idx := idx + 1;
      }
      addr := 0;
    }

    /** The attempt at bin `idx`, once blocks are large enough. */
    method TryBin(size: nat, idx: nat, currBlk: nat) returns (done: bool, addr: int)
      requires Valid() && idx <= BINS_MAX_ORDER && size <= currBlk
      modifies `owner, `orphans, `current, hkFn, hkAn, freeArea
      ensures Valid()
      ensures done && addr == 0 ==> MallocFrom(old(Abs(S())), size, idx, currBlk) == (None, Abs(S()))
      ensures done && addr != 0 ==> MallocFrom(old(Abs(S())), size, idx, currBlk) == (Some(addr), Abs(S()))
      ensures !done ==> MallocFrom(old(Abs(S())), size, idx, currBlk) == MallocFrom(Abs(S()), size, idx + 1, currBlk)
    {
      done, addr := false, 0;
      var farea := BuddyGetBlock(idx);
      if farea != -1 {
        assert idx < BINS_MAX_ORDER;
        addr := Settle(farea, currBlk, idx);
        done := true;
      }
    }

    // ----- buddy_init

    static method NewNodes(fnCount: nat, anCount: nat) returns (fn: array<int>, an: array<AcNode>, area: array<Bin>)
      ensures fresh(fn) && fresh(an) && fresh(area)
      ensures fn.Length == fnCount && an.Length == anCount && area.Length == BINS_MAX_ORDER
      ensures forall i :: 0 <= i < fnCount ==> fn[i] == 0
      ensures forall i :: 0 <= i < anCount ==> an[i] == AcNode(0, 0, 0)
      ensures forall b :: 0 <= b < BINS_MAX_ORDER ==> area[b] == Bin([], 0)
    {
      fn := new int[fnCount](_ => 0);
      an := new AcNode[anCount](_ => AcNode(0, 0, 0));
      area := new Bin[BINS_MAX_ORDER](_ => Bin([], 0));
    }

    /** Lays out the housekeeping area: all nodes free, all bins empty. */
    method ResetNodes(start: int, size: nat, hk: nat)
      requires start > 0 && size >= MAX_BLOCK_SIZE && hk <= size
      modifies this
      ensures Valid() && fresh(hkFn) && fresh(hkAn) && fresh(freeArea) && hkFn.Length == (hk / 2) / 16
      ensures Abs(S()) == FilledHeap(start, size, hk, 0)
    {
      hkFn, hkAn, freeArea := NewNodes((hk / 2) / 16, (hk / 2) / 24);
      current := [];
      memStart, memSize, heapSize := start + hk, size - hk, size;
      owner, orphans, dropped := seq(hkFn.Length, _ => Unused), [], [];
      ghost var s := S();
      assert forall b :: 0 <= b < |s.area| ==> s.area[b] == freeArea[b];
      EmptyOk(s, start, size, hk);
    }

    /** Puts the block at `addr` at the tail of the top bin, if a free node is left. */
    method AddTopBlock(addr: int) returns (node: int)
      requires Valid() && addr > 0
      modifies `owner, hkFn, freeArea
      ensures Valid() && (node == -1 <==> NodesUsed(old(Abs(S()))) == hkFn.Length)
      ensures node != -1 ==>
        var bins := old(Abs(S())).bins;
        Abs(S()) == old(Abs(S())).(bins := bins[BINS_MAX_ORDER - 1 := bins[BINS_MAX_ORDER - 1] + [addr]])
    {
      ghost var bin := Abs(S()).bins[BINS_MAX_ORDER - 1];
      node := GetFreeHkNode();
      FreeNodeIff(S(), 0);
      if node != -1 {
        UseNode(node, addr, 0);
        LinkAt(node, BINS_MAX_ORDER - 1, |freeArea[BINS_MAX_ORDER - 1].nodes|, 1, 0, 0);
        AppendAsInsert(bin, addr);
      }
    }

    /** Fills the top bin with the blocks above the housekeeping area. */
    method FillTopBin(start: int, size: nat, hk: nat, ghost m: nat) returns (ret: int)
      requires Valid() && start > 0 && size == m * 16384 && hk == m * 4096 && m > 0
      requires hkFn.Length == 128 * m && Abs(S()) == FilledHeap(start, size, hk, 0)
      modifies `owner, hkFn, freeArea
      ensures ret == 0 && Valid() && Abs(S()) == FilledHeap(start, size, hk, 3 * m)
    {
      ghost var n: nat := 0;
      var left := size - hk;
      var next := start + hk;
      ret := 0;
      while left > 0
        invariant 0 <= n <= 3 * m && left == (3 * m - n) * 4096 && ret == 0
        invariant next == start + hk + n * 4096
        invariant Valid() && Abs(S()) == FilledHeap(start, size, hk, n)
      {
        assert n < hkFn.Length;
        ret := NextTopBlock(start, size, hk, next, n);
        if ret != 0 {
          return;
        }
        left := left - MAX_BLOCK_SIZE;
        next := next + MAX_BLOCK_SIZE;
        n := n + 1;
      }
    }

    /** One more block on the row, while there are free nodes. */
    method NextTopBlock(start: int, size: nat, hk: nat, next: int, ghost n: nat) returns (ret: int)
      requires Valid() && start > 0 && size >= MAX_BLOCK_SIZE && hk <= size && n < hkFn.Length
      requires next == start + hk + n * 4096 && Abs(S()) == FilledHeap(start, size, hk, n)
      modifies `owner, hkFn, freeArea
      ensures ret == 0 && Valid() && Abs(S()) == FilledHeap(start, size, hk, n + 1)
    {
      FilledStep(start, size, hk, n);
      var node := AddTopBlock(next);
      ret := if node == -1 then -1 else 0;
    }

    /** For a size that is a power of two and leaves whole blocks: the heap is one row of blocks of
        the largest size above a quarter of housekeeping nodes (16 bytes a free node, 24 a live
        one).  A size that is no power of two is refused. */
    method BuddyInit(start: int, size: nat) returns (ret: int)
      requires start > 0 && (IsPowTwo(size) ==> size % 16384 == 0)
      requires size * 25 < 0x1_0000_0000
      modifies this
      ensures !IsPowTwo(size) ==> ret == OTZ_EFAIL && unchanged(this)
      ensures IsPowTwo(size) ==>
        && ret == 0 && Valid() && fresh(hkFn) && fresh(hkAn) && fresh(freeArea)
        && size >= 4 * MAX_BLOCK_SIZE && Abs(S()) == InitHeap(start, size, size / 4)
    {
      if !IsPowTwo(size) {
        return OTZ_EFAIL;
      }
      ret := LayOut(start, size, (size * 25) / 100);
    }

    /** Housekeeping of `hk` bytes first, then the row of blocks. */
    method LayOut(start: int, size: nat, hk: nat) returns (ret: int)
      requires start > 0 && size > 0 && size % 16384 == 0 && hk == (size * 25) / 100
      modifies this
      ensures ret == 0 && Valid() && fresh(hkFn) && fresh(hkAn) && fresh(freeArea)
      ensures size >= 4 * MAX_BLOCK_SIZE && Abs(S()) == InitHeap(start, size, size / 4)
    {
      ghost var m := InitSizes(size);
      ResetNodes(start, size, hk);
      ret := FillTopBin(start, size, hk, m);
    }
  }
}
