/** The two node arrays and the bins of node indices that sw_buddy.c keeps, as one value, and
    what it stands for in BuddySpec.  A node whose map is 0 (NULL) is free for reuse. */
module BuddyNodes {
  import opened BuddySpec
  import opened BuddyTiling
  import BuddyRuns

  datatype AcNode = AcNode(addr: int, blkSz: nat, binNum: nat)
  datatype Bin = Bin(nodes: seq<nat>, count: int)
  datatype Owner = Unused | InBin(b: nat) | Held | Orphaned

  /** `owner` says for each free node which list holds it; orphans are (node, bin) pairs. */
  datatype State = State(
    memStart: int, memSize: nat, heapSize: nat,
    fn: seq<int>, an: seq<AcNode>, area: seq<Bin>, current: seq<nat>,
    owner: seq<Owner>, orphans: seq<(nat, nat)>, dropped: seq<Blk>)

  predicate NoDup(s: seq<nat>) { forall i, j :: 0 <= i < j < |s| ==> s[i] != s[j] }

  function Addrs(nodes: seq<nat>, fn: seq<int>): (r: seq<int>)
    ensures |r| == |nodes|
  {
    seq(|nodes|, i requires 0 <= i < |nodes| => if nodes[i] < |fn| then fn[nodes[i]] else 0)
  }

  function AbsBins(area: seq<Bin>, fn: seq<int>): (r: seq<seq<int>>)
    ensures |r| == |area|
  {
    seq(|area|, b requires 0 <= b < |area| => Addrs(area[b].nodes, fn))
  }

  function AbsLive(current: seq<nat>, an: seq<AcNode>): (r: seq<Live>)
    ensures |r| == |current|
  {
    seq(|current|, i requires 0 <= i < |current| =>
      if current[i] < |an| then Live(an[current[i]].addr, an[current[i]].blkSz, an[current[i]].binNum)
      else Live(0, 0, 0))
  }

  function AbsOrphans(orphans: seq<(nat, nat)>, fn: seq<int>): (r: seq<Blk>)
    ensures |r| == |orphans|
  {
    seq(|orphans|, i requires 0 <= i < |orphans| =>
      Blk(if orphans[i].0 < |fn| then fn[orphans[i].0] else 0, orphans[i].1))
  }

  /** The heap a state of the node arrays stands for. */
  function Abs(s: State): Heap {
    Heap(s.memStart, s.memSize, s.heapSize, |s.fn|, |s.an|,
         AbsBins(s.area, s.fn), AbsLive(s.current, s.an), AbsOrphans(s.orphans, s.fn), s.dropped)
  }

  function Maps(an: seq<AcNode>): (r: seq<int>)
    ensures |r| == |an|
  {
    seq(|an|, i requires 0 <= i < |an| => an[i].addr)
  }

  ghost predicate FnOk(s: State, held: nat) {
    && |s.owner| == |s.fn| && |s.area| == BINS_MAX_ORDER && s.heapSize >= MAX_BLOCK_SIZE
    && (forall n :: 0 <= n < |s.fn| ==> s.fn[n] >= 0 && (s.fn[n] == 0 <==> s.owner[n] == Unused))
    && (forall b :: 0 <= b < |s.area| ==> BinOk(s, b))
    && (forall i :: 0 <= i < |s.orphans| ==> s.orphans[i].0 < |s.fn| && s.owner[s.orphans[i].0] == Orphaned)
    && |s.fn| - Occ(s.fn, 0) == TotalFree(AbsBins(s.area, s.fn)) + |s.orphans| + held
  }

  ghost predicate BinOk(s: State, b: nat)
    requires b < |s.area| && |s.owner| == |s.fn|
  {
    && NoDup(s.area[b].nodes)
    && forall i :: 0 <= i < |s.area[b].nodes| ==> s.area[b].nodes[i] < |s.fn| && s.owner[s.area[b].nodes[i]] == InBin(b)
  }

  ghost predicate AnOk(s: State) {
    && NoDup(s.current)
    && (forall n :: 0 <= n < |s.an| ==> s.an[n].addr >= 0)
    && (forall i :: 0 <= i < |s.current| ==>
          s.current[i] < |s.an| && s.an[s.current[i]].addr > 0 && s.an[s.current[i]].binNum < BINS_MAX_ORDER)
    && |s.an| - Occ(Maps(s.an), 0) == |s.current|
  }

  /** Each bin's count is its length, except that bin `b` may be off by `d`. */
  predicate CountsOk(area: seq<Bin>, b: nat, d: int) {
    forall i :: 0 <= i < |area| ==> area[i].count == |area[i].nodes| + if i == b then d else 0
  }

  /** The arrays are consistent, with `held` free nodes in a caller's hand. */
  ghost predicate Ok(s: State, held: nat) { FnOk(s, held) && AnOk(s) && s.memStart > 0 }

  // ----- counting nodes

  lemma OccUpdate(s: seq<int>, n: nat, v: int, x: int)
    requires n < |s|
    ensures Occ(s[n := v], x) + One(s[n], x) == Occ(s, x) + One(v, x)
  {
    OccAt(s, n, x);
    OccAt(s[n := v], n, x);
  }

  lemma {:induction false} OccBound(s: seq<int>, x: int)
    ensures Occ(s, x) <= |s|
    ensures Occ(s, x) == 0 <==> forall n :: 0 <= n < |s| ==> s[n] != x
  {
    if s != [] {
      OccBound(s[1..], x);
      assert forall n :: 1 <= n < |s| ==> s[n] == s[1..][n - 1];
    }
  }

  /** A free node is available exactly when fewer nodes are in use than the pool holds. */
  lemma FreeNodeIff(s: State, held: nat)
    requires Ok(s, held)
    ensures NodesUsed(Abs(s)) + held <= |s.fn|
    ensures (exists n :: 0 <= n < |s.fn| && s.fn[n] == 0) <==> NodesUsed(Abs(s)) + held < |s.fn|
  {
    OccBound(s.fn, 0);
  }

  lemma AcNodeIff(s: State, held: nat)
    requires Ok(s, held)
    ensures (exists n :: 0 <= n < |s.an| && s.an[n].addr == 0) <==> |Abs(s).live| < |s.an|
  {
    OccBound(Maps(s.an), 0);
    assert forall n :: 0 <= n < |s.an| ==> Maps(s.an)[n] == s.an[n].addr;
  }

  // ----- what each primitive update means

  /** Changing the map of a node on no list leaves the listed addresses as they were. */
  lemma SameAddrs(s: State, held: nat, n: nat, v: int)
    requires Ok(s, held) && n < |s.fn| && s.owner[n] in {Unused, Held}
    ensures AbsBins(s.area, s.fn[n := v]) == AbsBins(s.area, s.fn)
    ensures AbsOrphans(s.orphans, s.fn[n := v]) == AbsOrphans(s.orphans, s.fn)
  {
    forall b | 0 <= b < |s.area| ensures Addrs(s.area[b].nodes, s.fn[n := v]) == Addrs(s.area[b].nodes, s.fn) {
      assert BinOk(s, b);
    }
  }

  /** Writing an address into an unused node takes it in hand. */
  lemma TakeNode(s: State, held: nat, n: nat, v: int) returns (t: State)
    requires Ok(s, held) && n < |s.fn| && s.fn[n] == 0 && v > 0
    ensures t == s.(fn := s.fn[n := v], owner := s.owner[n := Held]) && Ok(t, held + 1)
    ensures Abs(t) == Abs(s)
  {
    t := s.(fn := s.fn[n := v], owner := s.owner[n := Held]);
    SameAddrs(s, held, n, v);
    OccUpdate(s.fn, n, v, 0);
    forall c | 0 <= c < |s.area| ensures BinOk(t, c) {
      assert BinOk(s, c);
    }
  }

  /** Clearing a node in hand gives it back. */
  lemma ReleaseNode(s: State, held: nat, n: nat) returns (t: State)
    requires Ok(s, held) && held > 0 && n < |s.fn| && s.owner[n] == Held
    ensures t == s.(fn := s.fn[n := 0], owner := s.owner[n := Unused]) && Ok(t, held - 1)
    ensures Abs(t) == Abs(s)
  {
    t := s.(fn := s.fn[n := 0], owner := s.owner[n := Unused]);
    SameAddrs(s, held, n, 0);
    OccUpdate(s.fn, n, 0, 0);
    forall c | 0 <= c < |s.area| ensures BinOk(t, c) {
      assert BinOk(s, c);
    }
  }

  /** Losing a node in hand, with its block. */
  lemma OrphanNode(s: State, held: nat, n: nat, b: nat) returns (t: State)
    requires Ok(s, held) && held > 0 && n < |s.fn| && s.owner[n] == Held
    ensures t == s.(orphans := s.orphans + [(n, b)], owner := s.owner[n := Orphaned]) && Ok(t, held - 1)
    ensures Abs(t) == Abs(s).(orphans := Abs(s).orphans + [Blk(s.fn[n], b)])
  {
    t := s.(orphans := s.orphans + [(n, b)], owner := s.owner[n := Orphaned]);
    forall c | 0 <= c < |s.area| ensures BinOk(t, c) {
      assert BinOk(s, c);
    }
  }

  /** Linking a node in hand into bin `b` at position `k`. */
  lemma LinkNode(s: State, held: nat, n: nat, b: nat, k: nat, count: int) returns (t: State)
    requires Ok(s, held) && held > 0 && n < |s.fn| && s.owner[n] == Held && b < |s.area| && k <= |s.area[b].nodes|
    ensures var nodes := s.area[b].nodes;
      t == s.(area := s.area[b := Bin(nodes[..k] + [n] + nodes[k..], count)], owner := s.owner[n := InBin(b)])
    ensures Ok(t, held - 1)
    ensures var bin := Abs(s).bins[b]; Abs(t) == Abs(s).(bins := Abs(s).bins[b := bin[..k] + [s.fn[n]] + bin[k..]])
  {
    var nodes := s.area[b].nodes;
    var nodes' := nodes[..k] + [n] + nodes[k..];
    t := s.(area := s.area[b := Bin(nodes', count)], owner := s.owner[n := InBin(b)]);
    forall c | 0 <= c < |s.area| ensures BinOk(t, c) {
      assert BinOk(s, c);
      if c == b { InsertNoDup(nodes, k, n); }
    }
    InsertAbs(s, n, b, k, count);
    var bin := AbsBins(s.area, s.fn)[b];
    BuddyRuns.TotalFreeUpdate(AbsBins(s.area, s.fn), b, bin[..k] + [s.fn[n]] + bin[k..]);
  }

  lemma InsertNoDup(s: seq<nat>, k: nat, n: nat)
    requires NoDup(s) && n !in s && k <= |s|
    ensures NoDup(s[..k] + [n] + s[k..])
    ensures forall x :: x in s[..k] + [n] + s[k..] <==> x in s || x == n
  {
    assert forall x :: x in s <==> x in s[..k] || x in s[k..];
  }

  lemma InsertAbs(s: State, n: nat, b: nat, k: nat, count: int)
    requires n < |s.fn| && b < |s.area| && k <= |s.area[b].nodes|
    ensures var nodes, bin := s.area[b].nodes, AbsBins(s.area, s.fn)[b];
      AbsBins(s.area[b := Bin(nodes[..k] + [n] + nodes[k..], count)], s.fn)
      == AbsBins(s.area, s.fn)[b := bin[..k] + [s.fn[n]] + bin[k..]]
  {
    var nodes, bin := s.area[b].nodes, AbsBins(s.area, s.fn)[b];
    assert Addrs(nodes[..k] + [n] + nodes[k..], s.fn) == bin[..k] + [s.fn[n]] + bin[k..];
  }

  /** Unlinking the node at position `k` of bin `b`. */
  lemma UnlinkNode(s: State, held: nat, b: nat, k: nat, count: int) returns (t: State)
    requires Ok(s, held) && b < |s.area| && k < |s.area[b].nodes|
    ensures var nodes := s.area[b].nodes;
      nodes[k] < |s.fn| &&
      t == s.(area := s.area[b := Bin(nodes[..k] + nodes[k + 1..], count)], owner := s.owner[nodes[k] := Held])
    ensures Ok(t, held + 1) && Abs(s).bins[b][k] == s.fn[s.area[b].nodes[k]]
    ensures var bin := Abs(s).bins[b]; Abs(t) == Abs(s).(bins := Abs(s).bins[b := bin[..k] + bin[k + 1..]])
  {
    var nodes := s.area[b].nodes;
    assert BinOk(s, b);
    var nodes' := nodes[..k] + nodes[k + 1..];
    t := s.(area := s.area[b := Bin(nodes', count)], owner := s.owner[nodes[k] := Held]);
    forall c | 0 <= c < |s.area| ensures BinOk(t, c) {
      assert BinOk(s, c);
    }
    var bin := Abs(s).bins[b];
    assert Addrs(nodes', s.fn) == bin[..k] + bin[k + 1..];
    assert AbsBins(t.area, t.fn) == AbsBins(s.area, s.fn)[b := Addrs(nodes', s.fn)];
    BuddyRuns.TotalFreeUpdate(AbsBins(s.area, s.fn), b, Addrs(nodes', s.fn));
  }

  /** Filling an unused live node and appending it to the live list. */
  lemma EnlistLive(s: State, held: nat, n: nat, a: AcNode) returns (t: State)
    requires Ok(s, held) && n < |s.an| && s.an[n].addr == 0 && a.addr > 0 && a.binNum < BINS_MAX_ORDER
    ensures t == s.(an := s.an[n := a], current := s.current + [n]) && Ok(t, held)
    ensures Abs(t) == Abs(s).(live := Abs(s).live + [Live(a.addr, a.blkSz, a.binNum)])
  {
    t := s.(an := s.an[n := a], current := s.current + [n]);
    assert Maps(t.an) == Maps(s.an)[n := a.addr];
    OccUpdate(Maps(s.an), n, a.addr, 0);
    assert n !in s.current;
    forall c | 0 <= c < |s.area| ensures BinOk(t, c) {
      assert BinOk(s, c);
    }
  }

  /** Taking the live node at position `k` off the list and clearing it. */
  lemma UnlistLive(s: State, held: nat, k: nat) returns (t: State)
    requires Ok(s, held) && k < |s.current|
    ensures s.current[k] < |s.an|
    ensures t == s.(an := s.an[s.current[k] := AcNode(0, 0, 0)], current := s.current[..k] + s.current[k + 1..])
    ensures Ok(t, held)
    ensures Abs(t) == Abs(s).(live := Abs(s).live[..k] + Abs(s).live[k + 1..])
  {
    t := s.(an := s.an[s.current[k] := AcNode(0, 0, 0)], current := s.current[..k] + s.current[k + 1..]);
    assert Maps(t.an) == Maps(s.an)[s.current[k] := 0];
    OccUpdate(Maps(s.an), s.current[k], 0, 0);
    forall c | 0 <= c < |s.area| ensures BinOk(t, c) {
      assert BinOk(s, c);
    }
    assert AbsLive(t.current, t.an) == AbsLive(s.current, s.an)[..k] + AbsLive(s.current, s.an)[k + 1..];
  }

  lemma SetCount(s: State, held: nat, b: nat, count: int)
    requires Ok(s, held) && b < |s.area|
    ensures var t := s.(area := s.area[b := Bin(s.area[b].nodes, count)]); Ok(t, held) && Abs(t) == Abs(s)
  {
    var t := s.(area := s.area[b := Bin(s.area[b].nodes, count)]);
    forall c | 0 <= c < |s.area| ensures BinOk(t, c) {
      assert BinOk(s, c);
    }
    assert AbsBins(t.area, t.fn) == AbsBins(s.area, s.fn);
  }

  lemma SameCounts(area: seq<Bin>, b: nat)
    requires CountsOk(area, 0, 0)
    ensures CountsOk(area, b, 0)
  {
  }

  lemma AppendAsInsert(bin: seq<int>, a: int)
    ensures bin[..|bin|] + [a] + bin[|bin|..] == bin + [a]
  {
  }

  lemma TwoOut(bins: seq<seq<int>>, b: nat, i: nat)
    requires b < |bins| && i + 1 < |bins[b]|
    ensures var one := bins[b][..i + 1] + bins[b][i + 2..];
      one[i] == bins[b][i] && bins[b := one][b := one[..i] + one[i + 1..]] == bins[b := bins[b][..i] + bins[b][i + 2..]]
  {
    var one := bins[b][..i + 1] + bins[b][i + 2..];
    assert one[..i] + one[i + 1..] == bins[b][..i] + bins[b][i + 2..];
  }

  /** Both list_del's and the reset of the second node in coalesce_buddies. */
  lemma PairOut(s: State, b: nat, i: nat) returns (t: State)
    requires Ok(s, 0) && b < |s.area| && i + 1 < |s.area[b].nodes|
    ensures var nodes := s.area[b].nodes;
      && nodes[i] < |s.fn| == |s.owner| && nodes[i + 1] < |s.fn| && nodes[i] != nodes[i + 1]
      && var one := nodes[..i + 1] + nodes[i + 2..];
        t == s.(area := s.area[b := Bin(one[..i] + one[i + 1..], s.area[b].count)],
                fn := s.fn[nodes[i + 1] := 0], owner := s.owner[nodes[i + 1] := Unused][nodes[i] := Held])
    ensures Ok(t, 1) && t.fn[s.area[b].nodes[i]] == Abs(s).bins[b][i]
    ensures var bin := Abs(s).bins[b]; Abs(t) == Abs(s).(bins := Abs(s).bins[b := bin[..i] + bin[i + 2..]])
  {
    var nodes := s.area[b].nodes;
    assert BinOk(s, b);
    var t1 := UnlinkNode(s, 0, b, i + 1, s.area[b].count);
    var t2 := UnlinkNode(t1, 1, b, i, s.area[b].count);
    t := ReleaseNode(t2, 2, nodes[i + 1]);
    TwoOut(Abs(s).bins, b, i);
    assert s.area[b := t1.area[b]][b := t2.area[b]] == s.area[b := t2.area[b]];
    assert s.owner[nodes[i + 1] := Held][nodes[i] := Held][nodes[i + 1] := Unused]
        == s.owner[nodes[i + 1] := Unused][nodes[i] := Held];
  }

  lemma DropBlock(s: State, b: Blk)
    requires Ok(s, 0)
    ensures var t := s.(dropped := s.dropped + [b]); Ok(t, 0) && Abs(t) == Abs(s).(dropped := Abs(s).dropped + [b])
  {
    var t := s.(dropped := s.dropped + [b]);
    forall c | 0 <= c < |s.area| ensures BinOk(t, c) {
      assert BinOk(s, c);
    }
  }

  // ----- the scan of coalesce_buddies

  /** `g` is reached from `h` by merges in bin `b`, and none of its first `pos` nodes touch. */
  ghost predicate Scanning(h: Heap, g: Heap, b: nat, pos: nat) {
    && Shape(h) && Shape(g) && b < BINS_MAX_ORDER - 1 && pos <= |g.bins[b]|
    && g == h.(bins := g.bins) && Coalesce(g.bins, b) == Coalesce(h.bins, b)
    && FirstAdjacent(g.bins[b], BlkSize(b)) == FirstAdjacent(g.bins[b], BlkSize(b), if pos == 0 then 0 else pos - 1)
  }

  lemma ScanStep(h: Heap, g: Heap, b: nat, pos: nat)
    requires Scanning(h, g, b, pos) && pos < |g.bins[b]|
    ensures var bin := g.bins[b];
      if pos > 0 && bin[pos - 1] + BlkSize(b) == bin[pos]
      then Scanning(h, g.(bins := MergePair(g.bins, b, pos - 1)), b, 0)
      else Scanning(h, g, b, pos + 1)
  {
  }

  lemma ScanEnd(h: Heap, g: Heap, b: nat, pos: nat)
    requires Scanning(h, g, b, pos) && pos == |g.bins[b]|
    ensures Coalesce(h.bins, b) == Coalesce(g.bins, b + 1)
  {
  }

  // ----- buddy_init

  lemma {:induction false} AllOcc(s: seq<int>, x: int)
    requires forall i :: 0 <= i < |s| ==> s[i] == x
    ensures Occ(s, x) == |s|
  {
    if s != [] { AllOcc(s[1..], x); }
  }

  /** Cleared node arrays and empty bins are consistent and stand for the heap with no block. */
  lemma EmptyOk(s: State, start: int, size: nat, hk: nat)
    requires |s.area| == BINS_MAX_ORDER && s.heapSize == size >= MAX_BLOCK_SIZE && s.memStart == start + hk > 0
    requires hk <= size && s.memSize == size - hk && |s.fn| == (hk / 2) / 16 && |s.an| == (hk / 2) / 24
    requires (forall i :: 0 <= i < |s.fn| ==> s.fn[i] == 0)
    requires (forall i :: 0 <= i < |s.an| ==> s.an[i] == AcNode(0, 0, 0))
    requires forall b :: 0 <= b < |s.area| ==> s.area[b] == Bin([], 0)
    requires |s.owner| == |s.fn| && (forall i :: 0 <= i < |s.fn| ==> s.owner[i] == Unused)
    requires s.current == [] && s.orphans == [] && s.dropped == []
    ensures Ok(s, 0) && CountsOk(s.area, 0, 0) && Abs(s) == FilledHeap(start, size, hk, 0)
  {
    AllOcc(s.fn, 0);
    AllOcc(Maps(s.an), 0);
    forall b | 0 <= b < BINS_MAX_ORDER
      ensures AbsBins(s.area, s.fn)[b] == [] == FilledHeap(start, size, hk, 0).bins[b]
    {
      assert s.area[b].nodes == [] && InitBlocks(start + hk, 0) == [];
    }
    assert AbsBins(s.area, s.fn) == FilledHeap(start, size, hk, 0).bins;
    BuddyRuns.TotalFreeTop(AbsBins(s.area, s.fn), 0);
  }

  /** A heap of 4 * m blocks of the largest size gives a quarter to 128 * m free nodes. */
  lemma InitSizes(size: nat) returns (m: nat)
    requires size % 16384 == 0
    ensures size == m * 16384 && (size * 25) / 100 == size / 4 == m * 4096
    ensures (size / 4 / 2) / 16 == 128 * m && (size - size / 4) / MAX_BLOCK_SIZE == 3 * m
  {
    m := size / 16384;
  }

  lemma FilledStep(start: int, size: nat, hk: nat, n: nat)
    requires size >= MAX_BLOCK_SIZE && hk <= size
    ensures var h := FilledHeap(start, size, hk, n);
      && NodesUsed(h) == n
      && FilledHeap(start, size, hk, n + 1)
         == h.(bins := h.bins[BINS_MAX_ORDER - 1 := h.bins[BINS_MAX_ORDER - 1] + [start + hk + n * 4096]])
  {
    var h := FilledHeap(start, size, hk, n);
    BuddyRuns.TotalFreeTop(h.bins, 0);
    assert h.bins[BINS_MAX_ORDER - 1] == InitBlocks(start + hk, n);
    assert InitBlocks(start + hk, n) + [start + hk + n * MAX_BLOCK_SIZE] == InitBlocks(start + hk, n + 1);
    assert FilledHeap(start, size, hk, n + 1).bins
        == h.bins[BINS_MAX_ORDER - 1 := h.bins[BINS_MAX_ORDER - 1] + [start + hk + n * MAX_BLOCK_SIZE]];
  }
}
