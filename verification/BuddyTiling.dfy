/** Free, live and lost blocks tile the heap memory exactly, in every run. */
module BuddyTiling {
  import opened Wrappers
  import opened BuddySpec

  // ----- contiguous layouts

  /** The blocks of `l`, in this order, fill [s, e) without gap or overlap. */
  ghost predicate Chain(l: seq<Blk>, s: int, e: int) {
    if l == [] then s == e else l[0].addr == s && Chain(l[1..], s + BlkSize(l[0].bin), e)
  }

  function End(b: Blk): int { b.addr + BlkSize(b.bin) }

  /** In a layout, blocks follow one another; each sits at a multiple of the least block size. */
  lemma ChainAt(l: seq<Blk>, s: int, e: int, i: nat, j: nat)
    requires Chain(l, s, e) && i <= j < |l|
    ensures s <= l[i].addr && End(l[j]) <= e
    ensures (l[j].addr - s) % MIN_BLOCK_SIZE == 0
    ensures i < j ==> End(l[i]) <= l[j].addr
    ensures i + 1 == j ==> End(l[i]) == l[j].addr
  {
    ChainOrder(l, s, e, i, j);
    ChainAligned(l, s, e, j);
  }

  lemma {:induction false} ChainAligned(l: seq<Blk>, s: int, e: int, j: nat)
    requires Chain(l, s, e) && j < |l|
    ensures (l[j].addr - s) % MIN_BLOCK_SIZE == 0
    decreases |l|
  {
    if j > 0 { ChainAligned(l[1..], s + BlkSize(l[0].bin), e, j - 1); }
  }

  lemma {:induction false} ChainOrder(l: seq<Blk>, s: int, e: int, i: nat, j: nat)
    requires Chain(l, s, e) && i <= j < |l|
    ensures s <= l[i].addr && End(l[j]) <= e
    ensures i < j ==> End(l[i]) <= l[j].addr
    ensures i + 1 == j ==> End(l[i]) == l[j].addr
    decreases |l|
  {
    var t, s1 := l[1..], s + BlkSize(l[0].bin);
    if j == 0 {
      ChainEnd(t, s1, e);
    } else if i == 0 {
      ChainOrder(t, s1, e, 0, j - 1);
      assert l[j] == t[j - 1];
    } else {
      ChainOrder(t, s1, e, i - 1, j - 1);
      assert l[j] == t[j - 1] && l[i] == t[i - 1];
    }
  }

  lemma {:induction false} ChainEnd(l: seq<Blk>, s: int, e: int)
    requires Chain(l, s, e)
    ensures s + MIN_BLOCK_SIZE * |l| <= e
  {
    if l != [] { ChainEnd(l[1..], s + BlkSize(l[0].bin), e); }
  }

  lemma {:induction false} ChainConcat(l: seq<Blk>, m: seq<Blk>, s: int, mid: int, e: int)
    requires Chain(l, s, mid) && Chain(m, mid, e)
    ensures Chain(l + m, s, e)
  {
    if l == [] {
      assert l + m == m;
    } else {
      assert (l + m)[1..] == l[1..] + m;
      ChainConcat(l[1..], m, s + BlkSize(l[0].bin), mid, e);
    }
  }

  lemma {:induction false} ChainCut(l: seq<Blk>, s: int, e: int, k: nat)
    requires Chain(l, s, e) && k < |l|
    ensures Chain(l[..k], s, l[k].addr) && Chain(l[k + 1..], End(l[k]), e)
  {
    if k == 0 {
      assert l[..0] == [];
    } else {
      assert l[..k][1..] == l[1..][..k - 1] && l[k + 1..] == l[1..][k..];
      ChainCut(l[1..], s + BlkSize(l[0].bin), e, k - 1);
    }
  }

  // ----- counting occurrences

  function One<T(==)>(b: T, x: T): nat { if b == x then 1 else 0 }

  lemma {:induction false} OccConcat<T>(s: seq<T>, t: seq<T>, x: T)
    ensures Occ(s + t, x) == Occ(s, x) + Occ(t, x)
  {
    if s == [] {
      assert s + t == t;
    } else {
      assert (s + t)[1..] == s[1..] + t;
      OccConcat(s[1..], t, x);
    }
  }

  lemma OccOne<T>(b: T, x: T)
    ensures Occ([b], x) == One(b, x)
  {
    assert [b][1..] == [];
  }

  /** The occurrences in `s` lie before, within and after s[k..k + n]. */
  lemma OccAround<T>(s: seq<T>, k: nat, n: nat, x: T)
    requires k + n <= |s|
    ensures Occ(s, x) == Occ(s[..k], x) + Occ(s[k..k + n], x) + Occ(s[k + n..], x)
    ensures Occ(s, x) == Occ(s[..k] + s[k + n..], x) + Occ(s[k..k + n], x)
  {
    assert s == s[..k] + (s[k..k + n] + s[k + n..]);
    OccThree(s[..k], s[k..k + n], s[k + n..], x);
  }

  lemma OccThree<T>(a: seq<T>, b: seq<T>, c: seq<T>, x: T)
    ensures Occ(a + (b + c), x) == Occ(a, x) + Occ(b, x) + Occ(c, x) && Occ(a + c, x) == Occ(a, x) + Occ(c, x)
  {
    OccConcat(a, b + c, x);
    OccConcat(b, c, x);
    OccConcat(a, c, x);
  }

  lemma OccAt<T>(s: seq<T>, k: nat, x: T)
    requires k < |s|
    ensures Occ(s, x) == Occ(s[..k], x) + One(s[k], x) + Occ(s[k + 1..], x)
    ensures Occ(s, x) == Occ(s[..k] + s[k + 1..], x) + One(s[k], x)
  {
    OccAround(s, k, 1, x);
    assert s[k..k + 1] == [s[k]];
    OccOne(s[k], x);
  }

  lemma OccAppend<T>(s: seq<T>, b: T, x: T)
    ensures Occ(s + [b], x) == Occ(s, x) + One(b, x)
  {
    OccConcat(s, [b], x);
    OccOne(b, x);
  }

  lemma {:induction false} OccFind<T>(s: seq<T>, x: T) returns (k: nat)
    requires Occ(s, x) > 0
    ensures k < |s| && s[k] == x
  {
    if s[0] == x {
      k := 0;
    } else {
      k := OccFind(s[1..], x);
      k := k + 1;
    }
  }

  /** Replacing a block by its two halves keeps a layout contiguous. */
  lemma SplitLayout(l: seq<Blk>, s: int, e: int, a: int, bin: nat) returns (l': seq<Blk>)
    requires Chain(l, s, e) && Occ(l, Blk(a, bin + 1)) > 0
    ensures Chain(l', s, e)
    ensures forall x :: Occ(l', x) + One(Blk(a, bin + 1), x)
                     == Occ(l, x) + One(Blk(a, bin), x) + One(Blk(a + BlkSize(bin), bin), x)
  {
    var k := OccFind(l, Blk(a, bin + 1));
    ChainCut(l, s, e, k);
    var b, c := Blk(a, bin), Blk(a + BlkSize(bin), bin);
    assert [b, c][1..] == [c] && [c][1..] == [];
    assert Chain([c], c.addr, End(c));
    ChainConcat([b, c], l[k + 1..], a, End(c), e);
    ChainConcat(l[..k], [b, c] + l[k + 1..], s, a, e);
    l' := l[..k] + ([b, c] + l[k + 1..]);
    forall x { ReplacedOcc(l, k, 1, [b, c], x); }
  }

  lemma ReplacedOcc(l: seq<Blk>, k: nat, n: nat, mid: seq<Blk>, x: Blk)
    requires k + n <= |l| && n <= 2 && 0 < |mid| <= 2
    ensures Occ(l[..k] + (mid + l[k + n..]), x)
          + (if n > 0 then One(l[k], x) else 0) + (if n > 1 then One(l[k + 1], x) else 0)
         == Occ(l, x) + One(mid[0], x) + (if |mid| > 1 then One(mid[1], x) else 0)
  {
    OccConcat(l[..k], mid + l[k + n..], x);
    OccConcat(mid, l[k + n..], x);
    OccAround(l, k, n, x);
    ShortOcc(l[k..k + n], x);
    ShortOcc(mid, x);
  }

  lemma ShortOcc(s: seq<Blk>, x: Blk)
    requires |s| <= 2
    ensures Occ(s, x) == (if |s| > 0 then One(s[0], x) else 0) + (if |s| > 1 then One(s[1], x) else 0)
  {
    if |s| > 1 { assert s[1..] == [s[1]]; OccOne(s[1], x); }
  }

  /** So does replacing two blocks of one size, the second starting where the first ends, by
      the double block. */
  lemma MergeLayout(l: seq<Blk>, s: int, e: int, a: int, bin: nat) returns (l': seq<Blk>)
    requires Chain(l, s, e) && Occ(l, Blk(a, bin)) > 0 && Occ(l, Blk(a + BlkSize(bin), bin)) > 0
    ensures Chain(l', s, e)
    ensures forall x :: Occ(l', x) + One(Blk(a, bin), x) + One(Blk(a + BlkSize(bin), bin), x)
                     == Occ(l, x) + One(Blk(a, bin + 1), x)
  {
    var i := OccFind(l, Blk(a, bin));
    var j := OccFind(l, Blk(a + BlkSize(bin), bin));
    if j <= i { ChainAt(l, s, e, j, i); }
    if i + 1 < j { ChainAt(l, s, e, i, i + 1); ChainAt(l, s, e, i + 1, j); }
    ChainCut(l, s, e, i);
    ChainCut(l, s, e, i + 1);
    var d := Blk(a, bin + 1);
    assert [d][1..] == [];
    assert Chain([d], a, End(d));
    ChainConcat([d], l[i + 2..], a, End(d), e);
    ChainConcat(l[..i], [d] + l[i + 2..], s, a, e);
    l' := l[..i] + ([d] + l[i + 2..]);
    forall x { ReplacedOcc(l, i, 2, [d], x); }
  }

  // ----- what each update of the heap does to its blocks

  lemma AddToBinOcc(bin: seq<int>, a: int, x: int)
    ensures Occ(AddToBin(bin, a), x) == Occ(bin, x) + One(a, x)
  {
    if bin == [] {
      OccOne(a, x);
    } else {
      var k := InsertPos(bin, a) + 1;
      var r := AddToBin(bin, a);
      OccAt(r, k, x);
      assert r[..k] + r[k + 1..] == bin;
    }
  }

  lemma LiveOcc(live: seq<Live>, a: Live, x: Blk)
    ensures Occ(LiveBlocks(live + [a]), x) == Occ(LiveBlocks(live), x) + One(Blk(a.addr, a.bin), x)
  {
    assert LiveBlocks(live + [a]) == LiveBlocks(live) + [Blk(a.addr, a.bin)];
    OccAppend(LiveBlocks(live), Blk(a.addr, a.bin), x);
  }

  lemma UnliveOcc(live: seq<Live>, i: nat, x: Blk)
    requires i < |live|
    ensures Occ(LiveBlocks(live), x)
         == Occ(LiveBlocks(live[..i] + live[i + 1..]), x) + One(Blk(live[i].addr, live[i].bin), x)
  {
    var l := LiveBlocks(live);
    OccAt(l, i, x);
    assert LiveBlocks(live[..i] + live[i + 1..]) == l[..i] + l[i + 1..];
  }

  // ----- every routine keeps a layout

  /** `l` lists all blocks of the heap, contiguous over its memory. */
  ghost predicate Lays(h: Heap, l: seq<Blk>) {
    Chain(l, h.memStart, h.memStart + h.memSize) && forall x :: Occ(l, x) == Count(h, x)
  }

  /** The heap with one more block out of its bins: in a caller's hand, or lost. */
  function Hold(h: Heap, b: Blk): Heap { h.(orphans := h.orphans + [b]) }

  function HoldOpt(h: Heap, o: Option<int>, idx: nat): Heap {
    if o.Some? then Hold(h, Blk(o.value, idx)) else h
  }

  lemma PopLays(h: Heap, idx: nat, l: seq<Blk>)
    requires Shape(h) && idx < BINS_MAX_ORDER && h.bins[idx] != [] && Lays(h, l)
    ensures var (o, h1) := GetBlock(h, idx); Lays(HoldOpt(h1, o, idx), l)
  {
    var s := h.bins[idx];
    var k := |s| - 1;
    var h1 := HoldOpt(GetBlock(h, idx).1, GetBlock(h, idx).0, idx);
    forall x ensures Count(h1, x) == Count(h, x) {
      OccAt(s, k, x.addr);
      assert s[..k] + s[k + 1..] == s[..k];
      OccAppend(h.orphans, Blk(s[k], idx), x);
    }
  }

  lemma KeepHalf(g: Heap, idx: nat, a: int, l: seq<Blk>) returns (l': seq<Blk>)
    requires Shape(g) && idx < BINS_MAX_ORDER && Lays(Hold(g, Blk(a, idx + 1)), l)
    ensures Lays(Hold(g.(bins := g.bins[idx := g.bins[idx] + [a]]), Blk(a + BlkSize(idx), idx)), l')
  {
    OccAppend(g.orphans, Blk(a, idx + 1), Blk(a, idx + 1));
    assert Count(Hold(g, Blk(a, idx + 1)), Blk(a, idx + 1)) > 0;
    l' := SplitLayout(l, g.memStart, g.memStart + g.memSize, a, idx);
    var g' := Hold(g.(bins := g.bins[idx := g.bins[idx] + [a]]), Blk(a + BlkSize(idx), idx));
    forall x ensures Occ(l', x) == Count(g', x) {
      assert Occ(l, x) == Count(Hold(g, Blk(a, idx + 1)), x);
      OccAppend(g.orphans, Blk(a, idx + 1), x);
      OccAppend(g.orphans, Blk(a + BlkSize(idx), idx), x);
      OccAppend(g.bins[idx], a, x.addr);
    }
  }

  /** buddy_get_block: the block handed out together with what stays still fills the memory. */
  lemma {:induction false} GetBlockLays(h: Heap, idx: nat, l: seq<Blk>) returns (l': seq<Blk>)
    requires Shape(h) && Lays(h, l)
    ensures var (o, h1) := GetBlock(h, idx); Lays(HoldOpt(h1, o, idx), l')
    decreases BINS_MAX_ORDER - idx
  {
    l' := l;
    if idx < BINS_MAX_ORDER {
      if h.bins[idx] == [] {
        l' := GetBlockLays(h, idx + 1, l);
        var (f, g) := GetBlock(h, idx + 1);
        if f.Some? && NodesUsed(g) + 1 < g.fnCap { l' := KeepHalf(g, idx, f.value, l'); }
      } else {
        PopLays(h, idx, l);
      }
    }
  }

  /** A held block may be put on the live list or given up as dropped. */
  lemma SettleLays(h: Heap, a: Live, l: seq<Blk>)
    requires Lays(Hold(h, Blk(a.addr, a.bin)), l)
    ensures Lays(h.(live := h.live + [a]), l)
    ensures Lays(h.(dropped := h.dropped + [Blk(a.addr, a.bin)]), l)
  {
    forall x
      ensures Count(h.(live := h.live + [a]), x) == Count(Hold(h, Blk(a.addr, a.bin)), x)
           == Count(h.(dropped := h.dropped + [Blk(a.addr, a.bin)]), x)
    {
      LiveOcc(h.live, a, x);
      OccAppend(h.orphans, Blk(a.addr, a.bin), x);
      OccAppend(h.dropped, Blk(a.addr, a.bin), x);
    }
  }

  lemma {:induction false} MallocFromLays(h: Heap, size: nat, idx: nat, curr: nat, l: seq<Blk>) returns (l': seq<Blk>)
    requires Shape(h) && Lays(h, l)
    ensures Lays(MallocFrom(h, size, idx, curr).1, l')
    decreases BINS_MAX_ORDER + 1 - idx
  {
    l' := l;
    if idx > BINS_MAX_ORDER {
    } else if size > curr {
      l' := MallocFromLays(h, size, idx + 1, 2 * curr, l);
    } else {
      l' := GetBlockLays(h, idx, l);
      var (o, h1) := GetBlock(h, idx);
      if o.None? {
        l' := MallocFromLays(h1, size, idx + 1, curr, l');
      } else {
        SettleLays(h1, Live(o.value, curr, idx), l');
      }
    }
  }

  lemma MergePairOcc(bins: seq<seq<int>>, b: nat, i: nat, x: Blk)
    requires b + 1 < |bins| && i + 1 < |bins[b]|
    ensures FreeCount(MergePair(bins, b, i), x) + One(Blk(bins[b][i], b), x) + One(Blk(bins[b][i + 1], b), x)
         == FreeCount(bins, x) + One(Blk(bins[b][i], b + 1), x)
  {
    if x.bin == b {
      OccAround(bins[b], i, 2, x.addr);
      PairOcc(bins[b][i..i + 2], x.addr);
    } else if x.bin == b + 1 {
      AddToBinOcc(bins[b + 1], bins[b][i], x.addr);
    }
  }

  lemma PairOcc(s: seq<int>, x: int)
    requires |s| == 2
    ensures Occ(s, x) == One(s[0], x) + One(s[1], x)
  {
    assert s[1..] == [s[1]];
    OccOne(s[1], x);
  }

  lemma MergePairLays(h: Heap, b: nat, i: nat, l: seq<Blk>) returns (l': seq<Blk>)
    requires Shape(h) && Lays(h, l) && b + 1 < BINS_MAX_ORDER
    requires i + 1 < |h.bins[b]| && h.bins[b][i] + BlkSize(b) == h.bins[b][i + 1]
    ensures Lays(h.(bins := MergePair(h.bins, b, i)), l')
  {
    var s, a := h.bins[b], h.bins[b][i];
    OccAt(s, i, a);
    OccAt(s, i + 1, s[i + 1]);
    assert Occ(l, Blk(a, b)) == Count(h, Blk(a, b)) && Occ(l, Blk(s[i + 1], b)) == Count(h, Blk(s[i + 1], b));
    l' := MergeLayout(l, h.memStart, h.memStart + h.memSize, a, b);
    var h' := h.(bins := MergePair(h.bins, b, i));
    forall x ensures Occ(l', x) == Count(h', x) {
      assert Occ(l, x) == Count(h, x);
      MergePairOcc(h.bins, b, i, x);
    }
  }

  lemma {:induction false} CoalesceLays(h: Heap, b: nat, l: seq<Blk>) returns (l': seq<Blk>)
    requires Shape(h) && Lays(h, l) && b < BINS_MAX_ORDER
    ensures Lays(h.(bins := Coalesce(h.bins, b)), l')
    decreases BINS_MAX_ORDER - b, |h.bins[b]|
  {
    l' := l;
    if b < BINS_MAX_ORDER - 1 {
      match FirstAdjacent(h.bins[b], BlkSize(b)) {
        case None => l' := CoalesceLays(h, b + 1, l);
        case Some(i) =>
          l' := MergePairLays(h, b, i, l);
          l' := CoalesceLays(h.(bins := MergePair(h.bins, b, i)), b, l');
      }
    }
  }

  /** Taking a live block off the list leaves it in the caller's hand. */
  lemma UnlistLays(h: Heap, i: nat, l: seq<Blk>)
    requires Lays(h, l) && i < |h.live|
    ensures Lays(Hold(h.(live := h.live[..i] + h.live[i + 1..]), Blk(h.live[i].addr, h.live[i].bin)), l)
  {
    var g := Hold(h.(live := h.live[..i] + h.live[i + 1..]), Blk(h.live[i].addr, h.live[i].bin));
    forall x ensures Count(g, x) == Count(h, x) {
      UnliveOcc(h.live, i, x);
      OccAppend(h.orphans, Blk(h.live[i].addr, h.live[i].bin), x);
    }
  }

  lemma EnlistLays(h: Heap, b: nat, a: int, l: seq<Blk>)
    requires Lays(Hold(h, Blk(a, b)), l) && b < |h.bins|
    ensures Lays(h.(bins := h.bins[b := AddToBin(h.bins[b], a)]), l)
  {
    forall x ensures Count(h.(bins := h.bins[b := AddToBin(h.bins[b], a)]), x) == Count(Hold(h, Blk(a, b)), x) {
      AddToBinOcc(h.bins[b], a, x.addr);
      OccAppend(h.orphans, Blk(a, b), x);
    }
  }

  lemma FreeLays(h: Heap, addr: int, l: seq<Blk>) returns (l': seq<Blk>)
    requires Shape(h) && LiveBinsOk(h) && Lays(h, l)
    ensures Lays(Free(h, addr), l')
  {
    l' := l;
    var f := SearchLive(h.live, addr);
    if f.Some? {
      var a := h.live[f.value];
      var g := h.(live := h.live[..f.value] + h.live[f.value + 1..]);
      UnlistLays(h, f.value, l);
      if NodesUsed(h) < h.fnCap {
        EnlistLays(g, a.bin, a.addr, l);
        var g1 := g.(bins := h.bins[a.bin := AddToBin(h.bins[a.bin], a.addr)]);
        if |g1.bins[a.bin]| > 1 { l' := CoalesceLays(g1, a.bin, l); }
      } else {
        SettleLays(g, a, l);
      }
    }
  }

  lemma InitLays(heapStart: int, heapSize: nat, hk: nat) returns (l: seq<Blk>)
    requires heapSize >= MAX_BLOCK_SIZE && hk <= heapSize && (heapSize - hk) % MAX_BLOCK_SIZE == 0
    ensures Lays(InitHeap(heapStart, heapSize, hk), l)
  {
    var h := InitHeap(heapStart, heapSize, hk);
    var n := (heapSize - hk) / MAX_BLOCK_SIZE;
    l := TopBlocks(heapStart + hk, n);
    InitChain(heapStart + hk, n);
    forall x ensures Occ(l, x) == Count(h, x) {
      TopCount(heapStart + hk, n, x);
    }
  }

  function TopBlocks(s: int, n: nat): seq<Blk>
    decreases n
  {
    if n == 0 then [] else [Blk(s, BINS_MAX_ORDER - 1)] + TopBlocks(s + MAX_BLOCK_SIZE, n - 1)
  }

  lemma {:induction false} TopCount(s: int, n: nat, x: Blk)
    ensures Occ(TopBlocks(s, n), x) == if x.bin == BINS_MAX_ORDER - 1 then Occ(InitBlocks(s, n), x.addr) else 0
    decreases n
  {
    if n > 0 {
      TopCount(s + MAX_BLOCK_SIZE, n - 1, x);
      assert InitBlocks(s, n) == [s] + InitBlocks(s + MAX_BLOCK_SIZE, n - 1);
    }
  }

  lemma BlkSizeTop()
    ensures BlkSize(BINS_MAX_ORDER - 1) == MAX_BLOCK_SIZE
  {
    assert BlkSize(4) == 64;
    assert BlkSize(8) == 1024;
  }

  lemma {:induction false} InitChain(s: int, n: nat)
    ensures Chain(TopBlocks(s, n), s, s + n * MAX_BLOCK_SIZE)
    decreases n
  {
    if n > 0 {
      BlkSizeTop();
      InitChain(s + MAX_BLOCK_SIZE, n - 1);
    }
  }
}
