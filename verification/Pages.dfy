/** The page bitmaps: which runs of pages are given out and taken back. */
module Pages {
  import opened BigNat

  // ----- one bit of a word

  /** w | 1 << k */
  function SetBit(w: nat, k: nat): nat {
    if k == 0 then w - w % 2 + 1 else w % 2 + 2 * SetBit(w / 2, k - 1)
  }

  /** w & ~(1 << k) */
  function ClearBit(w: nat, k: nat): nat {
    if k == 0 then w - w % 2 else w % 2 + 2 * ClearBit(w / 2, k - 1)
  }

  lemma {:induction false} BitAfterSet(w: nat, k: nat, j: nat)
    ensures Bit(SetBit(w, k), j) == if j == k then 1 else Bit(w, j)
  {
    HalfOf(w, SetBit(w / 2, if k > 0 then k - 1 else 0));
    if k > 0 && j > 0 { BitAfterSet(w / 2, k - 1, j - 1); }
  }

  lemma {:induction false} BitAfterClear(w: nat, k: nat, j: nat)
    ensures Bit(ClearBit(w, k), j) == if j == k then 0 else Bit(w, j)
  {
    HalfOf(w, ClearBit(w / 2, if k > 0 then k - 1 else 0));
    if k > 0 && j > 0 { BitAfterClear(w / 2, k - 1, j - 1); }
  }

  lemma HalfOf(w: nat, h: nat)
    ensures (w % 2 + 2 * h) / 2 == h && (w % 2 + 2 * h) % 2 == w % 2
    ensures (w - w % 2 + 1) / 2 == w / 2 && (w - w % 2) / 2 == w / 2 && (w - w % 2 + 1) % 2 == 1 && (w - w % 2) % 2 == 0
  {
  }

  lemma {:induction false} WordStays(w: nat, k: nat, h: nat)
    requires w < Pow2(h) && k < h
    ensures SetBit(w, k) < Pow2(h) && ClearBit(w, k) < Pow2(h)
  {
    if k > 0 { WordStays(w / 2, k - 1, h - 1); }
  }

  /** Setting a clear bit adds its weight and clearing a set one takes it away. */
  lemma {:induction false} BitWeight(w: nat, k: nat)
    ensures SetBit(w, k) == w + if Bit(w, k) == 0 then Pow2(k) else 0
    ensures ClearBit(w, k) == w - if Bit(w, k) == 1 then Pow2(k) else 0
  {
    if k > 0 { BitWeight(w / 2, k - 1); }
  }

  // ----- maps of pages

  /** True where the page is in use. */
  type PageMap = seq<bool>

  function Used(m: PageMap): (c: nat)
    ensures c <= |m|
  {
    if |m| == 0 then 0 else Used(m[..|m| - 1]) + if m[|m| - 1] then 1 else 0
  }

  function Marked(m: PageMap, s: nat, n: nat, b: bool): (r: PageMap)
    requires s + n <= |m|
    ensures |r| == |m|
  {
    m[..s] + seq(n, _ => b) + m[s + n..]
  }

  predicate RunIs(m: PageMap, s: nat, n: nat, b: bool) {
    s + n <= |m| && forall i :: s <= i < s + n ==> m[i] == b
  }

  lemma MarkedOne(m: PageMap, s: nat, n: nat, b: bool)
    requires s + n < |m|
    ensures Marked(m, s, n, b)[s + n := b] == Marked(m, s, n + 1, b)
  {
  }

  lemma {:induction false} UsedUpdate(m: PageMap, i: nat, b: bool)
    requires i < |m|
    ensures Used(m[i := b]) + (if m[i] then 1 else 0) == Used(m) + if b then 1 else 0
  {
    var k := |m| - 1;
    if i < k {
      assert m[i := b][..k] == m[..k][i := b];
      UsedUpdate(m[..k], i, b);
    } else {
      assert m[i := b][..k] == m[..k];
    }
  }

  /** How many pages of a run are in use. */
  function UsedIn(m: PageMap, s: nat, n: nat): (c: nat)
    requires s + n <= |m|
    ensures c <= n
  {
    if n == 0 then 0 else UsedIn(m, s, n - 1) + if m[s + n - 1] then 1 else 0
  }

  lemma {:induction false} UsedInAll(m: PageMap, s: nat, n: nat)
    requires s + n <= |m|
    ensures (UsedIn(m, s, n) == n <==> RunIs(m, s, n, true)) && (UsedIn(m, s, n) == 0 <==> RunIs(m, s, n, false))
  {
    if n > 0 { UsedInAll(m, s, n - 1); }
  }

  lemma {:induction false} UsedMarked(m: PageMap, s: nat, n: nat, b: bool)
    requires s + n <= |m|
    ensures Used(Marked(m, s, n, b)) + UsedIn(m, s, n) == Used(m) + if b then n else 0
  {
    if n > 0 {
      var k, m' := s + n - 1, Marked(m, s, n - 1, b);
      UsedMarked(m, s, n - 1, b);
      assert m'[k] == m[k];
      MarkedOne(m, s, n - 1, b);
      UsedUpdate(m', k, b);
    } else {
      assert Marked(m, s, 0, b) == m;
    }
  }

  /** Giving back what was taken restores the map. */
  lemma MarkedBack(m: PageMap, s: nat, n: nat)
    requires RunIs(m, s, n, false)
    ensures Marked(Marked(m, s, n, true), s, n, false) == m
  {
  }

  // ----- the search

  /** The first start, among those searched, of a free run of `n`; the last possible start is not
      searched. */
  function FirstRun(m: PageMap, n: nat, s: nat := 0): (r: nat)
    requires n <= |m|
    ensures r < |m| - n ==> s <= r && RunIs(m, r, n, false)
    ensures forall k :: s <= k < r && k < |m| - n ==> !RunIs(m, k, n, false)
    ensures s <= |m| - n ==> s <= r <= |m| - n
    decreases |m| - s
  {
    if s >= |m| - n then s else if RunIs(m, s, n, false) then s else FirstRun(m, n, s + 1)
  }

  class Bitmap {
    const words: array<Word>
    const nbits: nat
    var free: nat

    constructor (words: array<Word>, nbits: nat, free: nat)
      requires nbits <= 32 * words.Length
      ensures Valid() && this.words == words && this.nbits == nbits && this.free == free
    {
      this.words, this.nbits, this.free := words, nbits, free;
    }

    predicate Valid() { nbits <= 32 * words.Length }

    function Page(i: nat): bool
      reads words
      requires i < 32 * words.Length
    {
      Bit(words[i / 32], 31 - i % 32) == 1
    }

    ghost function View(): (m: PageMap)
      reads words
      requires Valid()
      ensures |m| == nbits
    {
      seq(nbits, i requires 0 <= i < nbits reads words => Page(i))
    }

    /** Bit `k` of one word, by or-ing or masking its weight. */
    method SetWord(w: nat, k: nat, b: bool)
      requires w < words.Length && k < 32
      modifies words
      ensures forall j: nat :: Bit(words[w], j) == if j == k then (if b then 1 else 0) else old(Bit(words[w], j))
      ensures b ==> words[w] == old(words[w]) + if old(Bit(words[w], k)) == 0 then Pow2(k) else 0
      ensures !b ==> words[w] == old(words[w]) - if old(Bit(words[w], k)) == 1 then Pow2(k) else 0
      ensures forall j :: 0 <= j < words.Length && j != w ==> words[j] == old(words[j])
    {
      ghost var was := words[w];
      Pow2_32();
      WordStays(was, k, 32);
      BitWeight(was, k);
      words[w] := if b then SetBit(words[w], k) else ClearBit(words[w], k);
      forall j: nat ensures Bit(words[w], j) == if j == k then (if b then 1 else 0) else Bit(was, j) {
        BitAfterSet(was, k, j);
        BitAfterClear(was, k, j);
      }
    }

    /** Page `i` is bit 31 - i % 32 of word i / 32; no other word changes. */
    method Mark(i: nat, b: bool)
      requires Valid() && i < nbits
      modifies words
      ensures View() == old(View())[i := b]
      ensures forall j :: 0 <= j < words.Length && j != i / 32 ==> words[j] == old(words[j])
      ensures b && !old(Page(i)) ==> words[i / 32] == old(words[i / 32]) + Pow2(31 - i % 32)
      ensures !b && old(Page(i)) ==> words[i / 32] == old(words[i / 32]) - Pow2(31 - i % 32)
    {
      SetWord(i / 32, 31 - i % 32, b);
      assert forall j :: 0 <= j < nbits ==> View()[j] == old(View())[i := b][j];
    }

    /** The nested search loops. */
    method FindRun(n: nat) returns (start: nat, available: bool)
      requires Valid() && n <= nbits
      ensures start == FirstRun(View(), n) && (available <==> start < nbits - n)
    {
      start, available := 0, false;
      while start < nbits - n
        invariant 0 <= start <= nbits - n && FirstRun(View(), n) == FirstRun(View(), n, start)
      {
        var iter := start;
        var count := 0;
        while iter < start + n
          invariant start <= iter <= start + n && count == iter - start && RunIs(View(), start, count, false)
        {
          if Bit(words[iter / 32], 31 - iter % 32) == 1 { break; }
          count := count + 1;
          iter := iter + 1;
        }
        if count == n {
          return start, true;
        }
        assert View()[iter];
        start := start + 1;
      }
    }

    /** Takes `n` pages from `start`. */
    method Take(start: nat, n: nat)
      requires Valid() && start + n <= nbits && n <= free
      modifies this`free, words
      ensures View() == Marked(old(View()), start, n, true) && free == old(free) - n
    {
      var count := 0;
      assert Marked(View(), start, 0, true) == View();
      while count < n
        invariant 0 <= count <= n && View() == Marked(old(View()), start, count, true) && free == old(free) - count
      {
        MarkedOne(old(View()), start, count, true);
        Mark(start + count, true);
        free := free - 1;
        count := count + 1;
      }
    }

    /** Gives back `n` pages from `start`, in use or not. */
    method Give(start: nat, n: nat)
      requires Valid() && start + n <= nbits
      modifies this`free, words
      ensures View() == Marked(old(View()), start, n, false) && free == old(free) + n
    {
      var count := 0;
      assert Marked(View(), start, 0, false) == View();
      while count < n
        invariant 0 <= count <= n && View() == Marked(old(View()), start, count, false) && free == old(free) + count
      {
        MarkedOne(old(View()), start, count, false);
        Mark(start + count, false);
        free := free + 1;
        count := count + 1;
      }
    }
  }

  // ----- virtual and physical pages together

  /** Pages of 4096 bytes, rounding up. */
  function PageCount(size: nat): (n: nat)
    ensures size <= n * 0x1000 < size + 0x1000
  {
    (if size % 0x1000 != 0 then size - size % 0x1000 + 0x1000 else size) / 0x1000
  }

  /** The pages that sw_phy_page_alloc takes for a size: its mask for rounding also clears bit 12. */
  function PhyCount(size: nat): nat {
    if size % 0x1000 != 0 then (size - size / 0x1000 % 2 * 0x1000 - size % 2 + 0x1000) / 0x1000 else size / 0x1000
  }

  /** It takes one page too few exactly when the size is no multiple of a page and its full pages are odd
      in number. */
  lemma PhyCountIff(size: nat)
    ensures PhyCount(size) == PageCount(size) - if size % 0x1000 != 0 && size / 0x1000 % 2 == 1 then 1 else 0
  {
  }

  lemma WholePages(n: nat)
    ensures PhyCount(n * 0x1000) == n
  {
  }

  function PageAddr(base: nat, page: nat): nat { page * 0x1000 + base }

  function PageOf(base: nat, addr: nat): nat
    requires base <= addr
  {
    (addr - base) / 0x1000
  }

  lemma PageOfAddr(base: nat, page: nat)
    ensures PageAddr(base, page) >= base && PageOf(base, PageAddr(base, page)) == page
  {
  }

  /** Whether a run of `n` can be given out. */
  ghost predicate CanTake(b: Bitmap, n: nat)
    reads b, b.words
  {
    b.Valid() && n <= b.free && n <= b.nbits && FirstRun(b.View(), n) < b.nbits - n
  }

  class MemInfo {
    const phy: Bitmap
    const vir: Bitmap
    const phyStart: nat
    const virStart: nat
    const phySize: nat
    const virSize: nat

    constructor (phy: Bitmap, vir: Bitmap, phyStart: nat, virStart: nat, phySize: nat, virSize: nat)
      requires phy != vir && phy.words != vir.words && phy.Valid() && vir.Valid() && phyStart > 0
      requires phy.free <= phy.nbits && vir.free <= vir.nbits
      ensures Counted() && this.phy == phy && this.vir == vir
    {
      this.phy, this.vir := phy, vir;
      this.phyStart, this.virStart, this.phySize, this.virSize := phyStart, virStart, phySize, virSize;
    }

    ghost predicate Valid()
      reads phy, vir
    {
      phy != vir && phy.words != vir.words && phy.Valid() && vir.Valid() && phyStart > 0
    }

    /** The counts of free pages are no larger than the maps. */
    ghost predicate Counted()
      reads phy, vir
    {
      Valid() && phy.free <= phy.nbits && vir.free <= vir.nbits
    }

    /** Pages for a size, rounded as the source does it; 0 when there are none. */
    method PhyPageAlloc(size: nat) returns (addr: nat, ghost start: nat)
      requires Counted()
      modifies phy`free, phy.words
      ensures Counted()
      ensures addr != 0 <==> old(CanTake(phy, PhyCount(size)))
      ensures addr != 0 ==> start == FirstRun(old(phy.View()), PhyCount(size)) < phy.nbits - PhyCount(size)
      ensures addr != 0 ==> addr == PageAddr(phyStart, start) && phy.free == old(phy.free) - PhyCount(size)
      ensures addr != 0 ==> phy.View() == Marked(old(phy.View()), start, PhyCount(size), true)
      ensures addr == 0 ==> phy.View() == old(phy.View()) && phy.free == old(phy.free)
    {
      addr, start := 0, 0;
      var n := PhyCount(size);
      if n > phy.free {
        return;
      }
      var s, available := phy.FindRun(n);
      if !available {
        return;
      }
      phy.Take(s, n);
      addr, start := PageAddr(phyStart, s), s;
    }

    /** Takes the leftmost free virtual run searched and an equally long physical one, or changes nothing. */
    method VirPageAlloc(size: nat) returns (addr: Addr, ghost start: nat, ghost phyRun: nat)
      requires Counted()
      modifies phy`free, phy.words, vir`free, vir.words
      ensures Counted()
      ensures addr.Got? <==> old(CanTake(vir, PageCount(size))) && old(CanTake(phy, PageCount(size)))
      ensures addr.Got? ==> start == FirstRun(old(vir.View()), PageCount(size))
      ensures addr.Got? ==> phyRun == FirstRun(old(phy.View()), PageCount(size))
      ensures addr.Got? ==> start + PageCount(size) <= vir.nbits && phyRun + PageCount(size) <= phy.nbits
      ensures addr.Got? ==> addr == Got(PageAddr(virStart, start), PageAddr(phyStart, phyRun))
      ensures addr.Got? ==> vir.View() == Marked(old(vir.View()), start, PageCount(size), true)
      ensures addr.Got? ==> vir.free == old(vir.free) - PageCount(size)
      ensures addr.Got? ==> phy.View() == Marked(old(phy.View()), phyRun, PageCount(size), true)
      ensures addr.Got? ==> phy.free == old(phy.free) - PageCount(size)
      ensures addr.Null? ==> vir.View() == old(vir.View()) && phy.View() == old(phy.View()) && vir.free == old(vir.free)
      ensures addr.Null? ==> phy.free == old(phy.free)
    {
      var n := PageCount(size);
      addr, start, phyRun := Null, 0, 0;
      if n > vir.free {
        return;
      }
      var s, available := vir.FindRun(n);
      if !available {
        return;
      }
      var p;
      WholePages(n);
      p, phyRun := PhyPageAlloc(n * 0x1000);
      if p == 0 {
        return;
      }
      vir.Take(s, n);
      addr, start := Got(PageAddr(virStart, s), p), s;
    }

    /** Gives back the pages of a region; an address outside it changes nothing. */
    method PhyAddrFree(addr: nat, pages: nat) returns (ret: int)
      requires Valid() && (phyStart <= addr <= phyStart + phySize ==> PageOf(phyStart, addr) + pages <= phy.nbits)
      modifies phy`free, phy.words
      ensures ret == 0 <==> phyStart <= addr <= phyStart + phySize
      ensures ret == 0 ==> phy.View() == Marked(old(phy.View()), PageOf(phyStart, addr), pages, false)
      ensures ret == 0 ==> phy.free == old(phy.free) + pages
      ensures ret != 0 ==> ret == -1 && phy.View() == old(phy.View()) && phy.free == old(phy.free)
    {
      if addr < phyStart || addr > phyStart + phySize {
        return -1;
      }
      phy.Give(PageOf(phyStart, addr), pages);
      ret := 0;
    }

    /** `pa` is what the page tables say the address maps to; whether its pages were in the physical region
        is not reported. */
    method VirAddrFree(addr: nat, pages: nat, pa: nat) returns (ret: int)
      requires Valid() && (virStart <= addr <= virStart + virSize ==> PageOf(virStart, addr) + pages <= vir.nbits)
      requires phyStart <= pa <= phyStart + phySize ==> PageOf(phyStart, pa) + pages <= phy.nbits
      modifies phy`free, phy.words, vir`free, vir.words
      ensures ret == 0 <==> virStart <= addr <= virStart + virSize
      ensures ret == 0 ==> vir.View() == Marked(old(vir.View()), PageOf(virStart, addr), pages, false)
      ensures ret == 0 ==> vir.free == old(vir.free) + pages
      ensures ret == 0 && phyStart <= pa <= phyStart + phySize ==>
                phy.View() == Marked(old(phy.View()), PageOf(phyStart, pa), pages, false) &&
                phy.free == old(phy.free) + pages
      ensures ret != 0 || !(phyStart <= pa <= phyStart + phySize) ==> phy.View() == old(phy.View())
      ensures ret != 0 || !(phyStart <= pa <= phyStart + phySize) ==> phy.free == old(phy.free)
      ensures ret != 0 ==> ret == -1 && vir.View() == old(vir.View()) && vir.free == old(vir.free)
    {
      if addr < virStart || addr > virStart + virSize {
        return -1;
      }
      vir.Give(PageOf(virStart, addr), pages);
      var r := PhyAddrFree(pa, pages);
      ret := 0;
    }
  }

  datatype Addr = Null | Got(vir: nat, phy: nat)

  /** Free pages and pages in use: constant over an allocation, and over giving back a run exactly when all
      of it was in use. */
  lemma GiveConservesIff(m: PageMap, free: nat, s: nat, n: nat)
    requires s + n <= |m|
    ensures (free + n) + Used(Marked(m, s, n, false)) == free + Used(m) <==> RunIs(m, s, n, true)
  {
    UsedMarked(m, s, n, false);
    UsedInAll(m, s, n);
  }

  lemma TakeConserves(m: PageMap, free: nat, n: nat)
    requires n <= free && n <= |m| && FirstRun(m, n) < |m| - n
    ensures (free - n) + Used(Marked(m, FirstRun(m, n), n, true)) == free + Used(m)
  {
    UsedMarked(m, FirstRun(m, n), n, true);
    UsedInAll(m, FirstRun(m, n), n);
  }

  /** Allocating and freeing the same size, when the page tables map the run given out.  A run that begins
      behind the end of its region, in the slack bits of the map, is refused and stays taken: both maps are
      put back exactly when neither run does. */
  method AllocFree(mem: MemInfo, size: nat) returns (ok: bool)
    requires mem.Counted()
    modifies mem.phy, mem.vir, mem.phy.words, mem.vir.words
    ensures ok <==> old(CanTake(mem.vir, PageCount(size))) && old(CanTake(mem.phy, PageCount(size)))
    ensures !ok ==> mem.vir.View() == old(mem.vir.View()) && mem.phy.View() == old(mem.phy.View())
    ensures !ok ==> mem.vir.free == old(mem.vir.free) && mem.phy.free == old(mem.phy.free)
    ensures ok && PageCount(size) > 0 ==>
              ((mem.vir.View() == old(mem.vir.View()) && mem.phy.View() == old(mem.phy.View())) <==>
                BothInside(mem, old(mem.vir.View()), old(mem.phy.View()), PageCount(size)))
    ensures ok && PageCount(size) > 0 ==>
              ((mem.vir.free == old(mem.vir.free) && mem.phy.free == old(mem.phy.free)) <==>
                BothInside(mem, old(mem.vir.View()), old(mem.phy.View()), PageCount(size)))
    ensures ok ==> mem.vir.View() == Left(old(mem.vir.View()), PageCount(size),
                     Inside(old(mem.vir.View()), PageCount(size), mem.virSize))
    ensures ok ==> mem.phy.View() == Left(old(mem.phy.View()), PageCount(size),
                     BothInside(mem, old(mem.vir.View()), old(mem.phy.View()), PageCount(size)))
  {
    ghost var v, p, n := mem.vir.View(), mem.phy.View(), PageCount(size);
    var addr, start, phyRun := mem.VirPageAlloc(size);
    ok := addr.Got?;
    if ok {
      PageOfAddr(mem.virStart, start);
      PageOfAddr(mem.phyStart, phyRun);
      MarkedBack(v, start, n);
      MarkedBack(p, phyRun, n);
      MarkedDiffers(v, start, n);
      MarkedDiffers(p, phyRun, n);
      var r := mem.VirAddrFree(addr.vir, PageCount(size), addr.phy);
    }
  }

  /** The run that will be found begins no later than the end of a region of `bytes` bytes. */
  predicate Inside(m: PageMap, n: nat, bytes: nat)
    requires n <= |m|
  {
    FirstRun(m, n) * 0x1000 <= bytes
  }

  /** A map after its run is taken and, if so, given back. */
  function Left(m: PageMap, n: nat, back: bool): PageMap
    requires n <= |m| && FirstRun(m, n) < |m| - n
  {
    if back then m else Marked(m, FirstRun(m, n), n, true)
  }

  predicate BothInside(mem: MemInfo, v: PageMap, p: PageMap, n: nat)
    requires n <= |v| && n <= |p|
  {
    Inside(v, n, mem.virSize) && Inside(p, n, mem.phySize)
  }

  lemma MarkedDiffers(m: PageMap, s: nat, n: nat)
    requires RunIs(m, s, n, false)
    ensures n > 0 ==> Marked(m, s, n, true) != m
  {
    if n > 0 { assert Marked(m, s, n, true)[s]; }
  }
}
