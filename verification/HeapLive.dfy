/** What one allocation and one free do to the set of live addresses of a heap. */
module HeapLive {
  import opened Wrappers
  import opened BuddySpec
  import BuddyTiling
  import BuddyRuns

  /** `p` is the address of a live block. */
  predicate LiveAt(h: Heap, p: int) { SearchLive(h.live, p).Some? }

  lemma OccPlace<T>(s: seq<T>, x: T, i: nat)
    requires i < |s| && s[i] == x
    ensures Occ(s, x) >= 1
  {
    BuddyTiling.OccAt(s, i, x);
  }

  lemma {:induction false} OccTwoPlaces<T>(s: seq<T>, x: T, i: nat, j: nat)
    requires i < j < |s| && s[i] == x == s[j]
    ensures Occ(s, x) >= 2
  {
    if i > 0 { OccTwoPlaces(s[1..], x, i - 1, j - 1); } else { OccPlace(s[1..], x, j - 1); }
  }

  /** Live blocks have different addresses. */
  lemma LiveDistinct(h: Heap, i: nat, j: nat)
    requires BuddyRuns.Tiled(h) && i < j < |h.live|
    ensures h.live[i].addr != h.live[j].addr
  {
    var b := LiveBlocks(h.live);
    OccPlace(b, b[i], i);
    OccPlace(b, b[j], j);
    BuddyRuns.BlocksDisjoint(h, b[i], b[j]);
    if b[i] == b[j] { OccTwoPlaces(b, b[i], i, j); }
  }

  lemma LivePositive(h: Heap, i: nat)
    requires BuddyRuns.Tiled(h) && i < |h.live|
    ensures h.live[i].addr >= h.memStart
  {
    var b := LiveBlocks(h.live);
    OccPlace(b, b[i], i);
    BuddyRuns.BlocksDisjoint(h, b[i], b[i]);
  }

  lemma {:induction false} GetBlockLive(h: Heap, idx: nat)
    requires Shape(h)
    ensures GetBlock(h, idx).1.live == h.live && GetBlock(h, idx).1.memStart == h.memStart
    decreases BINS_MAX_ORDER - idx
  {
    if idx < BINS_MAX_ORDER && h.bins[idx] == [] { GetBlockLive(h, idx + 1); }
  }

  lemma {:induction false} MallocFromLive(h: Heap, size: nat, idx: nat, curr: nat)
    requires Shape(h)
    ensures var r := MallocFrom(h, size, idx, curr);
      r.1.memStart == h.memStart &&
      match r.0
      case None => r.1.live == h.live
      case Some(a) =>
        |r.1.live| == |h.live| + 1 && r.1.live[..|h.live|] == h.live &&
        r.1.live[|h.live|].addr == a && r.1.live[|h.live|].size >= size
    decreases BINS_MAX_ORDER + 1 - idx
  {
    if idx <= BINS_MAX_ORDER {
      if size > curr {
        MallocFromLive(h, size, idx + 1, 2 * curr);
      } else {
        GetBlockLive(h, idx);
        var o := GetBlock(h, idx);
        if o.0.None? { MallocFromLive(o.1, size, idx + 1, curr); }
      }
    }
  }

  /** An allocation keeps the heap's invariant; when it succeeds exactly one address becomes live,
      one that was not, of a block that is at least as long as the request. */
  lemma MallocOutcome(h: Heap, size: nat)
    requires BuddyRuns.Inv(h) && size <= MAX_BLOCK_SIZE
    ensures var r := Malloc(h, size);
      BuddyRuns.Inv(r.1) && r.1.memStart == h.memStart &&
      match r.0
      case None => r.1.live == h.live
      case Some(a) =>
        a >= h.memStart && !LiveAt(h, a) && |r.1.live| == |h.live| + 1 &&
        r.1.live[|h.live|].addr == a && BlkSize(r.1.live[|h.live|].bin) >= size &&
        forall p :: LiveAt(r.1, p) <==> LiveAt(h, p) || p == a
  {
    BuddyRuns.MallocBounded(h, size);
    BuddyRuns.MallocTiled(h, size);
    MallocFromLive(h, size, 0, MIN_BLOCK_SIZE);
    var r := Malloc(h, size);
    if r.0.Some? {
      var n, g := |h.live|, r.1;
      assert forall i :: 0 <= i < n ==> h.live[i] == g.live[i] by {
        assert forall i :: 0 <= i < n ==> g.live[..n][i] == g.live[i];
      }
      forall i | 0 <= i < n ensures g.live[i].addr != g.live[n].addr { LiveDistinct(g, i, n); }
      LivePositive(g, n);
      forall p ensures LiveAt(g, p) <==> LiveAt(h, p) || p == r.0.value { LiveAppend(h, g, p); }
    }
  }

  lemma LiveAppend(h: Heap, g: Heap, p: int)
    requires |g.live| == |h.live| + 1 && forall i :: 0 <= i < |h.live| ==> h.live[i] == g.live[i]
    ensures LiveAt(g, p) <==> LiveAt(h, p) || p == g.live[|h.live|].addr
  {
    var s, t := SearchLive(h.live, p), SearchLive(g.live, p);
    if s.Some? { assert g.live[s.value].addr == p; }
    if t.Some? && t.value < |h.live| { assert h.live[t.value].addr == p; }
  }

  /** A free of a live address keeps the invariant and makes that address, and no other, not live;
      any other free changes nothing. */
  lemma FreeOutcome(h: Heap, p: int)
    requires BuddyRuns.Inv(h)
    ensures BuddyRuns.Inv(Free(h, p)) && Free(h, p).memStart == h.memStart
    ensures !LiveAt(h, p) ==> Free(h, p) == h
    ensures LiveAt(h, p) ==> |Free(h, p).live| == |h.live| - 1
    ensures LiveAt(h, p) ==> forall q :: LiveAt(Free(h, p), q) <==> LiveAt(h, q) && q != p
  {
    BuddyRuns.FreeBounded(h, p);
    BuddyRuns.FreeTiled(h, p);
    if LiveAt(h, p) {
      var i := SearchLive(h.live, p).value;
      forall q ensures LiveAt(Free(h, p), q) <==> LiveAt(h, q) && q != p {
        forall j | 0 <= j < |h.live| && j != i ensures h.live[j].addr != p {
          if j < i { LiveDistinct(h, j, i); } else { LiveDistinct(h, i, j); }
        }
        LiveRemove(h, Free(h, p), i, q);
      }
    }
  }

  lemma LiveRemove(h: Heap, g: Heap, i: nat, q: int)
    requires i < |h.live| && g.live == h.live[..i] + h.live[i + 1..]
    requires forall j :: 0 <= j < |h.live| && j != i ==> h.live[j].addr != h.live[i].addr
    ensures LiveAt(g, q) <==> LiveAt(h, q) && q != h.live[i].addr
  {
    var s, t := SearchLive(h.live, q), SearchLive(g.live, q);
    if s.Some? && s.value != i { assert g.live[if s.value < i then s.value else s.value - 1] == h.live[s.value]; }
    if t.Some? { assert g.live[t.value] == h.live[if t.value < i then t.value else t.value + 1]; }
  }
}
