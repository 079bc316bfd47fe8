/** Writing to an open file: overwriting its clusters and growing its chain. */
module FatWrite {
  import opened Bytes
  import opened Products
  import opened FatSpec
  import opened FatVolume
  import opened FatGrowth

  ghost predicate Grown(v: Volume, s: Before, ch: seq<nat>, open: bool, done: seq<Byte>)
    reads v, v.fat, v.data
  {
    v.Valid() && Going(v.fat[..], v.data[..], v.nxtFree, v.cs, s, ch, open, done)
  }

  /** Where the write stands: nothing allocated yet, inside a cluster, or at a cluster's end. */
  ghost predicate Standing(v: Volume, f: OpenFile, ch: seq<nat>, i: nat, pos: nat, rest: nat)
    reads v, v.fat, f
  {
    if ch == [] then f.strt == 0 && f.cur == 0 && f.off == 0 && pos == 0
    else
      f.strt == ch[0] && i < |ch| &&
      if f.off < v.cs then f.cur == ch[i] && pos == Times(i, v.cs) + f.off
      else
        f.off == v.cs && pos == Times(i, v.cs) + v.cs && ch[i] < v.fat.Length && f.cur == v.fat[ch[i]] &&
        (rest > 0 ==> i == |ch| - 1)
  }

  /** Bytes into the current cluster. */
  method WriteChunk(v: Volume, at: nat, b: seq<Byte>, done: nat, n: nat,
      ghost s: Before, ghost ch: seq<nat>, ghost open: bool, ghost i: nat, ghost off: nat)
    requires i < |ch| && off + n <= v.cs && done + n <= |b| && Grown(v, s, ch, open, b[..done])
    requires at == Times(ch[i] - 2, v.cs) + off && s.p + done == Times(i, v.cs) + off
    modifies v.data
    ensures Grown(v, s, ch, open, b[..done + n])
  {
    PutStep(v.fat[..], v.data[..], v.nxtFree, v.cs, s, ch, open, b[..done], i, off, b[done..done + n]);
    assert b[..done] + b[done..done + n] == b[..done + n];
    CopyIn(v.data, at, b, done, n);
  }

  /** One copying round of the write loop. */
  method CopyRound(v: Volume, f: OpenFile, b: seq<Byte>, done: nat, ghost s: Before, ghost ch: seq<nat>,
      ghost open: bool, ghost i: nat)
      returns (n: nat, prev: nat, ghost i': nat)
    requires done < |b| && Grown(v, s, ch, open, b[..done]) && ch != [] && f.off < v.cs
    requires Standing(v, f, ch, i, s.p + done, |b| - done)
    modifies f`cur, f`off, v.data
    ensures 0 < n && done + n <= |b| && Grown(v, s, ch, open, b[..done + n])
    ensures Standing(v, f, ch, i', s.p + done + n, |b| - (done + n)) && (f.off == v.cs ==> prev == ch[i'])
    ensures done + n == |b| ==> f.off > 0
  {
    n, prev, i' := Chunk(|b|, done, f.off, v.cs), f.cur, i;
    WriteChunk(v, v.ClusterAddr(f.cur) + f.off, b, done, n, s, ch, open, i, f.off);
    f.off := f.off + n;
    if f.off == v.cs {
      if i + 1 < |ch| { assert v.fat[..][ch[i]] == ch[i + 1]; }
      f.cur := v.fat[f.cur];
    }
    if f.cur != 0 && f.cur != END_OF_CLUSTER && f.cur != END_OF_ROOT_CLUSTER && |b| - (done + n) != 0 {
      f.off := 0;
      i' := i + 1;
    }
  }

  /** Enough free entries above the last cluster given out to reach position `want`. */
  ghost predicate Room(v: Volume, clusters: nat, want: nat)
    reads v, v.fat
  {
    RoomIn(v.fat[..], v.nxtFree, v.cs, clusters, want)
  }

  lemma SomeRoom(v: Volume, clusters: nat, pos: nat, rest: nat)
    requires rest > 0 && pos == Times(clusters, v.cs) && Room(v, clusters, pos + rest)
    ensures Free(v.fat[..], v.nxtFree + 1) > 0
  {
  }

  /** Gives out a cluster and hangs it onto the chain. */
  method NewCluster(v: Volume, f: OpenFile, prev: nat, cnt: nat, ghost s: Before, ghost ch: seq<nat>,
      ghost done: seq<Byte>, ghost want: nat)
    returns (c: nat)
    requires Grown(v, s, ch, cnt > 0, done) && Free(v.fat[..], v.nxtFree + 1) > 0 && Room(v, |ch|, want)
    requires if ch == [] then f.cur == f.strt == cnt == 0 else prev == ch[|ch| - 1] && f.strt == ch[0]
    modifies f`strt, v`nxtFree, v.fat
    ensures Grown(v, s, ch + [c], true, done) && f.strt == (ch + [c])[0]
    ensures Room(v, |ch| + 1, want)
  {
    ghost var fat, nxt := v.fat[..], v.nxtFree;
    c := v.AllocateCluster();
    HangStep(fat, v.data[..], nxt, v.cs, s, ch, cnt > 0, done, c);
    HangRoom(fat, nxt, v.cs, ch, c, want);
    HangCluster(v, f, prev, cnt, c, ch);
  }

  lemma StandsAtEnd(v: Volume, f: OpenFile, ch: seq<nat>, i: nat, pos: nat, rest: nat)
    requires Standing(v, f, ch, i, pos, rest) && rest > 0 && (ch != [] ==> f.off == v.cs > 0)
    ensures pos == Times(|ch|, v.cs) && if ch == [] then f.strt == f.cur == 0 else f.strt == ch[0]
  {
  }

  /** The round that allocates: the new cluster becomes the first of an empty file, or is hung onto
      the last one. */
  method AllocRound(v: Volume, f: OpenFile, prev: nat, cnt: nat, ghost s: Before, ghost ch: seq<nat>, ghost i: nat,
      ghost done: seq<Byte>, ghost rest: nat)
      returns (c: nat)
    requires Grown(v, s, ch, cnt > 0, done) && rest > 0
    requires if ch == [] then cnt == 0 else f.off == v.cs && prev == ch[|ch| - 1]
    requires Standing(v, f, ch, i, s.p + |done|, rest) && Room(v, |ch|, s.p + |done| + rest)
    modifies f`strt, f`cur, f`off, v`nxtFree, v.fat
    ensures Grown(v, s, ch + [c], true, done) && Standing(v, f, ch + [c], |ch|, s.p + |done|, rest) && f.off < v.cs
    ensures Room(v, |ch| + 1, s.p + |done| + rest)
  {
    StandsAtEnd(v, f, ch, i, s.p + |done|, rest);
    SomeRoom(v, |ch|, s.p + |done|, rest);
    c := NewCluster(v, f, prev, cnt, s, ch, done, s.p + |done| + rest);
    Enter(v, f, c, ch, s.p + |done|, rest);
  }

  /** The position moves to the start of the new cluster. */
  method Enter(v: Volume, f: OpenFile, c: nat, ghost ch: seq<nat>, ghost pos: nat, ghost rest: nat)
    requires f.strt == (ch + [c])[0] && v.cs > 0 && pos == Times(|ch|, v.cs)
    modifies f`cur, f`off
    ensures Standing(v, f, ch + [c], |ch|, pos, rest) && f.off < v.cs
  {
    f.cur := c;
    f.off := 0;
  }

  /** The new cluster starts an empty file; otherwise the last cluster's entry names it. */
  method HangCluster(v: Volume, f: OpenFile, prev: nat, cnt: nat, c: nat, ghost ch: seq<nat>)
    requires InTable(ch, v.fat.Length)
    requires (if ch == [] then f.cur == f.strt == cnt == 0 else prev == ch[|ch| - 1] && f.strt == ch[0])
    modifies f`strt, v.fat
    ensures v.fat[..] == Hung(old(v.fat[..]), ch, c) && f.strt == (ch + [c])[0]
  {
    if cnt == 0 && f.cur == 0 && f.strt == 0 {
      f.strt := c;
    } else {
      v.fat[prev] := c;
    }
  }

  /** The loop's state after `done` bytes: `cnt` clusters allocated, `newCluster` the last of them. */
  ghost predicate Mid(v: Volume, f: OpenFile, b: seq<Byte>, done: nat, cnt: nat, newCluster: nat, prev: nat,
      s: Before, ch: seq<nat>, i: nat)
    reads v, v.fat, v.data, f
  {
    done <= |b| && Grown(v, s, ch, cnt > 0, b[..done]) && Standing(v, f, ch, i, s.p + done, |b| - done) &&
    (if ch == [] then cnt == 0 else f.off == v.cs && done < |b| ==> prev == ch[|ch| - 1]) &&
    (done == |b| && b != [] ==> f.off > 0) && (cnt > 0 ==> newCluster == ch[|ch| - 1]) && Room(v, |ch|, s.p + |b|) &&
    (|ch| > |s.ch| ==> Times(|ch| - 1, v.cs) < s.p + |b|)
  }

  method CopyMid(v: Volume, f: OpenFile, b: seq<Byte>, done: nat, cnt: nat, newCluster: nat, prev: nat,
      ghost s: Before, ghost ch: seq<nat>, ghost i: nat)
      returns (done': nat, prev': nat, ghost i': nat)
    requires Mid(v, f, b, done, cnt, newCluster, prev, s, ch, i) && done < |b| && ch != [] && f.off < v.cs
    modifies f`cur, f`off, v.data
    ensures Mid(v, f, b, done', cnt, newCluster, prev', s, ch, i') && done' > done
  {
    var n;
    n, prev', i' := CopyRound(v, f, b, done, s, ch, cnt > 0, i);
    done' := done + n;
  }

  method AllocMid(v: Volume, f: OpenFile, b: seq<Byte>, done: nat, cnt: nat, newCluster: nat, prev: nat,
      ghost s: Before, ghost ch: seq<nat>, ghost i: nat)
      returns (newCluster': nat, ghost ch': seq<nat>, ghost i': nat)
    requires Mid(v, f, b, done, cnt, newCluster, prev, s, ch, i) && done < |b| && (ch != [] ==> f.off == v.cs)
    modifies f`strt, f`cur, f`off, v`nxtFree, v.fat
    ensures Mid(v, f, b, done, cnt + 1, newCluster', prev, s, ch', i') && ch' != [] && f.off < v.cs
  {
    StandsAtEnd(v, f, ch, i, s.p + done, |b| - done);
    newCluster' := AllocRound(v, f, prev, cnt, s, ch, i, b[..done], |b| - done);
    ch', i' := ch + [newCluster'], |ch|;
  }

  method WriteRound(v: Volume, f: OpenFile, b: seq<Byte>, done: nat, cnt: nat, newCluster: nat, prev: nat,
      ghost s: Before, ghost ch: seq<nat>, ghost i: nat)
      returns (done': nat, cnt': nat, newCluster': nat, prev': nat, ghost ch': seq<nat>, ghost i': nat)
    requires Mid(v, f, b, done, cnt, newCluster, prev, s, ch, i) && done < |b|
    modifies f`strt, f`cur, f`off, v`nxtFree, v.fat, v.data
    ensures Mid(v, f, b, done', cnt', newCluster', prev', s, ch', i')
    ensures done' > done || (done' == done && ch' != [] && f.off < v.cs && old(ch == [] || f.off == v.cs))
  {
    done', cnt', newCluster', prev', ch', i' := done, cnt, newCluster, prev, ch, i;
    if f.cur != 0 && f.cur != END_OF_CLUSTER && f.cur != END_OF_ROOT_CLUSTER && v.cs - f.off != 0 {
      done', prev', i' := CopyMid(v, f, b, done, cnt, newCluster, prev, s, ch, i);
    } else {
      newCluster', ch', i' := AllocMid(v, f, b, done, cnt, newCluster, prev, s, ch, i);
      cnt' := cnt + 1;
    }
  }

  /** The write loop. */
  method WriteLoop(v: Volume, f: OpenFile, b: seq<Byte>, ghost s: Before, ghost i: nat)
      returns (written: nat, cnt: nat, newCluster: nat, ghost ch: seq<nat>, ghost i': nat)
    requires Mid(v, f, b, 0, 0, 0, 0, s, s.ch, i)
    modifies f`strt, f`cur, f`off, v`nxtFree, v.fat, v.data
    ensures Mid(v, f, b, written, cnt, newCluster, 0, s, ch, i') && written == |b|
  {
    var prev := 0;
    written, cnt, newCluster, ch, i' := 0, 0, 0, s.ch, i;
    while |b| - written > 0
      invariant Mid(v, f, b, written, cnt, newCluster, prev, s, ch, i')
      decreases |b| - written, ch == [] || f.off == v.cs
    {
      written, cnt, newCluster, prev, ch, i' := WriteRound(v, f, b, written, cnt, newCluster, prev, s, ch, i');
    }
  }

  /** The end mark of a chain that grew. */
  method MarkEnd(v: Volume, cnt: nat, newCluster: nat, ghost s: Before, ghost ch: seq<nat>, ghost b: seq<Byte>)
    requires Grown(v, s, ch, cnt > 0, b) && (cnt > 0 ==> newCluster == ch[|ch| - 1])
    modifies v.fat
    ensures Chain(v.fat[..], ch) && Untouched(s.fat, s.data, v.fat[..], v.data[..], s.ch, v.cs)
  {
    End(v.fat[..], v.data[..], v.nxtFree, v.cs, s, ch, cnt > 0, b);
    if cnt > 0 { v.fat[newCluster] := END_OF_CLUSTER; }
  }

  lemma Fits(a: nat, b: nat, cs: nat)
    requires a <= b
    ensures Times(a, cs) <= Times(b, cs)
  {
    if a < b { TimesOrder(a, b, cs); }
  }

  /** What the caller of a write can rely on: the chain, its bytes, and that others are untouched. */
  ghost predicate Done(v: Volume, f: OpenFile, b: seq<Byte>, s: Before, ch: seq<nat>, size0: nat)
    reads v, v.fat, v.data, f
  {
    Occupies(f, v, ch) && |s.fat| == v.fat.Length && Holds(s.data, |s.fat|, v.cs) && InTable(s.ch, |s.fat|) &&
    f.trav == s.p + |b| && f.size == Larger(size0, |b|) && Extends(s.fat, s.ch, ch) &&
    Written(v.Flat(ch), Content(s.data, s.ch, |s.fat|, v.cs), s.p, b) &&
    Untouched(s.fat, s.data, v.fat[..], v.data[..], s.ch, v.cs) &&
    (|ch| > |s.ch| ==> Times(|ch| - 1, v.cs) < f.trav)
  }

  /** Past the end of cluster `i` of the chain: the next cluster, or what the last entry held. */
  predicate PastEnd(cur: nat, ch: seq<nat>, i: nat) {
    i < |ch| && if i + 1 < |ch| then cur == ch[i + 1] else cur == 0 || IsEnd(cur)
  }

  lemma EntryPastEnd(fat: seq<nat>, ch: seq<nat>, open: bool, nxt: nat, i: nat)
    requires Growing(fat, ch, open, nxt) && i < |ch|
    ensures PastEnd(fat[ch[i]], ch, i)
  {
  }

  /** The position after writing `b`: exact, or at a cluster's end with the current cluster moved on. */
  ghost predicate Landed(v: Volume, f: OpenFile, b: seq<Byte>, ch: seq<nat>, i: nat)
    reads v, f
  {
    (b != [] ==> f.off > 0) &&
    if f.off < v.cs then At(f, v, ch, i)
    else f.off == v.cs && PastEnd(f.cur, ch, i) && f.trav == Times(i + 1, v.cs)
  }

  lemma PlaceMod(i: nat, off: nat, cs: nat)
    requires off <= cs && cs > 0
    ensures (Times(i, cs) + off) % cs == if off == cs then 0 else off
  {
    if off == cs { TimesMod(i + 1, 0, cs); } else { TimesMod(i, off, cs); }
  }

  /** After a write the current cluster and offset denote the position if and only if the position is no
      multiple of the cluster size. */
  lemma UsableIff(v: Volume, f: OpenFile, b: seq<Byte>, s: Before, ch: seq<nat>, size0: nat, i: nat)
    requires b != [] && Done(v, f, b, s, ch, size0) && Landed(v, f, b, ch, i)
    ensures (exists j: nat :: At(f, v, ch, j)) <==> (s.p + |b|) % v.cs != 0
  {
    PlaceMod(i, f.off, v.cs);
    if f.off < v.cs {
      assert At(f, v, ch, i);
    } else {
      ChainDistinct(v.fat[..], ch);
      forall j: nat ensures !At(f, v, ch, j) {
        assert j == i + 1 ==> f.trav != Times(j, v.cs) + f.off;
      }
    }
  }

  /** The start cluster and the place of position `pos` in the chain. */
  predicate Placed(f: OpenFile, ch: seq<nat>, i: nat, pos: nat, cs: nat)
    reads f
  {
    if ch == [] then f.strt == f.cur == f.off == pos == 0
    else f.strt == ch[0] && i < |ch| && f.off <= cs && pos == Times(i, cs) + f.off
  }

  /** Position and size after the loop. */
  method Account(v: Volume, f: OpenFile, b: seq<Byte>, ghost s: Before, ghost ch: seq<nat>, ghost i: nat)
    requires v.Valid() && Chain(v.fat[..], ch) && |s.fat| == v.fat.Length && Holds(s.data, |s.fat|, v.cs)
    requires InTable(s.ch, |s.fat|)
    requires Extends(s.fat, s.ch, ch) && Untouched(s.fat, s.data, v.fat[..], v.data[..], s.ch, v.cs)
    requires Written(v.Flat(ch), Content(s.data, s.ch, |s.fat|, v.cs), s.p, b) && |v.Flat(ch)| == Times(|ch|, v.cs)
    requires |ch| > |s.ch| ==> Times(|ch| - 1, v.cs) < s.p + |b|
    requires Placed(f, ch, i, s.p + |b|, v.cs)
    requires ch != [] ==> if f.off < v.cs then f.cur == ch[i] else PastEnd(f.cur, ch, i)
    requires b != [] ==> f.off > 0
    requires s.p == f.trav <= f.size <= Times(|s.ch|, v.cs)
    modifies f`trav, f`size
    ensures Done(v, f, b, s, ch, old(f.size)) && Landed(v, f, b, ch, i)
  {
    Fits(|s.ch|, |ch|, v.cs);
    f.trav := f.trav + |b|;
    if f.size < |b| { f.size := |b|; }
  }

  /** What the loop's state says once everything is written. */
  lemma MidEnds(v: Volume, f: OpenFile, b: seq<Byte>, cnt: nat, newCluster: nat, s: Before, ch: seq<nat>, i: nat)
    requires Mid(v, f, b, |b|, cnt, newCluster, 0, s, ch, i)
    ensures Grown(v, s, ch, cnt > 0, b) && |v.Flat(ch)| == Times(|ch|, v.cs)
    ensures Placed(f, ch, i, s.p + |b|, v.cs)
    ensures ch != [] ==> if f.off < v.cs then f.cur == ch[i] else PastEnd(f.cur, ch, i)
    ensures b != [] ==> f.off > 0
  {
    assert b[..|b|] == b;
    ContentLength(v.data[..], ch, v.fat.Length, v.cs);
    if ch != [] { EntryPastEnd(v.fat[..], ch, cnt > 0, v.nxtFree, i); }
  }

  method WriteAll(v: Volume, f: OpenFile, b: seq<Byte>, ghost s: Before, ghost i: nat)
    returns (written: nat, ghost ch: seq<nat>, ghost i': nat)
    requires Mid(v, f, b, 0, 0, 0, 0, s, s.ch, i) && s.p == f.trav <= f.size <= Times(|s.ch|, v.cs)
    modifies f`strt, f`cur, f`off, f`trav, f`size, v`nxtFree, v.fat, v.data
    ensures written == |b| && Done(v, f, b, s, ch, old(f.size)) && Landed(v, f, b, ch, i')
  {
    var cnt, newCluster;
    written, cnt, newCluster, ch, i' := WriteLoop(v, f, b, s, i);
    MidEnds(v, f, b, cnt, newCluster, s, ch, i');
    MarkEnd(v, cnt, newCluster, s, ch, b);
    Account(v, f, b, s, ch, i');
  }

  /** Writes `b` at the current position, which must be inside a cluster unless the file is empty;
      there must be room above the last cluster given out. */
  method FileWrite(v: Volume, f: OpenFile, b: seq<Byte>, ghost ch0: seq<nat>, ghost i: nat)
    returns (written: nat, ghost ch: seq<nat>, ghost i': nat)
    requires Occupies(f, v, ch0) && At(f, v, ch0, i) && f.trav <= f.size && (ch0 != [] ==> f.off < v.cs)
    requires Room(v, |ch0|, f.trav + |b|)
    modifies f`strt, f`cur, f`off, f`trav, f`size, v`nxtFree, v.fat, v.data
    ensures f.readOnly ==> written == 0 && unchanged(v, v.fat, v.data, f) && ch == ch0
    ensures !f.readOnly ==> written == |b| && Landed(v, f, b, ch, i')
    ensures !f.readOnly ==> Done(v, f, b, Before(old(v.fat[..]), old(v.data[..]), ch0, old(f.trav)), ch, old(f.size))
  {
    written, ch, i' := 0, ch0, i;
    if !f.readOnly {
      ghost var s := Before(v.fat[..], v.data[..], ch0, f.trav);
      Begin(v.fat[..], v.data[..], v.nxtFree, v.cs, ch0, f.trav);
      assert b[..0] == [];
      written, ch, i' := WriteAll(v, f, b, s, i);
    }
  }

  // ----- what a finished write means

  /** The user's bytes are the expected ones exactly when the write began at the start of the file or
      stayed inside it: the size field only counts the bytes of this call. */
  lemma TextAfter(v: Volume, f: OpenFile, b: seq<Byte>, s: Before, ch: seq<nat>, size0: nat)
    requires Done(v, f, b, s, ch, size0) && b != [] && s.p <= size0 <= |Content(s.data, s.ch, |s.fat|, v.cs)|
    ensures s.p == 0 || s.p + |b| <= size0 <==>
              Text(f, v, ch) == Splice(Content(s.data, s.ch, |s.fat|, v.cs)[..size0], s.p, b)
  {
    WriteExactIff(v.Flat(ch), Content(s.data, s.ch, |s.fat|, v.cs), size0, s.p, b);
  }

  /** Every other chain keeps its clusters and its bytes and stays disjoint from the written one. */
  lemma OtherFiles(v: Volume, f: OpenFile, b: seq<Byte>, s: Before, ch: seq<nat>, size0: nat, d: seq<nat>)
    requires Done(v, f, b, s, ch, size0) && Chain(s.fat, d) && Disjoint(s.ch, d) && |s.fat| <= END_OF_ROOT_CLUSTER
    ensures Chain(v.fat[..], d) && Disjoint(ch, d)
    ensures Content(v.data[..], d, v.fat.Length, v.cs) == Content(s.data, d, |s.fat|, v.cs)
  {
    forall k | 0 <= k < |d| ensures s.fat[d[k]] != 0 && d[k] !in s.ch {
      if k < |d| - 1 { assert s.fat[d[k]] == d[k + 1]; }
    }
    OtherFile(s.fat, v.fat[..], s.data, v.data[..], d, |s.fat|, v.cs);
    forall i, j | 0 <= i < |ch| && 0 <= j < |d| ensures ch[i] != d[j] {
      if i < |s.ch| { assert ch[i] == s.ch[i]; }
    }
  }

  /** After a first write to an empty file the text is `b`. */
  lemma FirstWriteText(v: Volume, f: OpenFile, b: seq<Byte>, s: Before, ch: seq<nat>)
    requires Done(v, f, b, s, ch, 0) && s.ch == [] && s.p == 0 && b != []
    ensures Text(f, v, ch) == b
  {
    TextAfter(v, f, b, s, ch, 0);
    assert Splice([], 0, b) == b;
  }

  /** It lies in the least number of clusters, none twice, all of them free before. */
  lemma FirstWriteChain(v: Volume, f: OpenFile, b: seq<Byte>, s: Before, ch: seq<nat>)
    requires Done(v, f, b, s, ch, 0) && s.ch == [] && s.p == 0 && b != []
    ensures ch != [] && Times(|ch| - 1, v.cs) < |b| <= Times(|ch|, v.cs) && Distinct(ch)
    ensures forall k :: 0 <= k < |ch| ==> ch[k] < |s.fat| && s.fat[ch[k]] == 0
  {
    ChainDistinct(v.fat[..], ch);
  }

  /** Write to a new file, go to byte `k`, read `m` bytes. */
  method WriteSeekRead(v: Volume, f: OpenFile, b: seq<Byte>, k: nat, m: nat, buffer: array<Byte>)
    returns (r: int, ghost ch: seq<nat>)
    requires Occupies(f, v, []) && At(f, v, [], 0) && f.size == 0 && !f.readOnly && b != [] && Room(v, 0, |b|)
    requires k <= |b| && buffer != v.data && Min(m, |b| - k) <= buffer.Length
    modifies f, v`nxtFree, v.fat, v.data, buffer
    ensures Occupies(f, v, ch) && Text(f, v, ch) == b && f.trav == k + r
    ensures r == Min(m, |b| - k) && buffer[..r] == b[k..k + r] && buffer[r..] == old(buffer[..])[r..]
  {
    ghost var s := Before(v.fat[..], v.data[..], [], 0);
    ghost var i, j;
    r, ch, i := FileWrite(v, f, b, [], 0);
    FirstWriteText(v, f, b, s, ch);
    FirstWriteChain(v, f, b, s, ch);
    r, j := FileSeek(v, f, k, SeekSet, ch, i);
    r, j := FileRead(v, f, buffer, m, ch, j);
  }
}
