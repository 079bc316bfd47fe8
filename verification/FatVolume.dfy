/** A mounted volume and the operations on one open file: allocation, reading, seeking, writing. */
module FatVolume {
  import opened Bytes
  import opened Products
  import opened FatSpec

  /** The file allocation table, the data area (cluster 2 first, one sector per cluster) and the
      last cluster given out. */
  class Volume {
    const fat: array<nat>
    const data: array<Byte>
    const cs: nat
    var nxtFree: nat

    constructor (fat: array<nat>, data: array<Byte>, cs: nat, nxtFree: nat)
      ensures this.fat == fat && this.data == data && this.cs == cs && this.nxtFree == nxtFree
    {
      this.fat, this.data, this.cs, this.nxtFree := fat, data, cs, nxtFree;
    }

    /** Cluster numbers stay below the end marks, and the 16-bit offset can reach the cluster size. */
    ghost predicate Valid() reads this {
      0 < cs < 0x1_0000 && fat.Length <= END_OF_ROOT_CLUSTER && fat.Length >= 2 &&
      data.Length == Times(fat.Length - 2, cs) && nxtFree >= 1
    }

    /** The bytes of a chain, its slack included. */
    ghost function Flat(ch: seq<nat>): (r: seq<Byte>)
      reads this, fat, data
      requires Valid() && InTable(ch, fat.Length)
    {
      Content(data[..], ch, fat.Length, cs)
    }

    /** The first free entry after the last one given out; the entry itself is left free. */
    method AllocateCluster() returns (c: nat)
      requires Valid() && Free(fat[..], nxtFree + 1) > 0
      modifies this`nxtFree
      ensures Valid() && old(nxtFree) < c < fat.Length && nxtFree == c
      ensures fat[c] == 0 && forall k :: old(nxtFree) < k < c ==> fat[k] != 0
      ensures Free(fat[..], old(nxtFree) + 1) == 1 + Free(fat[..], c + 1)
    {
      c := nxtFree + 1;
      while fat[c] != 0
        invariant nxtFree < c < fat.Length && forall k :: nxtFree < k < c ==> fat[k] != 0
        invariant Free(fat[..], nxtFree + 1) == Free(fat[..], c) > 0
        decreases fat.Length - c
      {
        c := c + 1;
      }
      nxtFree := c;
    }

    /** The address of a cluster, relative to the root directory (cluster 2). */
    function ClusterAddr(c: nat): (a: nat)
      requires c >= 2
      ensures a == Times(c - 2, cs)
    {
      TimesIs(c - 2, cs);
      ClusterAddrIs(c, cs);
      cs + (c - 3) * cs
    }
  }

  lemma ClusterAddrIs(c: nat, cs: nat)
    requires c >= 2
    ensures cs + (c - 3) * cs == (c - 2) * cs
  {
  }

  class OpenFile {
    var strt: nat
    var cur: nat
    var off: nat
    var size: nat
    var trav: nat
    var readOnly: bool

    constructor (strt: nat, size: nat, readOnly: bool)
      ensures this.strt == strt && cur == strt && off == 0 && this.size == size && trav == 0
      ensures this.readOnly == readOnly
    {
      this.strt, cur, off, this.size, trav, this.readOnly := strt, strt, 0, size, 0, readOnly;
    }
  }

  // ----- what an open file stands for

  /** The file occupies the chain `ch`, which is long enough for its size. */
  ghost predicate Occupies(f: OpenFile, v: Volume, ch: seq<nat>)
    reads f, v, v.fat
  {
    v.Valid() && Chain(v.fat[..], ch) && f.size <= Times(|ch|, v.cs) &&
    if ch == [] then f.strt == 0 else f.strt == ch[0]
  }

  /** The current cluster and offset denote position `trav`; `i` is the cluster's place in the
      chain.  At the end of a cluster the offset is the cluster size. */
  ghost predicate At(f: OpenFile, v: Volume, ch: seq<nat>, i: nat)
    reads f, v
  {
    if ch == [] then f.trav == f.off == f.cur == 0
    else i < |ch| && f.cur == ch[i] && f.off <= v.cs && f.trav == Times(i, v.cs) + f.off
  }

  /** The file as its user sees it. */
  ghost function Text(f: OpenFile, v: Volume, ch: seq<nat>): (r: seq<Byte>)
    reads f, v, v.fat, v.data
    requires Occupies(f, v, ch)
    ensures |r| == f.size
  {
    ContentLength(v.data[..], ch, v.fat.Length, v.cs);
    v.Flat(ch)[..f.size]
  }

  function Min(a: nat, b: nat): nat { if a <= b then a else b }

  // ----- reading

  lemma PutMore(s: seq<Byte>, u: seq<Byte>, w: seq<Byte>)
    requires |u| + |w| <= |s|
    ensures Put(Put(s, 0, u), |u|, w) == Put(s, 0, u + w)
  {
  }

  lemma ReadMore(s: seq<Byte>, content: seq<Byte>, p: nat, k: nat, n: nat)
    requires p + k + n <= |content| && k + n <= |s|
    ensures Put(Put(s, 0, content[p..p + k]), k, content[p + k..p + k + n]) == Put(s, 0, content[p..p + k + n])
  {
    assert content[p..p + k + n] == content[p..p + k] + content[p + k..p + k + n];
    PutMore(s, content[p..p + k], content[p + k..p + k + n]);
  }

  /** How much one round copies: what is left, but not past the cluster. */
  function Chunk(total: nat, done: nat, off: nat, cs: nat): (n: nat)
    requires done <= total && off <= cs
    ensures n == Min(total - done, cs - off)
  {
    var left := if cs - (total - done) > 0 then total - done else cs;
    if cs - off > left then left else cs - off
  }

  /** One copy of a read: `n` bytes from the current place of the chain. */
  method ReadChunk(v: Volume, f: OpenFile, buffer: array<Byte>, done: nat, n: nat,
      ghost ch: seq<nat>, ghost i: nat, ghost p: nat, ghost s: seq<Byte>, ghost content: seq<Byte>)
    requires v.Valid() && InTable(ch, v.fat.Length) && i < |ch| && f.cur == ch[i] && f.off + n <= v.cs
    requires v.Flat(ch) == content
    requires p + done == Times(i, v.cs) + f.off && p + done <= |content| && done + n <= |s| && buffer != v.data
    requires buffer[..] == Put(s, 0, content[p..p + done])
    modifies buffer
    ensures p + done + n <= |content| && buffer[..] == Put(s, 0, content[p..p + done + n])
  {
    ChunkBytes(v, ch, i, f.off, n);
    ReadMore(s, content, p, done, n);
    CopyOut(buffer, done, v.data, v.ClusterAddr(f.cur) + f.off, n);
  }

  /** Following the table from a cluster whose end is not the end of the chain. */
  lemma NextCluster(fat: seq<nat>, ch: seq<nat>, i: nat, p: nat, size: nat, cs: nat)
    requires Chain(fat, ch) && i < |ch| && p == Times(i, cs) + cs < size <= Times(|ch|, cs)
    ensures i + 1 < |ch| && fat[ch[i]] == ch[i + 1] && p == Times(i + 1, cs)
  {
    assert Times(i + 1, cs) == Times(i, cs) + cs;
  }

  lemma ChunkBytes(v: Volume, ch: seq<nat>, i: nat, off: nat, n: nat)
    requires v.Valid() && InTable(ch, v.fat.Length) && i < |ch| && off + n <= v.cs
    ensures Times(ch[i] - 2, v.cs) + off + n <= v.data.Length && Times(i, v.cs) + off + n <= |v.Flat(ch)|
    ensures v.Flat(ch)[Times(i, v.cs) + off..Times(i, v.cs) + off + n]
         == v.data[Times(ch[i] - 2, v.cs) + off..Times(ch[i] - 2, v.cs) + off + n]
  {
    ContentSlice(v.data[..], ch, i, off, n, v.fat.Length, v.cs);
    ghost var a := Times(ch[i] - 2, v.cs) + off;
    assert v.data[..][a..a + n] == v.data[a..a + n];
  }

  /** One round of the read loop: a copy, or a step to the next cluster. */
  method ReadRound(v: Volume, f: OpenFile, buffer: array<Byte>, total: nat, done: nat,
      ghost ch: seq<nat>, ghost i: nat, ghost p: nat, ghost s: seq<Byte>, ghost content: seq<Byte>)
    returns (n: nat, ghost i': nat)
    requires v.Valid() && Chain(v.fat[..], ch) && i < |ch| && f.cur == ch[i] && f.off <= v.cs && buffer != v.data
    requires v.Flat(ch) == content && done < total <= |s|
    requires p + done == Times(i, v.cs) + f.off && p + total <= Times(|ch|, v.cs) == |content|
    requires buffer[..] == Put(s, 0, content[p..p + done])
    modifies f`cur, f`off, buffer
    ensures done + n <= total && i' < |ch| && f.cur == ch[i'] && f.off <= v.cs
    ensures p + done + n == Times(i', v.cs) + f.off
    ensures buffer[..] == Put(s, 0, content[p..p + done + n])
    ensures n > 0 || i' == i + 1
  {
    n, i' := 0, i;
    if v.cs - f.off != 0 {
      n := Chunk(total, done, f.off, v.cs);
      ReadChunk(v, f, buffer, done, n, ch, i, p, s, content);
      f.off := f.off + n;
    } else {
      NextCluster(v.fat[..], ch, i, p + done, p + total, v.cs);
      f.cur := v.fat[f.cur];
      f.off := 0;
      i' := i + 1;
    }
  }

  /** Where a read stands: `done` bytes are copied and the place is `p + done`. */
  ghost predicate Reading(v: Volume, f: OpenFile, buffer: array<Byte>, done: nat, total: nat, ch: seq<nat>, i: nat,
      p: nat, s: seq<Byte>, content: seq<Byte>)
    reads v, v.fat, v.data, f, buffer
  {
    v.Valid() && Chain(v.fat[..], ch) && v.Flat(ch) == content && done <= total <= |s| &&
    p + total <= Times(|ch|, v.cs) == |content| && buffer[..] == Put(s, 0, content[p..p + done]) &&
    if ch == [] then f.cur == f.off == 0
    else i < |ch| && f.cur == ch[i] && f.off <= v.cs && p + done == Times(i, v.cs) + f.off
  }

  method ReadLoop(v: Volume, f: OpenFile, buffer: array<Byte>, total: nat,
      ghost ch: seq<nat>, ghost i: nat, ghost p: nat, ghost s: seq<Byte>, ghost content: seq<Byte>)
    returns (bytesRead: nat, ghost i': nat)
    requires Reading(v, f, buffer, 0, total, ch, i, p, s, content) && buffer != v.data
    modifies f`cur, f`off, buffer
    ensures bytesRead == total && Reading(v, f, buffer, total, total, ch, i', p, s, content)
  {
    bytesRead, i' := 0, i;
    var rest := total;
    while rest > 0
      invariant 0 <= rest == total - bytesRead && Reading(v, f, buffer, bytesRead, total, ch, i', p, s, content)
      decreases rest, |ch| - i'
    {
      if f.cur != END_OF_CLUSTER && f.cur != END_OF_ROOT_CLUSTER {
        var n;
        n, i' := ReadRound(v, f, buffer, total, bytesRead, ch, i', p, s, content);
        rest, bytesRead := rest - n, bytesRead + n;
      } else {
        break;
      }
    }
  }

  /** Copies the wanted bytes, at most to the end of the file, and advances. */
  method FileRead(v: Volume, f: OpenFile, buffer: array<Byte>, bytesToRead: nat, ghost ch: seq<nat>, ghost i: nat)
      returns (bytesRead: nat, ghost i': nat)
    requires Occupies(f, v, ch) && At(f, v, ch, i) && f.trav <= f.size
    requires buffer != v.data && Min(bytesToRead, f.size - f.trav) <= buffer.Length
    modifies f`cur, f`off, f`trav, buffer
    ensures bytesRead == Min(bytesToRead, f.size - old(f.trav))
    ensures Occupies(f, v, ch) && At(f, v, ch, i') && f.trav == old(f.trav) + bytesRead
    ensures buffer[..] == Put(old(buffer[..]), 0, Text(f, v, ch)[old(f.trav)..f.trav])
  {
    ghost var p, content, s := f.trav, v.Flat(ch), buffer[..];
    ContentLength(v.data[..], ch, v.fat.Length, v.cs);
    var total := if bytesToRead > f.size - f.trav then f.size - f.trav else bytesToRead;
    assert s == Put(s, 0, content[p..p]);
    SliceSlice(content, 0, f.size, p, total);
    bytesRead, i' := ReadLoop(v, f, buffer, total, ch, i, p, s, content);
    f.trav := f.trav + bytesRead;
  }

  /** Two reads in a row give what one longer read would have given. */
  method ReadTwice(v: Volume, f: OpenFile, buffer: array<Byte>, m: nat, more: array<Byte>, m': nat,
      ghost ch: seq<nat>, ghost i: nat)
      returns (r: nat, r': nat, ghost i': nat)
    requires Occupies(f, v, ch) && At(f, v, ch, i) && f.trav <= f.size && buffer != v.data && more != v.data
    requires buffer != more
    requires Min(m, f.size - f.trav) <= buffer.Length && Min(m', f.size - f.trav) <= more.Length
    modifies f`cur, f`off, f`trav, buffer, more
    ensures r + r' == Min(m + m', f.size - old(f.trav)) && r <= buffer.Length && r' <= more.Length
    ensures Occupies(f, v, ch) && At(f, v, ch, i') && f.trav == old(f.trav) + r + r'
    ensures buffer[..r] + more[..r'] == Text(f, v, ch)[old(f.trav)..f.trav]
  {
    ghost var p, text := f.trav, Text(f, v, ch);
    r, i' := FileRead(v, f, buffer, m, ch, i);
    assert buffer[..][..r] == buffer[..r] && buffer[..r] == text[p..p + r];
    r', i' := FileRead(v, f, more, m', ch, i');
    assert more[..][..r'] == more[..r'] && more[..r'] == text[p + r..p + r + r'];
    assert text[p..p + r] + text[p + r..p + r + r'] == text[p..p + r + r'];
  }

  // ----- seeking

  /** How far into its cluster a walk starts: from a cluster's end it starts that cluster again. */
  function Start(off: nat, cs: nat): nat { if off == cs then 0 else off }

  /** One copy-free round of the walk: to the target or to the end of this cluster. */
  method SeekRound(v: Volume, f: OpenFile, c: nat, rest: nat, ghost ch: seq<nat>, ghost j: nat, ghost target: nat)
      returns (c': nat, n: nat)
    requires v.Valid() && Chain(v.fat[..], ch) && j < |ch| && c == ch[j] && f.off < v.cs && rest > 0
    requires Times(j, v.cs) + f.off + rest == target <= Times(|ch|, v.cs)
    modifies f`cur, f`off
    ensures 0 < n <= rest && f.cur == c
    ensures n == rest ==> f.off <= v.cs && Times(j, v.cs) + f.off == target
    ensures n < rest ==> j + 1 < |ch| && c' == ch[j + 1] && f.off == 0 && Times(j + 1, v.cs) + (rest - n) == target
  {
    f.cur, c' := c, c;
    n := Chunk(rest, 0, f.off, v.cs);
    f.off := f.off + n;
    if n < rest { NextCluster(v.fat[..], ch, j, target - (rest - n), target, v.cs); }
    if f.off == v.cs { c' := v.fat[c']; }
    if c' != 0 && c' != END_OF_CLUSTER && c' != END_OF_ROOT_CLUSTER && rest - n != 0 { f.off := 0; }
  }

  /** The loop of the walk, counting the clusters it enters. */
  method SeekLoop(v: Volume, f: OpenFile, strt: nat, offset: nat, ghost ch: seq<nat>, ghost j: nat, ghost target: nat)
    returns (clusCnt: nat)
    requires v.Valid() && Chain(v.fat[..], ch) && j < |ch| && strt == ch[j] && f.off <= v.cs
    requires Times(j, v.cs) + Start(f.off, v.cs) + offset == target <= Times(|ch|, v.cs)
    modifies f`cur, f`off
    ensures offset == 0 ==> clusCnt == 0 && f.off == old(f.off)
    ensures offset > 0 ==> clusCnt > 0 && j + clusCnt <= |ch| && f.cur == ch[j + clusCnt - 1] && f.off <= v.cs
    ensures offset > 0 ==> Times(j + clusCnt - 1, v.cs) + f.off == target
  {
    var c, rest := strt, offset;
    clusCnt := 0;
    while rest > 0
      invariant 0 <= rest <= offset && f.off <= v.cs && (offset == 0 ==> clusCnt == 0 && f.off == old(f.off))
      invariant rest > 0 ==> j + clusCnt < |ch| && c == ch[j + clusCnt]
      invariant rest > 0 ==> Times(j + clusCnt, v.cs) + Start(f.off, v.cs) + rest == target
      invariant rest == 0 < offset ==> clusCnt > 0 && j + clusCnt <= |ch| && f.cur == ch[j + clusCnt - 1]
      invariant rest == 0 < offset ==> Times(j + clusCnt - 1, v.cs) + f.off == target
      decreases rest, f.off
    {
      if v.cs - f.off != 0 && c != 0 {
        var n;
        c, n := SeekRound(v, f, c, rest, ch, j + clusCnt, target);
        rest, clusCnt := rest - n, clusCnt + 1;
      } else {
        f.off := 0;
      }
    }
  }

  /** Walks `offset` bytes from the start cluster.  Inside the file the table does not end, so no
      cluster is allocated. */
  method GetSeekOff(v: Volume, f: OpenFile, strt: nat, offset: nat, ghost ch: seq<nat>, ghost j: nat)
      returns (r: int, ghost i: nat)
    requires v.Valid() && Chain(v.fat[..], ch) && j < |ch| && strt == ch[j] && f.off <= v.cs
    requires Times(j, v.cs) + Start(f.off, v.cs) + offset <= Times(|ch|, v.cs)
    modifies f`cur, f`off
    ensures r == Start(old(f.off), v.cs) + offset
    ensures old(f.off) < v.cs || offset > 0 ==> j <= i < |ch| && f.cur == ch[i] && f.off <= v.cs
    ensures old(f.off) < v.cs || offset > 0 ==>
              Times(i, v.cs) + f.off == Times(j, v.cs) + Start(old(f.off), v.cs) + offset
  {
    i := j;
    if offset + f.off < v.cs && strt != 0 {
      f.off := f.off + offset;
      f.cur := strt;
      r := f.off;
    } else {
      var clusCnt := SeekLoop(v, f, strt, offset, ch, j, Times(j, v.cs) + Start(f.off, v.cs) + offset);
      r := (clusCnt - 1) * v.cs + f.off;
      if clusCnt > 0 {
        i := j + clusCnt - 1;
        TimesIs(clusCnt - 1, v.cs);
        TimesAdd(j, clusCnt - 1, v.cs);
      }
    }
  }

  datatype Whence = SeekSet | SeekCur | SeekEnd

  /** The position asked for. */
  function Target(f: OpenFile, offset: int, whence: Whence): int
    reads f
  {
    match whence
    case SeekSet => offset
    case SeekCur => f.trav + offset
    case SeekEnd => f.size + offset
  }

  /** The seeks that come out one cluster short: from a position held as the end of a cluster, and
      to the end of a file that fills its last cluster. */
  predicate Short(f: OpenFile, cs: nat, clusters: nat, offset: int, whence: Whence)
    reads f
  {
    offset >= 0 && ((whence == SeekCur && f.off == cs) || (whence == SeekEnd && f.size == Times(clusters, cs)))
  }

  /** The last cluster of a chain, and how many there are. */
  method LastCluster(v: Volume, f: OpenFile, ghost ch: seq<nat>) returns (clusCnt: nat)
    requires v.Valid() && Chain(v.fat[..], ch) && ch != [] && f.strt == ch[0]
    modifies f`cur
    ensures clusCnt == |ch| && f.cur == ch[clusCnt - 1]
  {
    var c := f.strt;
    clusCnt := 0;
    while c != END_OF_CLUSTER && c != END_OF_ROOT_CLUSTER
      invariant clusCnt <= |ch| && (clusCnt > 0 ==> f.cur == ch[clusCnt - 1])
      invariant if clusCnt < |ch| then c == ch[clusCnt] else IsEnd(c)
      decreases |ch| - clusCnt
    {
      f.cur := c;
      c := v.fat[c];
      clusCnt := clusCnt + 1;
    }
  }

  /** Moves to a position inside the file, `offset` bytes from its start, from the current position
      or from its end, and returns the new position - or one cluster less. */
  method FileSeek(v: Volume, f: OpenFile, offset: int, whence: Whence, ghost ch: seq<nat>, ghost i: nat)
      returns (r: int, ghost i': nat)
    requires Occupies(f, v, ch) && ch != [] && Times(|ch| - 1, v.cs) < f.size && (whence == SeekCur ==> At(f, v, ch, i))
    requires (whence == SeekSet && offset < 0) || 0 <= Target(f, offset, whence) <= f.size
    modifies f`cur, f`off, f`trav
    ensures Occupies(f, v, ch)
    ensures whence == SeekSet && offset < 0 ==> r == -1 && unchanged(f)
    ensures whence != SeekSet || offset >= 0 ==>
              r == f.trav == old(Target(f, offset, whence) - if Short(f, v.cs, |ch|, offset, whence) then v.cs else 0)
    ensures whence != SeekSet || offset >= 0 ==> old(Short(f, v.cs, |ch|, offset, whence)) || At(f, v, ch, i')
  {
    i' := i;
    var mode, off := whence, offset;
    if offset < 0 {
      match whence {
        case SeekCur => off, mode := f.trav + offset, SeekSet;
        case SeekEnd => off, mode := f.size + offset, SeekSet;
        case SeekSet => return -1, i;
      }
    }
    match mode {
      case SeekSet =>
        f.off := 0;
        r, i' := GetSeekOff(v, f, f.strt, off, ch, 0);
      case SeekCur =>
        var before := f.trav - f.off;
        r, i' := GetSeekOff(v, f, f.cur, off, ch, i);
        r := before + r;
      case SeekEnd =>
        var clusCnt := LastCluster(v, f, ch);
        LastOffset(clusCnt, f.size, v.cs);
        f.off := f.size - v.cs * (clusCnt - 1);
        r, i' := GetSeekOff(v, f, f.cur, off, ch, clusCnt - 1);
        r := r + v.cs * (clusCnt - 1);
    }
    f.trav := r;
  }

  lemma LastOffset(n: nat, size: nat, cs: nat)
    requires n > 0 && Times(n - 1, cs) < size <= Times(n, cs)
    ensures cs * (n - 1) == Times(n - 1, cs) && 0 < size - cs * (n - 1) <= cs
  {
    TimesIs(n - 1, cs);
  }
}
