/** Cluster chains of a FAT32 volume as sequences, and the flat bytes they hold. */
module FatSpec {
  import opened Bytes
  import opened Products

  const END_OF_CLUSTER: nat := 0x0FFF_FFFF
  const END_OF_ROOT_CLUSTER: nat := 0x0FFF_FFF8

  predicate IsEnd(e: nat) { e == END_OF_CLUSTER || e == END_OF_ROOT_CLUSTER }

  // ----- chains

  /** `n` is the number of entries of the table; the data area holds clusters 2 .. n - 1. */
  predicate InTable(ch: seq<nat>, n: nat) { forall i :: 0 <= i < |ch| ==> 2 <= ch[i] < n }

  predicate Distinct(ch: seq<nat>) { forall i, j :: 0 <= i < j < |ch| ==> ch[i] != ch[j] }

  /** Every entry but the last names the next cluster. */
  predicate Linked(fat: seq<nat>, ch: seq<nat>)
    requires InTable(ch, |fat|)
  {
    forall i :: 0 <= i < |ch| - 1 ==> fat[ch[i]] == ch[i + 1]
  }

  /** A terminated chain; the empty one belongs to an empty file. */
  predicate Chain(fat: seq<nat>, ch: seq<nat>) {
    InTable(ch, |fat|) && Linked(fat, ch) && (ch != [] ==> IsEnd(fat[ch[|ch| - 1]]))
  }

  /** A terminated chain never meets a cluster twice: it would never end. */
  lemma {:induction false} ChainDistinct(fat: seq<nat>, ch: seq<nat>)
    requires Chain(fat, ch) && |fat| <= END_OF_ROOT_CLUSTER
    ensures Distinct(ch)
  {
    forall i, j | 0 <= i < j < |ch| ensures ch[i] != ch[j] {
      NoMeeting(fat, ch, i, j);
    }
  }

  lemma {:induction false} NoMeeting(fat: seq<nat>, ch: seq<nat>, i: nat, j: nat)
    requires Chain(fat, ch) && |fat| <= END_OF_ROOT_CLUSTER && i < j < |ch|
    ensures ch[i] != ch[j]
    decreases |ch| - j
  {
    assert fat[ch[i]] == ch[i + 1];
    if j < |ch| - 1 {
      NoMeeting(fat, ch, i + 1, j + 1);
    }
  }

  /** A chain is fixed by its first cluster. */
  lemma {:induction false} ChainUnique(fat: seq<nat>, a: seq<nat>, b: seq<nat>)
    requires Chain(fat, a) && Chain(fat, b) && a != [] && b != [] && a[0] == b[0] && |fat| <= END_OF_ROOT_CLUSTER
    ensures a == b
    decreases |a|
  {
    if |a| > 1 { assert a[1] == fat[a[0]]; }
    if |b| > 1 { assert b[1] == fat[b[0]]; }
    if |a| > 1 {
      assert a == [a[0]] + a[1..] && b == [b[0]] + b[1..];
      ChainTail(fat, a);
      ChainTail(fat, b);
      ChainUnique(fat, a[1..], b[1..]);
    }
  }

  lemma ChainTail(fat: seq<nat>, a: seq<nat>)
    requires Chain(fat, a) && |a| > 0
    ensures Chain(fat, a[1..])
  {
    var t := a[1..];
    forall i | 0 <= i < |t| - 1 ensures fat[t[i]] == t[i + 1] {
      assert fat[a[i + 1]] == a[i + 1 + 1];
    }
  }

  predicate Disjoint(a: seq<nat>, b: seq<nat>) { forall i, j :: 0 <= i < |a| && 0 <= j < |b| ==> a[i] != b[j] }

  // ----- bytes

  /** The bytes of one cluster, when a cluster is one sector. */
  function ClusterBytes(data: seq<Byte>, c: nat, cs: nat): (r: seq<Byte>)
    requires c >= 2 && Times(c - 1, cs) <= |data|
    ensures |r| == cs
  {
    data[Times(c - 2, cs)..Times(c - 2, cs) + cs]
  }

  predicate Holds(data: seq<Byte>, n: nat, cs: nat) { n >= 2 && |data| == Times(n - 2, cs) }

  lemma InData(data: seq<Byte>, c: nat, n: nat, cs: nat)
    requires Holds(data, n, cs) && 2 <= c < n
    ensures Times(c - 1, cs) <= |data| && Times(c - 1, cs) == Times(c - 2, cs) + cs
  {
    if c - 1 < n - 2 { TimesOrder(c - 1, n - 2, cs); }
  }

  /** The bytes of a chain, one cluster after the other. */
  function Content(data: seq<Byte>, ch: seq<nat>, n: nat, cs: nat): (r: seq<Byte>)
    requires Holds(data, n, cs) && InTable(ch, n)
  {
    if |ch| == 0 then []
    else
      InData(data, ch[|ch| - 1], n, cs);
      Content(data, ch[..|ch| - 1], n, cs) + ClusterBytes(data, ch[|ch| - 1], cs)
  }

  lemma {:induction false} ContentLength(data: seq<Byte>, ch: seq<nat>, n: nat, cs: nat)
    requires Holds(data, n, cs) && InTable(ch, n)
    ensures |Content(data, ch, n, cs)| == Times(|ch|, cs)
  {
    if |ch| > 0 { ContentLength(data, ch[..|ch| - 1], n, cs); }
  }

  lemma SliceLeft(a: seq<Byte>, b: seq<Byte>, x: nat, y: nat)
    requires x <= y <= |a|
    ensures (a + b)[x..y] == a[x..y]
  {
  }

  lemma SliceRight(a: seq<Byte>, b: seq<Byte>, x: nat, k: nat)
    requires x + k <= |b|
    ensures (a + b)[|a| + x..|a| + x + k] == b[x..x + k]
  {
  }

  lemma SliceSlice(s: seq<Byte>, a: nat, n: nat, x: nat, k: nat)
    requires a + n <= |s| && x + k <= n
    ensures s[a..a + n][x..x + k] == s[a + x..a + x + k]
  {
    var t, l, r := s[a..a + n], s[a..a + n][x..x + k], s[a + x..a + x + k];
    assert |l| == |r|;
    forall j | 0 <= j < k ensures l[j] == r[j] { assert l[j] == t[x + j] == s[a + (x + j)]; }
  }

  /** Byte ranges inside one cluster of the chain. */
  lemma {:induction false} ContentSlice(data: seq<Byte>, ch: seq<nat>, i: nat, off: nat, k: nat, n: nat, cs: nat)
    requires Holds(data, n, cs) && InTable(ch, n) && i < |ch| && off + k <= cs
    ensures Times(ch[i] - 2, cs) + off + k <= |data|
    ensures Times(i, cs) + off + k <= |Content(data, ch, n, cs)|
    ensures Content(data, ch, n, cs)[Times(i, cs) + off..Times(i, cs) + off + k]
         == data[Times(ch[i] - 2, cs) + off..Times(ch[i] - 2, cs) + off + k]
  {
    var rest, c := ch[..|ch| - 1], ch[|ch| - 1];
    assert ch == rest + [c];
    if i < |rest| {
      ContentSlice(data, rest, i, off, k, n, cs);
      ContentAppend(data, rest, c, n, cs);
      SliceLeft(Content(data, rest, n, cs), ClusterBytes(data, c, cs), Times(i, cs) + off, Times(i, cs) + off + k);
    } else {
      LastSlice(data, rest, c, off, k, n, cs);
    }
  }

  lemma LastSlice(data: seq<Byte>, rest: seq<nat>, c: nat, off: nat, k: nat, n: nat, cs: nat)
    requires Holds(data, n, cs) && InTable(rest, n) && 2 <= c < n && off + k <= cs
    ensures InTable(rest + [c], n) && Times(c - 2, cs) + off + k <= |data|
    ensures Times(|rest|, cs) + off + k <= |Content(data, rest + [c], n, cs)|
    ensures Content(data, rest + [c], n, cs)[Times(|rest|, cs) + off..Times(|rest|, cs) + off + k]
         == data[Times(c - 2, cs) + off..Times(c - 2, cs) + off + k]
  {
    InData(data, c, n, cs);
    ContentAppend(data, rest, c, n, cs);
    ContentLength(data, rest, n, cs);
    SliceOfLast(Content(data, rest, n, cs), data, Times(c - 2, cs), cs, off, k);
  }

  lemma SliceOfLast(a: seq<Byte>, data: seq<Byte>, at: nat, cs: nat, off: nat, k: nat)
    requires at + cs <= |data| && off + k <= cs
    ensures (a + data[at..at + cs])[|a| + off..|a| + off + k] == data[at + off..at + off + k]
  {
    SliceRight(a, data[at..at + cs], off, k);
    SliceSlice(data, at, cs, off, k);
  }

  /** As `Put`, but the sequence may grow. */
  function Splice(s: seq<Byte>, p: nat, w: seq<Byte>): (r: seq<Byte>)
    requires p <= |s|
    ensures |r| == if p + |w| <= |s| then |s| else p + |w|
  {
    s[..p] + w + if p + |w| <= |s| then s[p + |w|..] else []
  }

  /** Writing into a cluster leaves the others alone. */
  lemma WriteOther(data: seq<Byte>, c: nat, off: nat, w: seq<Byte>, c': nat, n: nat, cs: nat)
    requires Holds(data, n, cs) && 2 <= c < n && 2 <= c' < n && c != c' && off + |w| <= cs
    ensures Times(c - 1, cs) <= |data| && Times(c - 1, cs) == Times(c - 2, cs) + cs && Times(c' - 1, cs) <= |data|
    ensures ClusterBytes(Put(data, Times(c - 2, cs) + off, w), c', cs) == ClusterBytes(data, c', cs)
  {
    InData(data, c, n, cs);
    InData(data, c', n, cs);
    if c < c' { TimesOrder(c - 2, c' - 2, cs); } else { TimesOrder(c' - 2, c - 2, cs); }
  }

  lemma {:induction false} ContentOther(data: seq<Byte>, c: nat, off: nat, w: seq<Byte>, ch: seq<nat>, n: nat, cs: nat)
    requires Holds(data, n, cs) && 2 <= c < n && off + |w| <= cs && InTable(ch, n)
    requires forall i :: 0 <= i < |ch| ==> ch[i] != c
    ensures Times(c - 2, cs) + off + |w| <= |data|
    ensures Content(Put(data, Times(c - 2, cs) + off, w), ch, n, cs) == Content(data, ch, n, cs)
  {
    InData(data, c, n, cs);
    if |ch| > 0 {
      ContentOther(data, c, off, w, ch[..|ch| - 1], n, cs);
      WriteOther(data, c, off, w, ch[|ch| - 1], n, cs);
    }
  }

  lemma PutLeft(a: seq<Byte>, b: seq<Byte>, p: nat, w: seq<Byte>)
    requires p + |w| <= |a|
    ensures Put(a + b, p, w) == Put(a, p, w) + b
  {
  }

  lemma PutRight(a: seq<Byte>, b: seq<Byte>, p: nat, w: seq<Byte>)
    requires p + |w| <= |b|
    ensures Put(a + b, |a| + p, w) == a + Put(b, p, w)
  {
  }

  lemma PutWithin(s: seq<Byte>, a: nat, k: nat, off: nat, w: seq<Byte>)
    requires a + k <= |s| && off + |w| <= k
    ensures Put(s, a + off, w)[a..a + k] == Put(s[a..a + k], off, w)
  {
    var u, v := s[..a], s[a..];
    assert s == u + v;
    PutRight(u, v, off, w);
    assert v == s[a..a + k] + s[a + k..];
    PutLeft(s[a..a + k], s[a + k..], off, w);
  }

  lemma WriteHere(data: seq<Byte>, c: nat, off: nat, w: seq<Byte>, cs: nat)
    requires c >= 2 && Times(c - 1, cs) <= |data| && off + |w| <= cs && Times(c - 2, cs) + off + |w| <= |data|
    ensures ClusterBytes(Put(data, Times(c - 2, cs) + off, w), c, cs) == Put(ClusterBytes(data, c, cs), off, w)
  {
    PutWithin(data, Times(c - 2, cs), cs, off, w);
  }

  /** Writing into a cluster of the chain writes at that place of the flat bytes. */
  lemma {:induction false} ContentWrite(data: seq<Byte>, ch: seq<nat>, i: nat, off: nat, w: seq<Byte>, n: nat, cs: nat)
    requires Holds(data, n, cs) && InTable(ch, n) && i < |ch| && off + |w| <= cs
    requires Times(ch[i] - 2, cs) + off + |w| <= |data|
    requires forall j :: 0 <= j < |ch| && j != i ==> ch[j] != ch[i]
    ensures Times(i, cs) + off + |w| <= |Content(data, ch, n, cs)|
    ensures Content(Put(data, Times(ch[i] - 2, cs) + off, w), ch, n, cs)
         == Put(Content(data, ch, n, cs), Times(i, cs) + off, w)
  {
    var rest, c := ch[..|ch| - 1], ch[|ch| - 1];
    assert ch == rest + [c];
    if i < |rest| {
      assert rest[i] == ch[i];
      ContentWrite(data, rest, i, off, w, n, cs);
      WriteEarlier(data, rest, c, ch[i], Times(i, cs) + off, off, w, n, cs);
    } else {
      WriteLast(data, rest, c, off, w, n, cs);
    }
  }

  lemma WriteEarlier(data: seq<Byte>, rest: seq<nat>, last: nat, c: nat, p: nat, off: nat, w: seq<Byte>, n: nat,
      cs: nat)
    requires Holds(data, n, cs) && InTable(rest, n) && 2 <= last < n && 2 <= c < n && c != last && off + |w| <= cs
    requires Times(c - 2, cs) + off + |w| <= |data| && p + |w| <= |Content(data, rest, n, cs)|
    requires Content(Put(data, Times(c - 2, cs) + off, w), rest, n, cs) == Put(Content(data, rest, n, cs), p, w)
    ensures InTable(rest + [last], n) && p + |w| <= |Content(data, rest + [last], n, cs)|
    ensures Content(Put(data, Times(c - 2, cs) + off, w), rest + [last], n, cs)
         == Put(Content(data, rest + [last], n, cs), p, w)
  {
    WriteOther(data, c, off, w, last, n, cs);
    ContentAppend(data, rest, last, n, cs);
    ContentAppend(Put(data, Times(c - 2, cs) + off, w), rest, last, n, cs);
    PutLeft(Content(data, rest, n, cs), ClusterBytes(data, last, cs), p, w);
  }

  lemma WriteLast(data: seq<Byte>, rest: seq<nat>, c: nat, off: nat, w: seq<Byte>, n: nat, cs: nat)
    requires Holds(data, n, cs) && InTable(rest, n) && 2 <= c < n && off + |w| <= cs
    requires Times(c - 2, cs) + off + |w| <= |data| && forall j :: 0 <= j < |rest| ==> rest[j] != c
    ensures InTable(rest + [c], n) && Times(|rest|, cs) + off + |w| <= |Content(data, rest + [c], n, cs)|
    ensures Content(Put(data, Times(c - 2, cs) + off, w), rest + [c], n, cs)
         == Put(Content(data, rest + [c], n, cs), Times(|rest|, cs) + off, w)
  {
    ContentLength(data, rest, n, cs);
    ContentOther(data, c, off, w, rest, n, cs);
    ContentAppend(data, rest, c, n, cs);
    ContentAppend(Put(data, Times(c - 2, cs) + off, w), rest, c, n, cs);
    WriteHere(data, c, off, w, cs);
    PutRight(Content(data, rest, n, cs), ClusterBytes(data, c, cs), off, w);
  }

  lemma ContentAppend(data: seq<Byte>, ch: seq<nat>, c: nat, n: nat, cs: nat)
    requires Holds(data, n, cs) && InTable(ch, n) && 2 <= c < n
    ensures InTable(ch + [c], n) && Times(c - 1, cs) <= |data|
    ensures Content(data, ch + [c], n, cs) == Content(data, ch, n, cs) + ClusterBytes(data, c, cs)
  {
    InData(data, c, n, cs);
    assert (ch + [c])[..|ch|] == ch;
  }

  // ----- free entries

  /** How many entries from `from` on are free. */
  function Free(fat: seq<nat>, from: nat): (r: nat)
    decreases |fat| - from
  {
    if from >= |fat| then 0 else (if fat[from] == 0 then 1 else 0) + Free(fat, from + 1)
  }

  /** An update that neither frees nor takes an entry at or above `from`. */
  lemma {:induction false} FreeSame(fat: seq<nat>, c: nat, e: nat, from: nat)
    requires c < |fat| && (c < from || (fat[c] != 0 && e != 0))
    ensures Free(fat[c := e], from) == Free(fat, from)
    decreases |fat| - from
  {
    if from < |fat| { FreeSame(fat, c, e, from + 1); }
  }

  // ----- the other files

  /** A table and data area that differ only outside a chain leave that chain as it was. */
  lemma {:induction false} OtherFile(fat: seq<nat>, fat': seq<nat>, data: seq<Byte>, data': seq<Byte>, d: seq<nat>,
      n: nat, cs: nat)
    requires |fat| == |fat'| == n && Holds(data, n, cs) && Holds(data', n, cs) && Chain(fat, d)
    requires forall i :: 0 <= i < |d| ==> fat'[d[i]] == fat[d[i]]
    requires forall i :: 0 <= i < |d| ==> SameBytes(data, data', d[i], n, cs)
    ensures Chain(fat', d) && Content(data', d, n, cs) == Content(data, d, n, cs)
  {
    SameContent(data, data', d, n, cs);
  }

  predicate SameBytes(data: seq<Byte>, data': seq<Byte>, c: nat, n: nat, cs: nat)
    requires Holds(data, n, cs) && Holds(data', n, cs) && 2 <= c < n
  {
    InData(data, c, n, cs);
    ClusterBytes(data', c, cs) == ClusterBytes(data, c, cs)
  }

  lemma {:induction false} SameContent(data: seq<Byte>, data': seq<Byte>, d: seq<nat>, n: nat, cs: nat)
    requires Holds(data, n, cs) && Holds(data', n, cs) && InTable(d, n)
    requires forall i :: 0 <= i < |d| ==> SameBytes(data, data', d[i], n, cs)
    ensures Content(data', d, n, cs) == Content(data, d, n, cs)
  {
    if |d| > 0 {
      var rest := d[..|d| - 1];
      forall i | 0 <= i < |rest| ensures SameBytes(data, data', rest[i], n, cs) { assert rest[i] == d[i]; }
      SameContent(data, data', rest, n, cs);
      assert SameBytes(data, data', d[|d| - 1], n, cs);
    }
  }
}
