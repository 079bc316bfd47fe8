/** What a write does to the table and the data, on sequences: a chain that grows at its end. */
module FatGrowth {
  import opened Bytes
  import opened Products
  import opened FatSpec

  /** The entries and bytes of other files: clusters in use outside the chain being written. */
  predicate Untouched(fat0: seq<nat>, data0: seq<Byte>, fat: seq<nat>, data: seq<Byte>, ch0: seq<nat>, cs: nat)
    requires |fat0| == |fat| && Holds(data0, |fat|, cs) && Holds(data, |fat|, cs)
  {
    forall c :: 2 <= c < |fat| && fat0[c] != 0 && c !in ch0 ==>
      fat[c] == fat0[c] && SameBytes(data0, data, c, |fat|, cs)
  }

  /** The chain while it grows.  A cluster just given out still has a free entry (`open`); only that
      it is not above `nxt` keeps it from being given out again. */
  predicate Growing(fat: seq<nat>, ch: seq<nat>, open: bool, nxt: nat) {
    InTable(ch, |fat|) && Linked(fat, ch) && Distinct(ch) && (open ==> ch != []) &&
    (ch != [] ==> if open then fat[ch[|ch| - 1]] == 0 && ch[|ch| - 1] <= nxt else IsEnd(fat[ch[|ch| - 1]]))
  }

  /** The chain holds the old chain first, then clusters that were free. */
  predicate Extends(fat0: seq<nat>, ch0: seq<nat>, ch: seq<nat>) {
    |ch0| <= |ch| && (forall k :: 0 <= k < |ch0| ==> ch[k] == ch0[k]) &&
    forall k :: |ch0| <= k < |ch| ==> ch[k] < |fat0| && fat0[ch[k]] == 0
  }

  /** Clusters of the growing chain other than an open last one are in use. */
  lemma InUse(fat: seq<nat>, ch: seq<nat>, open: bool, nxt: nat, c: nat)
    requires Growing(fat, ch, open, nxt) && c in ch && c > nxt
    ensures fat[c] != 0
  {
    var k :| 0 <= k < |ch| && ch[k] == c;
    if k < |ch| - 1 { assert fat[ch[k]] == ch[k + 1]; }
  }

  /** A cluster whose entry is free and above the last one given out belongs to nobody. */
  lemma Fresh(fat0: seq<nat>, data0: seq<Byte>, fat: seq<nat>, data: seq<Byte>, ch0: seq<nat>, ch: seq<nat>,
      open: bool, nxt: nat, c: nat, cs: nat)
    requires |fat0| == |fat| && Holds(data0, |fat|, cs) && Holds(data, |fat|, cs)
    requires Untouched(fat0, data0, fat, data, ch0, cs)
    requires Growing(fat, ch, open, nxt) && Extends(fat0, ch0, ch) && 2 <= c < |fat| && nxt < c && fat[c] == 0
    ensures c !in ch && fat0[c] == 0
  {
    if c in ch { InUse(fat, ch, open, nxt, c); }
    assert forall k :: 0 <= k < |ch0| ==> ch[k] == ch0[k];
  }

  /** The table after the new cluster is hung onto the chain. */
  function Hung(fat: seq<nat>, ch: seq<nat>, c: nat): (r: seq<nat>)
    requires InTable(ch, |fat|)
    ensures |r| == |fat|
  {
    if ch == [] then fat else fat[ch[|ch| - 1] := c]
  }

  lemma Hang(fat: seq<nat>, ch: seq<nat>, open: bool, nxt: nat, c: nat)
    requires Growing(fat, ch, open, nxt) && 2 <= c < |fat| && nxt < c && fat[c] == 0 && c !in ch
    ensures Growing(Hung(fat, ch, c), ch + [c], true, c)
  {
    var ch', fat' := ch + [c], Hung(fat, ch, c);
    forall k | 0 <= k < |ch'| - 1 ensures fat'[ch'[k]] == ch'[k + 1] {
      if k < |ch| - 1 {
        assert fat[ch[k]] == ch[k + 1];
        assert ch[k] != ch[|ch| - 1];
      }
    }
  }

  lemma HangOthers(fat0: seq<nat>, data0: seq<Byte>, fat: seq<nat>, data: seq<Byte>, ch0: seq<nat>, ch: seq<nat>,
      c: nat, e: nat, cs: nat)
    requires |fat0| == |fat| && Holds(data0, |fat|, cs) && Holds(data, |fat|, cs)
    requires Untouched(fat0, data0, fat, data, ch0, cs)
    requires InTable(ch, |fat|) && Extends(fat0, ch0, ch) && c in ch
    ensures Untouched(fat0, data0, fat[c := e], data, ch0, cs)
  {
    InOldOrFree(fat0, ch0, ch, c);
    var fat' := fat[c := e];
    forall d | 2 <= d < |fat'| && fat0[d] != 0 && d !in ch0
      ensures fat'[d] == fat0[d] && SameBytes(data0, data, d, |fat'|, cs)
    {
      assert d != c;
    }
  }

  lemma InOldOrFree(fat0: seq<nat>, ch0: seq<nat>, ch: seq<nat>, c: nat)
    requires Extends(fat0, ch0, ch) && c in ch
    ensures c in ch0 || (c < |fat0| && fat0[c] == 0)
  {
    var k :| 0 <= k < |ch| && ch[k] == c;
    if k < |ch0| { assert ch0[k] == c; }
  }

  lemma ExtendsOn(fat0: seq<nat>, ch0: seq<nat>, ch: seq<nat>, c: nat)
    requires Extends(fat0, ch0, ch) && c < |fat0| && fat0[c] == 0
    ensures Extends(fat0, ch0, ch + [c])
  {
  }

  /** Writing bytes into a cluster of the chain. */
  lemma WriteOthers(fat0: seq<nat>, data0: seq<Byte>, fat: seq<nat>, data: seq<Byte>, ch0: seq<nat>, ch: seq<nat>,
      c: nat, off: nat, w: seq<Byte>, cs: nat)
    requires |fat0| == |fat| && Holds(data0, |fat|, cs) && Holds(data, |fat|, cs)
    requires Untouched(fat0, data0, fat, data, ch0, cs)
    requires InTable(ch, |fat|) && Extends(fat0, ch0, ch) && c in ch && off + |w| <= cs
    requires Times(c - 2, cs) + off + |w| <= |data|
    ensures Untouched(fat0, data0, fat, Put(data, Times(c - 2, cs) + off, w), ch0, cs)
  {
    InOldOrFree(fat0, ch0, ch, c);
    var data' := Put(data, Times(c - 2, cs) + off, w);
    forall d | 2 <= d < |fat| && fat0[d] != 0 && d !in ch0
      ensures fat[d] == fat0[d] && SameBytes(data0, data', d, |fat|, cs)
    {
      assert d != c;
      WriteOther(data, c, off, w, d, |fat|, cs);
      assert SameBytes(data0, data, d, |fat|, cs);
    }
  }

  /** The end mark closes the chain. */
  lemma Close(fat: seq<nat>, ch: seq<nat>, open: bool, nxt: nat)
    requires Growing(fat, ch, open, nxt) && ch != []
    ensures Chain(fat[ch[|ch| - 1] := END_OF_CLUSTER], ch)
  {
    var fat' := fat[ch[|ch| - 1] := END_OF_CLUSTER];
    forall k | 0 <= k < |ch| - 1 ensures fat'[ch[k]] == ch[k + 1] {
      assert fat[ch[k]] == ch[k + 1];
      assert ch[k] != ch[|ch| - 1];
    }
  }

  /** The count of free entries above the last one given out pays for the clusters still needed. */
  lemma HangFree(fat: seq<nat>, ch: seq<nat>, open: bool, nxt: nat, c: nat)
    requires Growing(fat, ch, open, nxt) && 2 <= c < |fat| && nxt < c
    ensures Free(Hung(fat, ch, c), c + 1) == Free(fat, c + 1)
  {
    if ch != [] { FreeSame(fat, ch[|ch| - 1], c, c + 1); }
  }

  // ----- the bytes

  /** The flat bytes begin with the old ones, `w` put at `p`. */
  predicate Written(flat: seq<Byte>, old0: seq<Byte>, p: nat, w: seq<Byte>) {
    p <= |old0| && |Splice(old0, p, w)| <= |flat| && flat[..|Splice(old0, p, w)|] == Splice(old0, p, w)
  }

  lemma WrittenMore(flat: seq<Byte>, old0: seq<Byte>, p: nat, w: seq<Byte>, x: seq<Byte>)
    requires Written(flat, old0, p, w) && p + |w| + |x| <= |flat|
    ensures Written(Put(flat, p + |w|, x), old0, p, w + x)
  {
    var s, s', flat' := Splice(old0, p, w), Splice(old0, p, w + x), Put(flat, p + |w|, x);
    forall k | 0 <= k < |s'| ensures flat'[k] == s'[k] {
      if k < |s| { assert flat[..|s|][k] == s[k]; }
    }
  }

  lemma WrittenLonger(flat: seq<Byte>, old0: seq<Byte>, p: nat, w: seq<Byte>, x: seq<Byte>)
    requires Written(flat, old0, p, w)
    ensures Written(flat + x, old0, p, w)
  {
    assert (flat + x)[..|Splice(old0, p, w)|] == flat[..|Splice(old0, p, w)|];
  }

  // ----- one write as a whole

  /** The volume, the file's chain and its position when the write began. */
  datatype Before = Before(fat: seq<nat>, data: seq<Byte>, ch: seq<nat>, p: nat)

  /** What holds all through a write that has put `done` so far. */
  predicate Going(fat: seq<nat>, data: seq<Byte>, nxt: nat, cs: nat, s: Before, ch: seq<nat>, open: bool,
      done: seq<Byte>) {
    |s.fat| == |fat| && Holds(s.data, |fat|, cs) && Holds(data, |fat|, cs) && InTable(s.ch, |fat|) && nxt >= 1 &&
    Growing(fat, ch, open, nxt) && Extends(s.fat, s.ch, ch) && Untouched(s.fat, s.data, fat, data, s.ch, cs) &&
    Written(Content(data, ch, |fat|, cs), Content(s.data, s.ch, |fat|, cs), s.p, done)
  }

  lemma PutStep(fat: seq<nat>, data: seq<Byte>, nxt: nat, cs: nat, s: Before, ch: seq<nat>, open: bool,
      done: seq<Byte>, i: nat, off: nat, w: seq<Byte>)
    requires Going(fat, data, nxt, cs, s, ch, open, done) && i < |ch| && off + |w| <= cs
    requires s.p + |done| == Times(i, cs) + off
    ensures Times(ch[i] - 2, cs) + off + |w| <= |data|
    ensures Going(fat, Put(data, Times(ch[i] - 2, cs) + off, w), nxt, cs, s, ch, open, done + w)
  {
    InData(data, ch[i], |fat|, cs);
    ContentWrite(data, ch, i, off, w, |fat|, cs);
    WriteOthers(s.fat, s.data, fat, data, s.ch, ch, ch[i], off, w, cs);
    WrittenMore(Content(data, ch, |fat|, cs), Content(s.data, s.ch, |fat|, cs), s.p, done, w);
  }

  lemma HangStep(fat: seq<nat>, data: seq<Byte>, nxt: nat, cs: nat, s: Before, ch: seq<nat>, open: bool,
      done: seq<Byte>, c: nat)
    requires Going(fat, data, nxt, cs, s, ch, open, done) && nxt < c < |fat| && fat[c] == 0
    ensures InTable(ch, |fat|) && Going(Hung(fat, ch, c), data, c, cs, s, ch + [c], true, done)
    ensures Free(Hung(fat, ch, c), c + 1) == Free(fat, c + 1)
  {
    Fresh(s.fat, s.data, fat, data, s.ch, ch, open, nxt, c, cs);
    Hang(fat, ch, open, nxt, c);
    HangFree(fat, ch, open, nxt, c);
    ExtendsOn(s.fat, s.ch, ch, c);
    if ch != [] { HangOthers(s.fat, s.data, fat, data, s.ch, ch, ch[|ch| - 1], c, cs); }
    ContentAppend(data, ch, c, |fat|, cs);
    WrittenLonger(Content(data, ch, |fat|, cs), Content(s.data, s.ch, |fat|, cs), s.p, done, ClusterBytes(data, c, cs));
  }

  /** Enough free entries above the last cluster given out to reach position `want`. */
  predicate RoomIn(fat: seq<nat>, nxt: nat, cs: nat, clusters: nat, want: nat) {
    want <= Times(clusters + Free(fat, nxt + 1), cs)
  }

  /** A cluster given out and hung uses one of them. */
  lemma HangRoom(fat: seq<nat>, nxt: nat, cs: nat, ch: seq<nat>, c: nat, want: nat)
    requires RoomIn(fat, nxt, cs, |ch|, want) && Free(fat, nxt + 1) == 1 + Free(fat, c + 1)
    requires InTable(ch, |fat|) && Free(Hung(fat, ch, c), c + 1) == Free(fat, c + 1)
    ensures RoomIn(Hung(fat, ch, c), c, cs, |ch| + 1, want)
  {
  }

  lemma Begin(fat: seq<nat>, data: seq<Byte>, nxt: nat, cs: nat, ch: seq<nat>, p: nat)
    requires Holds(data, |fat|, cs) && Chain(fat, ch) && |fat| <= END_OF_ROOT_CLUSTER && nxt >= 1
    requires p <= Times(|ch|, cs)
    ensures Going(fat, data, nxt, cs, Before(fat, data, ch, p), ch, false, [])
  {
    ChainDistinct(fat, ch);
    ContentLength(data, ch, |fat|, cs);
    var f0 := Content(data, ch, |fat|, cs);
    assert Splice(f0, p, []) == f0;
  }

  /** Marking the end of a chain that grew, or leaving one that did not. */
  lemma End(fat: seq<nat>, data: seq<Byte>, nxt: nat, cs: nat, s: Before, ch: seq<nat>, open: bool, done: seq<Byte>)
    requires Going(fat, data, nxt, cs, s, ch, open, done)
    ensures InTable(ch, |fat|)
    ensures var fat' := if open then fat[ch[|ch| - 1] := END_OF_CLUSTER] else fat;
      Chain(fat', ch) && Untouched(s.fat, s.data, fat', data, s.ch, cs)
  {
    if open {
      Close(fat, ch, open, nxt);
      HangOthers(s.fat, s.data, fat, data, s.ch, ch, ch[|ch| - 1], END_OF_CLUSTER, cs);
    }
  }

  function Larger(a: nat, b: nat): nat { if a < b then b else a }

  /** The size field becomes at least the number of bytes written by this call, wherever they went:
      the text is the expected one exactly when the write began at the start or stayed inside. */
  lemma WriteExactIff(flat: seq<Byte>, old0: seq<Byte>, size: nat, p: nat, b: seq<Byte>)
    requires Written(flat, old0, p, b) && p <= size <= |old0| && b != []
    ensures Larger(size, |b|) <= |flat|
    ensures flat[..Larger(size, |b|)] == Splice(old0[..size], p, b) <==> p == 0 || p + |b| <= size
  {
    var want, got := Splice(old0[..size], p, b), flat[..Larger(size, |b|)];
    if p == 0 || p + |b| <= size {
      assert |got| == |want|;
      forall k | 0 <= k < |got| ensures got[k] == want[k] {
        assert flat[..|Splice(old0, p, b)|][k] == Splice(old0, p, b)[k];
      }
    }
  }
}
