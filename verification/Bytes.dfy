/** Rows of bytes. */
module Bytes {
  type Byte = b: int | 0 <= b < 0x100

  /** The row with the bytes from `p` on overwritten. */
  function Put(s: seq<Byte>, p: nat, w: seq<Byte>): (r: seq<Byte>)
    requires p + |w| <= |s|
    ensures |r| == |s|
  {
    s[..p] + w + s[p + |w|..]
  }

  // ----- the copies the callers perform

  lemma PutOne(s: seq<Byte>, p: nat, b: seq<Byte>, from: nat, k: nat)
    requires p + k < |s| && from + k < |b|
    ensures Put(s, p, b[from..from + k])[p + k := b[from + k]] == Put(s, p, b[from..from + (k + 1)])
  {
    assert b[from..from + (k + 1)] == b[from..from + k] + [b[from + k]];
  }

  lemma PutNone(s: seq<Byte>, p: nat, b: seq<Byte>, from: nat)
    requires p <= |s| && from <= |b|
    ensures Put(s, p, b[from..from + 0]) == s
  {
  }

  method CopyIn(data: array<Byte>, at: nat, b: seq<Byte>, from: nat, n: nat)
    requires at + n <= data.Length && from + n <= |b|
    modifies data
    ensures data[..] == Put(old(data[..]), at, b[from..from + n])
  {
    var k := 0;
    PutNone(data[..], at, b, from);
    while k < n
      invariant 0 <= k <= n
      invariant data[..] == Put(old(data[..]), at, b[from..from + k])
    {
      PutOne(old(data[..]), at, b, from, k);
      data[at + k] := b[from + k];
      k := k + 1;
    }
  }

  method CopyOut(buffer: array<Byte>, at: nat, data: array<Byte>, from: nat, n: nat)
    requires buffer != data && at + n <= buffer.Length && from + n <= data.Length
    modifies buffer
    ensures buffer[..] == Put(old(buffer[..]), at, data[from..from + n])
  {
    ghost var b := data[..];
    assert b[from..from + n] == data[from..from + n];
    var k := 0;
    PutNone(buffer[..], at, b, from);
    while k < n
      invariant 0 <= k <= n && data[..] == b
      invariant buffer[..] == Put(old(buffer[..]), at, b[from..from + k])
    {
      PutOne(old(buffer[..]), at, b, from, k);
      buffer[at + k] := data[from + k];
      k := k + 1;
    }
  }
}
