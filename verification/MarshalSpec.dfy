/** The parameter streams shared by the driver and the secure services: bytes in one buffer, types and
    lengths in a table, and nothing else but offsets. */
module MarshalSpec {
  import opened Wrappers
  import opened Bytes

  const OTZ_1K_SIZE: nat := 1024
  const OTZ_MAX_REQ_PARAMS: nat := 12
  const OTZ_MAX_RES_PARAMS: nat := 4

  datatype Type = Invalid | Uint32 | Array

  /** One entry of the table; `usrAddr` is where the client wants the answer, `retLen` how much of it the
      service wrote. */
  datatype Meta = Meta(type_: Type, len: nat, usrAddr: nat, retLen: nat)

  /** A parameter's place: its type and the bytes set aside for it. */
  datatype Item = Item(type_: Type, len: nat)

  /** The client's addresses in a stretch of the table. */
  function UsrAddrs(meta: seq<Meta>): (r: seq<nat>)
    ensures |r| == |meta| && forall k :: 0 <= k < |meta| ==> r[k] == meta[k].usrAddr
  {
    seq(|meta|, k requires 0 <= k < |meta| => meta[k].usrAddr)
  }

  /** Where an answer goes: to the address given when it was encoded, or else to the one the decoder gives. */
  function Target(usrAddr: nat, data: nat): nat { if usrAddr != 0 then usrAddr else data }

  // ----- words

  type U32 = v: int | 0 <= v < 0x1_0000_0000

  /** Little-endian, as the processors of both worlds store it. */
  function U32Bytes(v: U32): (r: seq<Byte>)
    ensures |r| == 4
  {
    [v % 0x100, v / 0x100 % 0x100, v / 0x1_0000 % 0x100, v / 0x100_0000]
  }

  function BytesU32(b: seq<Byte>): (v: U32)
    requires |b| == 4
  {
    var b0: int, b1: int, b2: int, b3: int := b[0], b[1], b[2], b[3];
    b0 + 0x100 * b1 + 0x1_0000 * b2 + 0x100_0000 * b3
  }

  lemma WordRoundTrip(v: U32)
    ensures BytesU32(U32Bytes(v)) == v
  {
  }

  /** Byte `i` is the digit of weight 256^i: the low byte comes first. */
  lemma LowByteFirst(v: U32, i: nat)
    requires i < 4
    ensures var b := U32Bytes(v);
      b[0] as int == v % 0x100 && (v < 0x100 ==> b == [v, 0, 0, 0]) &&
      (i < 3 ==> b[i + 1] == U32Bytes(v / 0x100)[i]) && (i == 3 ==> U32Bytes(v / 0x100)[3] == 0)
  {
  }

  lemma BytesRoundTrip(b: seq<Byte>)
    requires |b| == 4
    ensures U32Bytes(BytesU32(b)) == b
  {
    var b0: int, b1: int, b2: int, b3: int := b[0], b[1], b[2], b[3];
    var v := BytesU32(b);
    LowByte(v, b0, b1 + 0x100 * b2 + 0x1_0000 * b3);
    LowByte(v / 0x100, b1, b2 + 0x100 * b3);
    HighParts(v, b0 + 0x100 * b1, b2, b3);
  }

  lemma LowByte(v: int, b: int, q: int)
    requires v == b + 0x100 * q && 0 <= b < 0x100
    ensures v % 0x100 == b && v / 0x100 == q
  {
  }

  lemma HighParts(v: int, low: int, b2: int, b3: int)
    requires v == low + 0x1_0000 * b2 + 0x100_0000 * b3 && 0 <= low < 0x1_0000 && 0 <= b2 < 0x100
    ensures v / 0x1_0000 % 0x100 == b2 && v / 0x100_0000 == b3
  {
    assert v / 0x1_0000 == b2 + 0x100 * b3;
  }

  // ----- layout

  /** Where parameter `k` starts. */
  function Off(items: seq<Item>, k: nat): nat
    requires k <= |items|
  {
    if k == 0 then 0 else Off(items, k - 1) + items[k - 1].len
  }

  lemma {:induction false} OffOrder(items: seq<Item>, j: nat, k: nat)
    requires j < k <= |items|
    ensures Off(items, j) + items[j].len <= Off(items, k)
  {
    if j < k - 1 { OffOrder(items, j, k - 1); }
  }

  lemma {:induction false} OffPrefix(items: seq<Item>, item: Item, k: nat)
    requires k <= |items|
    ensures Off(items + [item], k) == Off(items, k)
  {
    if k > 0 { OffPrefix(items, item, k - 1); }
  }

  /** The table entries from `base` on describe the parameters. */
  predicate Described(meta: seq<Meta>, base: nat, items: seq<Item>) {
    base + |items| <= |meta| &&
    forall k :: 0 <= k < |items| ==>
      meta[base + k].type_ == items[k].type_ && meta[base + k].len == items[k].len && WellTyped(items[k])
  }

  predicate WellTyped(item: Item) {
    item.type_ != Invalid && (item.type_ == Uint32 ==> item.len == 4)
  }

  /** The first `n` parameters' bytes are in the buffer, each at the start of its place. */
  predicate Stored(data: seq<Byte>, items: seq<Item>, payload: seq<seq<Byte>>, n: nat) {
    n <= |payload| && n <= |items| && Off(items, |items|) <= |data| &&
    forall k :: 0 <= k < n ==> StoredAt(data, items, payload, k)
  }

  predicate StoredAt(data: seq<Byte>, items: seq<Item>, payload: seq<seq<Byte>>, k: nat)
    requires k < |items| && k < |payload| && Off(items, |items|) <= |data|
  {
    |payload[k]| <= items[k].len &&
    (OffOrder(items, k, |items|); data[Off(items, k)..Off(items, k) + |payload[k]|] == payload[k])
  }

  // ----- decoding in the secure world

  /** The type, place and length of the parameter at `pos`, and the offset of the next. */
  datatype Decoded = Decoded(type_: Type, at: nat, len: nat, offset: nat, pos: nat)

  function DecodeStep(meta: seq<Meta>, offset: nat, pos: nat): Option<Decoded>
    requires pos < |meta|
  {
    match meta[pos].type_
    case Uint32 => Some(Decoded(Uint32, offset, meta[pos].len, offset + 4, pos + 1))
    case Array => Some(Decoded(Array, offset, meta[pos].len, offset + meta[pos].len, pos + 1))
    case Invalid => None
  }

  /** Decoding goes along the layout. */
  lemma DecodeFollows(meta: seq<Meta>, base: nat, items: seq<Item>, k: nat)
    requires Described(meta, base, items) && k < |items|
    ensures DecodeStep(meta, Off(items, k), base + k)
         == Some(Decoded(items[k].type_, Off(items, k), items[k].len, Off(items, k + 1), base + k + 1))
  {
    assert WellTyped(items[k]);
  }

  // ----- writing one parameter

  /** Writing into the place of parameter `n` stores it and keeps the ones before. */
  lemma StoreNext(data: seq<Byte>, items: seq<Item>, payload: seq<seq<Byte>>, n: nat, w: seq<Byte>)
    requires Stored(data, items, payload, n) && n < |items| && n == |payload| && |w| <= items[n].len
    ensures Off(items, n) + |w| <= |data|
    ensures Stored(Put(data, Off(items, n), w), items, payload + [w], n + 1)
  {
    OffOrder(items, n, |items|);
    var data', payload' := Put(data, Off(items, n), w), payload + [w];
    forall k | 0 <= k < n + 1 ensures StoredAt(data', items, payload', k) {
      OffOrder(items, k, |items|);
      if k < n {
        assert StoredAt(data, items, payload, k);
        OffOrder(items, k, n);
        KeepBefore(data, Off(items, n), w, Off(items, k), |payload[k]|);
      }
    }
  }

  lemma KeepBefore(s: seq<Byte>, p: nat, w: seq<Byte>, a: nat, n: nat)
    requires p + |w| <= |s| && a + n <= p
    ensures Put(s, p, w)[a..a + n] == s[a..a + n]
  {
  }

  /** A parameter added behind does not move the ones before. */
  lemma StoredLonger(data: seq<Byte>, items: seq<Item>, payload: seq<seq<Byte>>, n: nat, item: Item)
    requires Stored(data, items, payload, n) && Off(items, |items|) + item.len <= |data|
    ensures Off(items + [item], |items| + 1) == Off(items, |items|) + item.len
    ensures Stored(data, items + [item], payload, n)
  {
    var items' := items + [item];
    OffPrefix(items, item, |items|);
    forall k | 0 <= k < n ensures StoredAt(data, items', payload, k) {
      assert StoredAt(data, items, payload, k);
      OffPrefix(items, item, k);
      OffOrder(items', k, |items'|);
    }
  }

  /** A new entry behind the described ones. */
  lemma DescribedLonger(meta: seq<Meta>, base: nat, items: seq<Item>, m: Meta)
    requires Described(meta, base, items) && base + |items| < |meta| && WellTyped(Item(m.type_, m.len))
    ensures Described(meta[base + |items| := m], base, items + [Item(m.type_, m.len)])
  {
  }
}
