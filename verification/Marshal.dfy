/** Encoding in the driver, decoding in the secure world, and the way back. */
module Marshal {
  import opened Wrappers
  import opened Bytes
  import opened MarshalSpec

  const OTZ_OK: int := 0
  const ENOMEM: int := -12
  const EFAULT: int := -14

  datatype ParamType = ParamIn | ParamOut

  /** decode_data, as a service calls it on a buffer and the table. */
  method DecodeData(meta: array<Meta>, offset: nat, pos: nat) returns (ret: int, d: Decoded)
    requires pos < meta.Length
    ensures ret == OTZ_OK <==> meta[pos].type_ != Invalid
    ensures ret == OTZ_OK <==> DecodeStep(meta[..], offset, pos).Some?
    ensures ret == OTZ_OK ==> d == DecodeStep(meta[..], offset, pos).value
  {
    ret, d := OTZ_OK, Decoded(Invalid, 0, 0, offset, pos);
    match meta[pos].type_ {
      case Uint32 => d := Decoded(Uint32, offset, meta[pos].len, offset + 4, pos + 1);
      case Array => d := Decoded(Array, offset, meta[pos].len, offset + meta[pos].len, pos + 1);
      case Invalid => ret := -1;
    }
  }

  /** `pos` is the position after the parameter, as decode_data left it. */
  method UpdateResponseLen(meta: array<Meta>, pos: nat, len: nat) returns (ret: int)
    requires meta.Length == OTZ_MAX_REQ_PARAMS + OTZ_MAX_RES_PARAMS && pos > 0
    modifies meta
    ensures ret == OTZ_OK <==> pos <= meta.Length
    ensures ret == OTZ_OK ==> meta[..] == old(meta[..])[pos - 1 := old(meta[pos - 1]).(retLen := len)]
    ensures ret != OTZ_OK ==> meta[..] == old(meta[..])
  {
    if pos <= OTZ_MAX_REQ_PARAMS + OTZ_MAX_RES_PARAMS {
      meta[pos - 1] := meta[pos - 1].(retLen := len);
      ret := OTZ_OK;
    } else {
      ret := -1;
    }
  }

  /** One encoding context of the driver. */
  class Encode {
    const req: array<Byte>
    const res: array<Byte>
    const meta: array<Meta>
    var reqOffset: nat
    var resOffset: nat
    var reqPos: nat
    var resPos: nat
    var decResPos: nat
    var decOffset: nat

    /** Buffers and table come with whatever is in memory. */
    constructor (req: array<Byte>, res: array<Byte>, meta: array<Meta>)
      requires req.Length == res.Length == OTZ_1K_SIZE && req != res
      requires meta.Length == OTZ_MAX_REQ_PARAMS + OTZ_MAX_RES_PARAMS
      ensures Valid() && Requested([], []) && Reserved([]) && Answered([], []) && Reading([], 0)
      ensures this.req == req && this.res == res && this.meta == meta
    {
      this.req, this.res, this.meta := req, res, meta;
      reqOffset, resOffset, reqPos, decOffset := 0, 0, 0, 0;
      resPos, decResPos := OTZ_MAX_REQ_PARAMS, OTZ_MAX_REQ_PARAMS;
    }

    ghost predicate Valid()
      reads this
    {
      req.Length == res.Length == OTZ_1K_SIZE && req != res && meta.Length == OTZ_MAX_REQ_PARAMS + OTZ_MAX_RES_PARAMS
    }

    /** The request stream holds these parameters. */
    ghost predicate Requested(items: seq<Item>, payload: seq<seq<Byte>>)
      reads this, req, meta
    {
      reqPos == |items| == |payload| <= OTZ_MAX_REQ_PARAMS && Off(items, |items|) == reqOffset <= OTZ_1K_SIZE &&
      Described(meta[..], 0, items) && Stored(req[..], items, payload, |items|) &&
      forall k :: 0 <= k < |items| ==> |payload[k]| == items[k].len
    }

    /** Room is reserved for these answers. */
    ghost predicate Reserved(items: seq<Item>)
      reads this, meta
    {
      resPos == OTZ_MAX_REQ_PARAMS + |items| && |items| <= OTZ_MAX_RES_PARAMS &&
      Off(items, |items|) == resOffset <= OTZ_1K_SIZE &&
      Described(meta[..], OTZ_MAX_REQ_PARAMS, items)
    }

    /** The client's addresses for the answers, in order. */
    function Addresses(): seq<nat>
      reads this, meta
      requires OTZ_MAX_REQ_PARAMS <= resPos <= meta.Length
    {
      UsrAddrs(meta[OTZ_MAX_REQ_PARAMS..resPos])
    }

    /** The first answers are written and sized. */
    ghost predicate Answered(items: seq<Item>, answers: seq<seq<Byte>>)
      reads res, meta
    {
      |answers| <= |items| && Stored(res[..], items, answers, |answers|) &&
      OTZ_MAX_REQ_PARAMS + |items| <= meta.Length &&
      forall k :: 0 <= k < |answers| ==> meta[OTZ_MAX_REQ_PARAMS + k].retLen == |answers[k]|
    }

    /** The client is about to decode answer `k`. */
    ghost predicate Reading(items: seq<Item>, k: nat)
      reads this
    {
      k <= |items| && decResPos == OTZ_MAX_REQ_PARAMS + k && decOffset == Off(items, k)
    }

    // ----- the driver encodes

    /** A request parameter: its bytes and its entry, if both fit. */
    method AppendRequest(type_: Type, b: seq<Byte>, ghost items: seq<Item>, ghost payload: seq<seq<Byte>>,
        ghost rs: seq<Item>)
      returns (ret: int)
      requires Valid() && Requested(items, payload) && Reserved(rs) && WellTyped(Item(type_, |b|))
      modifies this`reqOffset, this`reqPos, req, meta
      ensures Valid() && Reserved(rs)
      ensures ret == OTZ_OK <==> old(reqOffset) + |b| <= OTZ_1K_SIZE && old(reqPos) < OTZ_MAX_REQ_PARAMS
      ensures ret == OTZ_OK ==> Requested(items + [Item(type_, |b|)], payload + [b])
      ensures ret != OTZ_OK ==> ret == ENOMEM && Requested(items, payload)
      ensures meta[OTZ_MAX_REQ_PARAMS..] == old(meta[OTZ_MAX_REQ_PARAMS..])
    {
      if reqOffset + |b| <= OTZ_1K_SIZE && reqPos < OTZ_MAX_REQ_PARAMS {
        ghost var item, data, table := Item(type_, |b|), req[..], meta[..];
        StoredLonger(data, items, payload, |items|, item);
        OffPrefix(items, item, |items|);
        StoreNext(data, items + [item], payload, |items|, b);
        DescribedLonger(table, 0, items, meta[reqPos].(type_ := type_, len := |b|));
        assert b[0..|b|] == b;
        CopyIn(req, reqOffset, b, 0, |b|);
        reqOffset := reqOffset + |b|;
        meta[reqPos] := meta[reqPos].(type_ := type_, len := |b|);
        reqPos := reqPos + 1;
        ret := OTZ_OK;
      } else {
        ret := ENOMEM;
      }
    }

    /** A response parameter: room is reserved and the client's address kept. */
    method AppendResponse(type_: Type, len: nat, usrAddr: nat, ghost items: seq<Item>, ghost payload: seq<seq<Byte>>,
        ghost rs: seq<Item>)
      returns (ret: int)
      requires Valid() && Requested(items, payload) && Reserved(rs) && WellTyped(Item(type_, len))
      modifies this`resOffset, this`resPos, meta
      ensures Valid() && Requested(items, payload)
      ensures ret == OTZ_OK <==> old(resOffset) + len <= OTZ_1K_SIZE && |rs| < OTZ_MAX_RES_PARAMS
      ensures ret == OTZ_OK ==> Reserved(rs + [Item(type_, len)])
      ensures ret == OTZ_OK ==> Addresses() == old(Addresses()) + [usrAddr]
      ensures ret == OTZ_OK ==> forall k :: 0 <= k < meta.Length ==> meta[k].retLen == old(meta[k].retLen)
      ensures ret != OTZ_OK ==> ret == ENOMEM && Reserved(rs) && meta[..] == old(meta[..])
    {
      if resOffset + len <= OTZ_1K_SIZE && resPos < OTZ_MAX_REQ_PARAMS + OTZ_MAX_RES_PARAMS {
        OffPrefix(rs, Item(type_, len), |rs|);
        ghost var entry := meta[resPos].(usrAddr := usrAddr, type_ := type_, len := len);
        DescribedLonger(meta[..], OTZ_MAX_REQ_PARAMS, rs, entry);
        meta[resPos] := meta[resPos].(usrAddr := usrAddr);
        resOffset := resOffset + len;
        meta[resPos] := meta[resPos].(type_ := type_, len := len);
        resPos := resPos + 1;
        ret := OTZ_OK;
      } else {
        ret := ENOMEM;
      }
    }

    /** `v` is the request value, `usrAddr` the client's address for an answer. */
    method EncodeUint32(dir: ParamType, v: U32, usrAddr: nat, ghost items: seq<Item>, ghost payload: seq<seq<Byte>>,
        ghost rs: seq<Item>)
      returns (ret: int)
      requires Valid() && Requested(items, payload) && Reserved(rs)
      modifies this`reqOffset, this`reqPos, this`resOffset, this`resPos, req, meta
      ensures Valid()
      ensures dir == ParamIn ==> Reserved(rs)
      ensures dir == ParamIn ==>
                (ret == OTZ_OK <==> old(reqOffset) + 4 <= OTZ_1K_SIZE && |items| < OTZ_MAX_REQ_PARAMS)
      ensures dir == ParamIn && ret == OTZ_OK ==> Requested(items + [Item(Uint32, 4)], payload + [U32Bytes(v)])
      ensures dir == ParamOut ==> Requested(items, payload)
      ensures dir == ParamOut ==> (ret == OTZ_OK <==> old(resOffset) + 4 <= OTZ_1K_SIZE && |rs| < OTZ_MAX_RES_PARAMS)
      ensures dir == ParamOut && ret == OTZ_OK ==> Reserved(rs + [Item(Uint32, 4)])
      ensures dir == ParamOut && ret == OTZ_OK ==> Addresses() == old(Addresses()) + [usrAddr]
      ensures ret != OTZ_OK ==> ret == ENOMEM && Requested(items, payload) && Reserved(rs)
      ensures dir == ParamIn ==> Addresses() == old(Addresses())
      ensures ret != OTZ_OK ==> Addresses() == old(Addresses())
      ensures forall k :: OTZ_MAX_REQ_PARAMS <= k < meta.Length ==> meta[k].retLen == old(meta[k].retLen)
    {
      if dir == ParamIn {
        ret := AppendRequest(Uint32, U32Bytes(v), items, payload, rs);
      } else {
        ret := AppendResponse(Uint32, 4, usrAddr, items, payload, rs);
      }
    }

    /** `b` are the request bytes; for an answer `len` bytes are reserved. */
    method EncodeArray(dir: ParamType, b: seq<Byte>, len: nat, usrAddr: nat, ghost items: seq<Item>,
        ghost payload: seq<seq<Byte>>, ghost rs: seq<Item>)
      returns (ret: int)
      requires Valid() && Requested(items, payload) && Reserved(rs)
      modifies this`reqOffset, this`reqPos, this`resOffset, this`resPos, req, meta
      ensures Valid()
      ensures dir == ParamIn ==> Reserved(rs)
      ensures dir == ParamIn ==>
                (ret == OTZ_OK <==> old(reqOffset) + |b| <= OTZ_1K_SIZE && |items| < OTZ_MAX_REQ_PARAMS)
      ensures dir == ParamIn && ret == OTZ_OK ==> Requested(items + [Item(Array, |b|)], payload + [b])
      ensures dir == ParamOut ==> Requested(items, payload)
      ensures dir == ParamOut ==> (ret == OTZ_OK <==> old(resOffset) + len <= OTZ_1K_SIZE && |rs| < OTZ_MAX_RES_PARAMS)
      ensures dir == ParamOut && ret == OTZ_OK ==> Reserved(rs + [Item(Array, len)])
      ensures dir == ParamOut && ret == OTZ_OK ==> Addresses() == old(Addresses()) + [usrAddr]
      ensures ret != OTZ_OK ==> ret == ENOMEM && Requested(items, payload) && Reserved(rs)
      ensures dir == ParamIn ==> Addresses() == old(Addresses())
      ensures ret != OTZ_OK ==> Addresses() == old(Addresses())
      ensures forall k :: OTZ_MAX_REQ_PARAMS <= k < meta.Length ==> meta[k].retLen == old(meta[k].retLen)
    {
      if dir == ParamIn {
        ret := AppendRequest(Array, b, items, payload, rs);
      } else {
        ret := AppendResponse(Array, len, usrAddr, items, payload, rs);
      }
    }

    // ----- the service decodes

    /** Repeated decode_data over the request stream yields the parameters that were encoded, in order,
        and ends at the offset where the encoder stands. */
    method DecodeAll(ghost items: seq<Item>, ghost payload: seq<seq<Byte>>)
      returns (types: seq<Type>, out: seq<seq<Byte>>, offset: nat)
      requires Valid() && Requested(items, payload)
      ensures out == payload && offset == reqOffset
      ensures |types| == |items| && forall k :: 0 <= k < |items| ==> types[k] == items[k].type_
    {
      types, out, offset := [], [], 0;
      var pos := 0;
      while pos < reqPos
        invariant 0 <= pos <= reqPos && offset == Off(items, pos) && out == payload[..pos]
        invariant |types| == pos && forall k :: 0 <= k < pos ==> types[k] == items[k].type_
      {
        DecodeFollows(meta[..], 0, items, pos);
        assert StoredAt(req[..], items, payload, pos);
        OffOrder(items, pos, |items|);
        var ret, d := DecodeData(meta, offset, pos);
        assert req[..][d.at..d.at + d.len] == req[d.at..d.at + d.len];
        types, out := types + [d.type_], out + [req[d.at..d.at + d.len]];
        offset, pos := d.offset, d.pos;
      }
    }

    /** The service answers parameter `k`: it finds the place by decode_data, writes `w` there and records
        how much it wrote. */
    method Respond(offset: nat, pos: nat, w: seq<Byte>, ghost rs: seq<Item>, ghost answers: seq<seq<Byte>>)
      returns (ret: int, offset': nat, pos': nat)
      requires Valid() && Reserved(rs) && Answered(rs, answers) && |answers| < |rs|
      requires offset == Off(rs, |answers|) && pos == OTZ_MAX_REQ_PARAMS + |answers| && |w| <= rs[|answers|].len
      modifies res, meta
      ensures Valid() && Reserved(rs) && ret == OTZ_OK && Answered(rs, answers + [w])
      ensures Addresses() == old(Addresses())
      ensures offset' == Off(rs, |answers| + 1) && pos' == pos + 1
    {
      DecodeFollows(meta[..], OTZ_MAX_REQ_PARAMS, rs, |answers|);
      StoreNext(res[..], rs, answers, |answers|, w);
      var d;
      ret, d := DecodeData(meta, offset, pos);
      assert w[0..|w|] == w;
      CopyIn(res, d.at, w, 0, |w|);
      ret := UpdateResponseLen(meta, d.pos, |w|);
      offset', pos' := d.offset, d.pos;
    }

    // ----- the driver decodes

    /** The table's entry for answer `k`. */
    function Entry(k: nat): Meta
      reads meta
      requires OTZ_MAX_REQ_PARAMS + k < meta.Length
    {
      meta[OTZ_MAX_REQ_PARAMS + k]
    }

    /** The next answer when its entry says it is a word; nothing happens when it does not.  The test of
        the position lets one decode too many through: for `k == |rs|` the entry was never reserved, and
        whatever it says decides.  The word goes to the address `to`; `data` is the caller's own. */
    method DecodeUint32(data: nat, ghost rs: seq<Item>, ghost answers: seq<seq<Byte>>, ghost k: nat)
      returns (r: Option<U32>, to: nat)
      requires Valid() && Reserved(rs) && Reading(rs, k)
      requires k < |rs| || (k < OTZ_MAX_RES_PARAMS && decOffset + 4 <= OTZ_1K_SIZE)
      modifies this`decOffset, this`decResPos
      ensures r.Some? <==> Entry(k).type_ == Uint32
      ensures to == if r.Some? then Target(Entry(k).usrAddr, data) else data
      ensures r.Some? ==> Off(rs, k) + 4 <= res.Length && U32Bytes(r.value) == res[Off(rs, k)..Off(rs, k) + 4]
      ensures r.Some? ==> decResPos == OTZ_MAX_REQ_PARAMS + k + 1 && decOffset == Off(rs, k) + 4
      ensures r.Some? && k < |rs| ==> Reading(rs, k + 1)
      ensures r.Some? && Answered(rs, answers) && k < |answers| && |answers[k]| == 4 ==> U32Bytes(r.value) == answers[k]
      ensures r.None? ==> Reading(rs, k)
    {
      r, to := None, data;
      if k < |rs| {
        OffOrder(rs, k, |rs|);
        assert WellTyped(rs[k]);
      }
      if decResPos <= resPos && meta[decResPos].type_ == Uint32 {
        if meta[decResPos].usrAddr != 0 {
          to := meta[decResPos].usrAddr;
        }
        r := Some(BytesU32(res[decOffset..decOffset + 4]));
        BytesRoundTrip(res[decOffset..decOffset + 4]);
        if Answered(rs, answers) && k < |answers| { AnswerAt(rs, answers, k); }
        decOffset := decOffset + 4;
        decResPos := decResPos + 1;
      }
    }

    /** The next answer when its entry says it is an array: refused when more was recorded than reserved.
        For `k == |rs|` as above. */
    method DecodeArraySpace(data: nat, ghost rs: seq<Item>, ghost answers: seq<seq<Byte>>, ghost k: nat)
      returns (ret: int, r: Option<seq<Byte>>, to: nat)
      requires Valid() && Reserved(rs) && Reading(rs, k)
      requires k < |rs| || (k < OTZ_MAX_RES_PARAMS && decOffset + Entry(k).retLen <= OTZ_1K_SIZE)
      modifies this`decOffset, this`decResPos
      ensures ret == EFAULT <==> Entry(k).type_ == Array && Entry(k).retLen > Entry(k).len
      ensures ret == EFAULT || ret == OTZ_OK
      ensures r.Some? <==> Entry(k).type_ == Array && ret == OTZ_OK
      ensures to == if r.Some? then Target(Entry(k).usrAddr, data) else data
      ensures r.Some? ==> Off(rs, k) + Entry(k).retLen <= res.Length
      ensures r.Some? ==> r.value == res[Off(rs, k)..Off(rs, k) + Entry(k).retLen]
      ensures r.Some? ==> decResPos == OTZ_MAX_REQ_PARAMS + k + 1 && decOffset == Off(rs, k) + Entry(k).len
      ensures r.Some? && k < |rs| ==> Reading(rs, k + 1)
      ensures r.Some? && Answered(rs, answers) && k < |answers| ==> r.value == answers[k]
      ensures r.None? ==> Reading(rs, k)
    {
      ret, r, to := OTZ_OK, None, data;
      if k < |rs| {
        OffOrder(rs, k, |rs|);
        assert WellTyped(rs[k]);
      }
      if decResPos <= resPos && meta[decResPos].type_ == Array {
        if meta[decResPos].len >= meta[decResPos].retLen {
          if meta[decResPos].usrAddr != 0 {
            to := meta[decResPos].usrAddr;
          }
          r := Some(res[decOffset..decOffset + meta[decResPos].retLen]);
          if Answered(rs, answers) && k < |answers| { AnswerAt(rs, answers, k); }
        } else {
          return EFAULT, None, data;
        }
        decOffset := decOffset + meta[decResPos].len;
        decResPos := decResPos + 1;
      }
    }

    /** What an answered place holds. */
    lemma AnswerAt(rs: seq<Item>, answers: seq<seq<Byte>>, k: nat)
      requires Valid() && Answered(rs, answers) && k < |answers|
      ensures Off(rs, k) + |answers[k]| <= res.Length && |answers[k]| <= rs[k].len
      ensures meta[OTZ_MAX_REQ_PARAMS + k].retLen == |answers[k]|
      ensures res[Off(rs, k)..Off(rs, k) + |answers[k]|] == answers[k]
    {
      assert StoredAt(res[..], rs, answers, k);
      OffOrder(rs, k, |rs|);
      assert res[..][Off(rs, k)..Off(rs, k) + |answers[k]|] == res[Off(rs, k)..Off(rs, k) + |answers[k]|];
    }

    // ----- the whole way back

    /** Answers that a service can give in this room: arrays may be shorter, words are whole. */
    predicate FitsRoom(ws: seq<seq<Byte>>, rs: seq<Item>) {
      |ws| == |rs| && forall k :: 0 <= k < |rs| ==> |ws[k]| <= rs[k].len && (rs[k].type_ == Uint32 ==> |ws[k]| == 4)
    }

    /** A service answers every parameter, going along the response by decode_data alone. */
    method RespondAll(ws: seq<seq<Byte>>, ghost rs: seq<Item>)
      requires Valid() && Reserved(rs) && Answered(rs, []) && FitsRoom(ws, rs)
      modifies res, meta
      ensures Valid() && Reserved(rs) && Answered(rs, ws) && Addresses() == old(Addresses())
    {
      var offset, pos, k := 0, OTZ_MAX_REQ_PARAMS, 0;
      assert ws[..0] == [];
      while k < |ws|
        invariant 0 <= k <= |ws| && Valid() && Reserved(rs) && Answered(rs, ws[..k])
        invariant Addresses() == old(Addresses())
        invariant offset == Off(rs, k) && pos == OTZ_MAX_REQ_PARAMS + k
      {
        var ret;
        ret, offset, pos := Respond(offset, pos, ws[k], rs, ws[..k]);
        assert ws[..k] + [ws[k]] == ws[..k + 1];
        k := k + 1;
      }
      assert ws[..k] == ws;
    }

    /** The client decodes every answer, the `k`-th with the address `data[k]` of its own, and gets what the
        service wrote, in order, each at the address given for it; it ends where the encoder's reservations
        end. */
    method DecodeAnswers(data: seq<nat>, ghost ws: seq<seq<Byte>>, ghost rs: seq<Item>)
      returns (out: seq<seq<Byte>>, to: seq<nat>)
      requires Valid() && Reserved(rs) && Answered(rs, ws) && FitsRoom(ws, rs) && Reading(rs, 0) && |data| == |rs|
      modifies this`decOffset, this`decResPos
      ensures out == ws && Reading(rs, |rs|) && decOffset == resOffset
      ensures |to| == |rs| && forall k :: 0 <= k < |rs| ==> to[k] == Target(Addresses()[k], data[k])
    {
      out, to := [], [];
      while decResPos < resPos
        invariant |to| == |out| <= |rs| && out == ws[..|out|] && Reading(rs, |out|)
        invariant forall k :: 0 <= k < |to| ==> to[k] == Target(Addresses()[k], data[k])
        decreases resPos - decResPos
      {
        var bytes, addr := DecodeAnswer(data[|out|], ws, rs, |out|);
        out, to := out + [bytes], to + [addr];
      }
    }

    /** One answer, decoded as its entry says. */
    method DecodeAnswer(data: nat, ghost ws: seq<seq<Byte>>, ghost rs: seq<Item>, ghost k: nat)
      returns (bytes: seq<Byte>, to: nat)
      requires Valid() && Reserved(rs) && Answered(rs, ws) && FitsRoom(ws, rs) && Reading(rs, k) && k < |rs|
      modifies this`decOffset, this`decResPos
      ensures bytes == ws[k] && Reading(rs, k + 1) && to == Target(Addresses()[k], data)
    {
      assert WellTyped(rs[k]);
      AnswerAt(rs, ws, k);
      if meta[decResPos].type_ == Uint32 {
        var word;
        word, to := DecodeUint32(data, rs, ws, k);
        bytes := U32Bytes(word.value);
      } else {
        var ret, r;
        ret, r, to := DecodeArraySpace(data, rs, ws, k);
        bytes := r.value;
      }
    }

    /** What the service answers is what the client decodes, each answer at the address that was recorded when
        its room was reserved. */
    method Exchange(ws: seq<seq<Byte>>, data: seq<nat>, ghost rs: seq<Item>)
      returns (out: seq<seq<Byte>>, to: seq<nat>)
      requires Valid() && Reserved(rs) && Answered(rs, []) && FitsRoom(ws, rs) && Reading(rs, 0) && |data| == |rs|
      modifies this`decOffset, this`decResPos, res, meta
      ensures out == ws && |to| == |rs|
      ensures forall k :: 0 <= k < |rs| ==> to[k] == Target(old(Addresses())[k], data[k])
    {
      RespondAll(ws, rs);
      out, to := DecodeAnswers(data, ws, rs);
    }
  }
}
