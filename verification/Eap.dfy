/** EAP framing, TEAP flags and fragmentation: teap_tester/eap.py. */
module Eap {
  import opened Bytes

  const REQUEST: byte := 1
  const RESPONSE: byte := 2
  const SUCCESS: byte := 3
  const FAILURE: byte := 4

  const IDENTITY: byte := 1
  const NAK: byte := 3
  const TLS: byte := 13
  const MSCHAPV2: byte := 26
  const TEAP: byte := 55

  const FLAG_L: byte := 0x80
  const FLAG_M: byte := 0x40

  datatype EapPacket = EapPacket(code: byte, id: byte, kind: Option<byte>, payload: bytes)

  function EncodeEap(code: byte, id: byte, kind: Option<byte>, data: bytes): (r: Result<bytes>)
    ensures r.Ok? ==> |r.value| >= 4
  {
    if code == SUCCESS || code == FAILURE then Ok([code, id] + U16(4))
    else if kind.None? then Err(ValueError)
    else if 5 + |data| >= 0x1_0000 then Err(PackError)
    else Ok([code, id] + U16(5 + |data|) + [kind.value] + data)
  }

  function DecodeEap(data: bytes): Result<EapPacket> {
    if |data| < 4 then Err(ValueError)
    else if data[0] == SUCCESS || data[0] == FAILURE || |data| < 5 then
      Ok(EapPacket(data[0], data[1], None, []))
    else
      var length := GetU16(data, 2);
      Ok(EapPacket(data[0], data[1], Some(data[4]), if length > 5 then Slice(data, 5, length) else []))
  }

  function EncodeIdentityResponse(id: byte, identity: bytes): Result<bytes> {
    EncodeEap(RESPONSE, id, Some(IDENTITY), identity)
  }

  /** (flags & 0xF8) | TEAP version 1 */
  function FlagsByte(flags: byte): byte {
    flags - flags % 8 + 1
  }

  function EncodeTeap(id: byte, flags: byte, data: bytes): Result<bytes> {
    EncodeEap(RESPONSE, id, Some(TEAP), [FlagsByte(flags)] + data)
  }

  function WithL(flags: byte): byte {
    if flags < FLAG_L then flags + FLAG_L else flags
  }

  function EncodeTeapWithLength(id: byte, flags: byte, total: nat, data: bytes): Result<bytes> {
    if total >= 0x1_0000_0000 then Err(PackError)
    else EncodeEap(RESPONSE, id, Some(TEAP), [FlagsByte(WithL(flags))] + U32(total) + data)
  }

  datatype TeapData = TeapData(start: bool, lengthIncluded: bool, moreFragments: bool,
                               version: nat, totalLength: nat, data: bytes)

  /** `totalLength` is 0 when the L flag is clear (None in the source, where nothing reads it). */
  function DecodeTeap(payload: bytes): Result<TeapData> {
    if payload == [] then Err(ValueError)
    else
      var flags := payload[0];
      var l, m, s := flags / 0x80 % 2 == 1, flags / 0x40 % 2 == 1, flags / 0x20 % 2 == 1;
      if !l then Ok(TeapData(s, l, m, flags % 8, 0, payload[1..]))
      else if |payload| < 5 then Err(ValueError)
      else Ok(TeapData(s, l, m, flags % 8, GetU32(payload, 1), payload[5..]))
  }

  /** decode_eap inverts encode_eap for everything encode_eap accepts. */
  lemma EapRoundTrip(code: byte, id: byte, kind: Option<byte>, data: bytes)
    requires EncodeEap(code, id, kind, data).Ok?
    ensures DecodeEap(EncodeEap(code, id, kind, data).value)
         == Ok(if code == SUCCESS || code == FAILURE then EapPacket(code, id, None, [])
               else EapPacket(code, id, kind, data))
  {
    var e := EncodeEap(code, id, kind, data).value;
    assert e[0] == code && e[1] == id;
    if code != SUCCESS && code != FAILURE {
      assert e[4] == kind.value;
      assert At(e, 2, U16(5 + |data|));
      U16RoundTrip(5 + |data|, e, 2);
      assert Slice(e, 5, |e|) == data;
    }
  }

  /** Section 4 of RFC 3748, on any octets: code and identifier come first; a Success (3), a Failure
      (4) or a packet of four octets has no type; any other has its type, and the data within its
      length field. */
  lemma DecodeReads(data: bytes)
    ensures DecodeEap(data).Ok? <==> 4 <= |data|
    ensures 4 <= |data| ==>
              var p := DecodeEap(data).value;
              && p.code == data[0] && p.id == data[1]
              && (p.kind.None? <==> data[0] in {3, 4} || |data| == 4)
              && (p.kind.None? ==> p.payload == [])
              && (p.kind.Some? ==>
                    var length := 0x100 * data[2] as int + data[3] as int;
                    && p.kind.value == data[4]
                    && p.payload == data[5..Max(5, Min(length, |data|))])
  {
  }

  /** decode_eap stops at the packet's own length: octets after it change nothing. */
  lemma DecodeIgnoresTail(code: byte, id: byte, kind: Option<byte>, data: bytes, tail: bytes)
    requires EncodeEap(code, id, kind, data).Ok?
    ensures DecodeEap(EncodeEap(code, id, kind, data).value + tail)
         == DecodeEap(EncodeEap(code, id, kind, data).value)
  {
    var e := EncodeEap(code, id, kind, data).value;
    var f := e + tail;
    assert forall i :: 0 <= i < |e| ==> f[i] == e[i];
    if code != SUCCESS && code != FAILURE {
      assert At(e, 2, U16(5 + |data|)) && At(f, 2, U16(5 + |data|));
      U16RoundTrip(5 + |data|, e, 2);
      U16RoundTrip(5 + |data|, f, 2);
      assert Slice(f, 5, |e|) == Slice(e, 5, |e|);
    }
  }

  lemma TeapRoundTrip(id: byte, more: bool, data: bytes)
    requires 6 + |data| < 0x1_0000
    ensures var e := EncodeTeap(id, if more then FLAG_M else 0, data);
            && e.Ok?
            && |e.value| == 6 + |data|
            && DecodeEap(e.value).Ok?
            && DecodeEap(e.value).value.id == id
            && DecodeEap(e.value).value.kind == Some(TEAP)
            && DecodeTeap(DecodeEap(e.value).value.payload)
            == Ok(TeapData(false, false, more, 1, 0, data))
  {
    var flags := if more then FLAG_M else 0;
    EapRoundTrip(RESPONSE, id, Some(TEAP), [FlagsByte(flags)] + data);
    assert ([FlagsByte(flags)] + data)[1..] == data;
  }

  lemma TeapWithLengthRoundTrip(id: byte, more: bool, total: nat, data: bytes)
    requires 10 + |data| < 0x1_0000 && total < 0x1_0000_0000
    ensures var e := EncodeTeapWithLength(id, if more then FLAG_M else 0, total, data);
            && e.Ok?
            && |e.value| == 10 + |data|
            && DecodeEap(e.value).Ok?
            && DecodeEap(e.value).value.id == id
            && DecodeEap(e.value).value.kind == Some(TEAP)
            && DecodeTeap(DecodeEap(e.value).value.payload)
            == Ok(TeapData(false, true, more, 1, total, data))
  {
    var flags := WithL(if more then FLAG_M else 0);
    var payload := [FlagsByte(flags)] + U32(total) + data;
    EapRoundTrip(RESPONSE, id, Some(TEAP), payload);
    assert At(payload, 1, U32(total));
    U32RoundTrip(total, payload, 1);
    assert payload[5..] == data;
  }

  // ── Reassembly ──

  datatype Assembly = Assembly(buffer: bytes, totalLength: nat, assembling: bool)

  function Fed(a: Assembly, t: TeapData): (Assembly, Option<bytes>) {
    if t.start then (a.(buffer := [], assembling := false), None)
    else if t.lengthIncluded && t.moreFragments then
      (Assembly(t.data, t.totalLength, true), None)
    else if a.assembling then
      if t.moreFragments then (a.(buffer := a.buffer + t.data), None)
      else (a.(buffer := a.buffer + t.data, assembling := false), Some(a.buffer + t.data))
    else (a, Some(t.data))
  }

  class FragmentAssembler {
    var buffer: bytes
    var totalLength: nat
    var assembling: bool

    ghost function View(): Assembly
      reads this
    {
      Assembly(buffer, totalLength, assembling)
    }

    constructor ()
      ensures View() == Assembly([], 0, false)
    {
      buffer, totalLength, assembling := [], 0, false;
    }

    method Feed(teap: TeapData) returns (r: Option<bytes>)
      modifies this
      ensures (View(), r) == Fed(old(View()), teap)
    {
      if teap.start {
        buffer := [];
        assembling := false;
        return None;
      }
      if teap.lengthIncluded && teap.moreFragments {
        buffer := teap.data;
        totalLength := teap.totalLength;
        assembling := true;
        return None;
      }
      if assembling {
        buffer := buffer + teap.data;
        if teap.moreFragments {
          return None;
        }
        assembling := false;
        return Some(buffer);
      }
      return Some(teap.data);
    }

    function NeedsAck(): bool
      reads this
    {
      assembling
    }
  }
}
