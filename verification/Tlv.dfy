/** TEAP TLVs: teap_tester/tlv.py, RFC 9930 section 4. */
module Tlv {
  import opened Bytes

  datatype Tlv = Tlv(kind: nat, mandatory: bool, value: bytes)

  const IDENTITY_TYPE := 2
  const RESULT := 3
  const NAK := 4
  const ERROR := 5
  const VENDOR_SPECIFIC := 7
  const EAP_PAYLOAD := 9
  const INTERMEDIATE_RESULT := 10
  const PAC := 11
  const CRYPTO_BINDING := 12

  const SUCCESS := 1
  const FAILURE := 2

  /** The values encode_tlv can carry: a 14-bit type and a 16-bit length. */
  predicate WellSized(t: Tlv) {
    t.kind < 0x4000 && |t.value| < 0x1_0000
  }

  predicate AllWellSized(ts: seq<Tlv>) {
    forall i :: 0 <= i < |ts| ==> WellSized(ts[i])
  }

  function EncodeTlv(t: Tlv): Result<bytes> {
    if |t.value| >= 0x1_0000 then Err(PackError) else Ok(Encoding(t))
  }

  function Encoding(t: Tlv): (r: bytes)
    requires |t.value| < 0x1_0000
    ensures |r| == 4 + |t.value|
  {
    U16(t.kind % 0x4000 + (if t.mandatory then 0x8000 else 0)) + U16(|t.value|) + t.value
  }

  /** Whether a whole TLV stands at `offset`. */
  predicate Whole(data: bytes, offset: nat) {
    offset + 4 <= |data| && offset + 4 + GetU16(data, offset + 2) <= |data|
  }

  function Next(data: bytes, offset: nat): (next: nat)
    requires Whole(data, offset)
    ensures offset + 4 <= next <= |data|
  {
    offset + 4 + GetU16(data, offset + 2)
  }

  /** The TLVs of `data` from `offset`. */
  function Walk(data: bytes, offset: nat): seq<Tlv>
    decreases |data| - offset
  {
    if !Whole(data, offset) then []
    else [TlvAt(data, offset)] + Walk(data, Next(data, offset))
  }

  /** How far the walk reads. */
  function WalkEnd(data: bytes, offset: nat): (end: nat)
    requires offset <= |data|
    ensures offset <= end <= |data|
    decreases |data| - offset
  {
    if !Whole(data, offset) then offset else WalkEnd(data, Next(data, offset))
  }

  function TlvAt(data: bytes, offset: nat): Tlv
    requires Whole(data, offset)
  {
    var flagsType := GetU16(data, offset);
    Tlv(flagsType % 0x4000, flagsType >= 0x8000, data[offset + 4..Next(data, offset)])
  }

  lemma Extend(before: seq<Tlv>, data: bytes, offset: nat)
    requires Whole(data, offset)
    ensures before + Walk(data, offset)
         == before + [TlvAt(data, offset)] + Walk(data, Next(data, offset))
  {
  }

  function Tlvs(data: bytes): seq<Tlv> { Walk(data, 0) }

  /** decode_tlvs, the loop of tlv.py. */
  method DecodeTlvs(data: bytes) returns (tlvs: seq<Tlv>)
    ensures tlvs == Tlvs(data)
  {
    tlvs := [];
    var offset := 0;
    while offset + 4 <= |data|
      invariant offset <= |data|
      invariant tlvs + Walk(data, offset) == Tlvs(data)
      decreases |data| - offset
    {
      var flagsType := GetU16(data, offset);
      var length := GetU16(data, offset + 2);
      var mandatory := flagsType >= 0x8000;
      var kind := flagsType % 0x4000;
      if offset + 4 + length > |data| {
        break;
      }
      ghost var here, before := offset, tlvs;
      offset := offset + 4;
      var value := data[offset..offset + length];
      tlvs := tlvs + [Tlv(kind, mandatory, value)];
      offset := offset + length;
      assert offset == Next(data, here) && Tlv(kind, mandatory, value) == TlvAt(data, here);
      Extend(before, data, here);
    }
  }

  /** The concatenated encodings of ts[i..]. */
  function EncodeFrom(ts: seq<Tlv>, i: nat): bytes
    requires AllWellSized(ts) && i <= |ts|
    decreases |ts| - i
  {
    if i == |ts| then [] else Encoding(ts[i]) + EncodeFrom(ts, i + 1)
  }

  function EncodeAll(ts: seq<Tlv>): bytes
    requires AllWellSized(ts)
  {
    EncodeFrom(ts, 0)
  }

  /** Reading one encoded TLV at any position of any buffer. */
  lemma TlvAtRoundTrip(t: Tlv, data: bytes, at: nat)
    requires WellSized(t) && At(data, at, Encoding(t))
    ensures Whole(data, at)
    ensures Next(data, at) == at + |Encoding(t)|
    ensures TlvAt(data, at) == t
  {
    var flagsType := t.kind % 0x4000 + (if t.mandatory then 0x8000 else 0);
    AtSplit(data, at, U16(flagsType) + U16(|t.value|), t.value);
    AtSplit(data, at, U16(flagsType), U16(|t.value|));
    U16RoundTrip(flagsType, data, at);
    U16RoundTrip(|t.value|, data, at + 2);
  }

  lemma WalkStep(t: Tlv, data: bytes, at: nat)
    requires WellSized(t) && At(data, at, Encoding(t))
    ensures Walk(data, at) == [t] + Walk(data, at + |Encoding(t)|)
  {
    TlvAtRoundTrip(t, data, at);
  }

  /** Encoded TLVs are read back in full wherever they stand, and the walk goes on with
      whatever follows them. */
  lemma {:induction false} WalkEncoded(data: bytes, at: nat, ts: seq<Tlv>, i: nat)
    requires AllWellSized(ts) && i <= |ts| && At(data, at, EncodeFrom(ts, i))
    ensures Walk(data, at) == ts[i..] + Walk(data, at + |EncodeFrom(ts, i)|)
    decreases |ts| - i
  {
    hide Walk, Encoding, At;
    if i < |ts| {
      AtSplit(data, at, Encoding(ts[i]), EncodeFrom(ts, i + 1));
      WalkStep(ts[i], data, at);
      WalkEncoded(data, at + |Encoding(ts[i])|, ts, i + 1);
      ConsAssoc(ts[i..], Walk(data, at + |EncodeFrom(ts, i)|));
    }
  }

  /** decode_tlvs inverts the concatenation of encode_tlv over any list, and still yields it
      first when arbitrary octets follow. */
  lemma DecodeInvertsEncode(ts: seq<Tlv>, tail: bytes)
    requires AllWellSized(ts)
    ensures Tlvs(EncodeAll(ts)) == ts
    ensures ts <= Tlvs(EncodeAll(ts) + tail)
  {
    WalkEncoded(EncodeAll(ts), 0, ts, 0);
    WalkEncoded(EncodeAll(ts) + tail, 0, ts, 0);
  }

  /** The octets a list of TLVs stands for. */
  function Size(ts: seq<Tlv>): nat {
    if ts == [] then 0 else 4 + |ts[0].value| + Size(ts[1..])
  }

  /** On any input the decoded TLVs are well-sized and account for exactly the octets the
      walk read: never more than the input holds, and with less than a whole TLV left. */
  lemma {:induction false} WalkConsumes(data: bytes, offset: nat)
    requires offset <= |data|
    ensures AllWellSized(Walk(data, offset))
    ensures offset + Size(Walk(data, offset)) == WalkEnd(data, offset) <= |data|
    ensures !Whole(data, WalkEnd(data, offset))
    decreases |data| - offset
  {
    if Whole(data, offset) {
      var rest := Walk(data, Next(data, offset));
      WalkConsumes(data, Next(data, offset));
      assert Walk(data, offset)[1..] == rest;
    }
  }

  // ── Typed builders ──

  function ResultTlv(status: nat): (r: bytes)
    requires status < 0x1_0000
    ensures |r| == 6
  {
    EncodeTlv(Tlv(RESULT, true, U16(status))).value
  }

  function IntermediateResultTlv(status: nat): (r: bytes)
    requires status < 0x1_0000
    ensures |r| == 6
  {
    EncodeTlv(Tlv(INTERMEDIATE_RESULT, true, U16(status))).value
  }

  function ErrorTlv(code: nat): (r: bytes)
    requires code < 0x1_0000_0000
    ensures |r| == 8
  {
    EncodeTlv(Tlv(ERROR, true, U32(code))).value
  }

  function NakTlv(kind: nat, vendor: nat): (r: bytes)
    requires kind < 0x1_0000 && vendor < 0x1_0000_0000
    ensures |r| == 10
  {
    EncodeTlv(Tlv(NAK, true, U32(vendor) + U16(kind))).value
  }

  function IdentityTypeTlv(kind: nat): (r: bytes)
    requires kind < 0x1_0000
    ensures |r| == 6
  {
    EncodeTlv(Tlv(IDENTITY_TYPE, true, U16(kind))).value
  }

  function EapPayloadTlv(eap: bytes): Result<bytes> {
    EncodeTlv(Tlv(EAP_PAYLOAD, true, eap))
  }
}
