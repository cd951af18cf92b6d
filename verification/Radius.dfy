/** RADIUS packets: teap_tester/radius.py, RFC 2865 and RFC 3579. */
module Radius {
  import opened Bytes
  import opened Crypto

  datatype Attr = Attr(kind: nat, value: bytes)

  const EAP_MESSAGE := 79
  const MESSAGE_AUTHENTICATOR := 80
  const STATE := 24
  const ERROR_CAUSE := 101

  const ACCESS_REQUEST: byte := 1
  const ACCESS_ACCEPT: byte := 2
  const ACCESS_REJECT: byte := 3
  const ACCOUNTING_REQUEST: byte := 4
  const ACCESS_CHALLENGE: byte := 11

  // ── Attribute lists on the wire ──

  predicate Fits(a: Attr) {
    a.kind < 0x100 && |a.value| <= 253
  }

  predicate AllFit(attrs: seq<Attr>) {
    forall i :: 0 <= i < |attrs| ==> Fits(attrs[i])
  }

  function Encoding(a: Attr): (r: bytes)
    requires Fits(a)
    ensures |r| == 2 + |a.value|
  {
    [a.kind, |a.value| + 2] + a.value
  }

  /** The concatenated encodings of attrs[i..]. */
  function EncodeFrom(attrs: seq<Attr>, i: nat): bytes
    requires AllFit(attrs) && i <= |attrs|
    decreases |attrs| - i
  {
    if i == |attrs| then [] else Encoding(attrs[i]) + EncodeFrom(attrs, i + 1)
  }

  /** Whether a whole attribute stands at `offset`. */
  predicate Whole(data: bytes, offset: nat) {
    offset + 2 <= |data| && 2 <= data[offset + 1] && offset + data[offset + 1] <= |data|
  }

  function AttrAt(data: bytes, offset: nat): Attr
    requires Whole(data, offset)
  {
    Attr(data[offset], data[offset + 2..offset + data[offset + 1]])
  }

  /** The attributes of `data` from `offset`, up to the first that is malformed. */
  function Walk(data: bytes, offset: nat): seq<Attr>
    decreases |data| - offset
  {
    if !Whole(data, offset) then []
    else [AttrAt(data, offset)] + Walk(data, offset + data[offset + 1])
  }

  function Attrs(data: bytes): seq<Attr> { Walk(data, 0) }

  /** The offset of the first value of type `wanted`, walking from `offset`. */
  function Find(packet: bytes, wanted: nat, offset: nat): (r: Option<nat>)
    ensures r.Some? ==> r.value <= |packet|
    decreases |packet| - offset
  {
    if !Whole(packet, offset) then None
    else if packet[offset] == wanted then Some(offset + 2)
    else Find(packet, wanted, offset + packet[offset + 1])
  }

  lemma Extend(before: seq<Attr>, data: bytes, offset: nat)
    requires Whole(data, offset)
    ensures before + Walk(data, offset)
         == before + [AttrAt(data, offset)] + Walk(data, offset + data[offset + 1])
  {
  }

  lemma WalkGoesOn(data: bytes, offset: nat)
    requires Whole(data, offset)
    ensures Walk(data, offset) == [AttrAt(data, offset)] + Walk(data, offset + data[offset + 1])
  {
  }

  lemma WalkStops(data: bytes, offset: nat)
    requires !Whole(data, offset)
    ensures Walk(data, offset) == []
  {
  }

  /** _decode_attrs */
  method DecodeAttrs(data: bytes) returns (attrs: seq<Attr>)
    ensures attrs == Attrs(data)
  {
    hide Walk;
    attrs := [];
    var offset := 0;
    while offset + 2 <= |data|
      invariant offset <= |data|
      invariant attrs + Walk(data, offset) == Attrs(data)
      decreases |data| - offset
    {
      var kind := data[offset];
      var length := data[offset + 1];
      if length < 2 || offset + length > |data| {
        break;
      }
      assert Whole(data, offset);
      Extend(attrs, data, offset);
      var value := data[offset + 2..offset + length];
      attrs := attrs + [Attr(kind, value)];
      offset := offset + length;
    }
    WalkStops(data, offset);
  }

  /** _find_attr_offset */
  method FindAttrOffset(packet: bytes, wanted: nat) returns (r: Option<nat>)
    ensures r == Find(packet, wanted, 20)
  {
    var offset := 20;
    while offset + 2 <= |packet|
      invariant Find(packet, wanted, offset) == Find(packet, wanted, 20)
      decreases |packet| - offset
    {
      var kind := packet[offset];
      var length := packet[offset + 1];
      if length < 2 || offset + length > |packet| {
        return None;
      }
      if kind == wanted {
        return Some(offset + 2);
      }
      offset := offset + length;
    }
    return None;
  }

  lemma WalkStep(a: Attr, data: bytes, at: nat)
    requires Fits(a) && At(data, at, Encoding(a))
    ensures Whole(data, at) && data[at] == a.kind
    ensures at + data[at + 1] == at + |Encoding(a)|
    ensures Walk(data, at) == [a] + Walk(data, at + |Encoding(a)|)
  {
    var e := Encoding(a);
    assert data[at + 0] == e[0] && data[at + 1] == e[1];
    AtSplit(data, at, [a.kind, |a.value| + 2], a.value);
    assert data[at + 2..at + 2 + |a.value|] == a.value;
  }

  /** Encoded attributes are read back in full wherever they stand. */
  lemma {:induction false} WalkEncoded(data: bytes, at: nat, attrs: seq<Attr>, i: nat)
    requires AllFit(attrs) && i <= |attrs| && At(data, at, EncodeFrom(attrs, i))
    ensures Walk(data, at) == attrs[i..] + Walk(data, at + |EncodeFrom(attrs, i)|)
    decreases |attrs| - i
  {
    hide Walk, Encoding, At;
    if i < |attrs| {
      AtSplit(data, at, Encoding(attrs[i]), EncodeFrom(attrs, i + 1));
      WalkStep(attrs[i], data, at);
      WalkEncoded(data, at + |Encoding(attrs[i])|, attrs, i + 1);
      ConsAssoc(attrs[i..], Walk(data, at + |EncodeFrom(attrs, i)|));
    }
  }

  /** _decode_attrs inverts the encoding loop of encode_request. */
  lemma DecodeInvertsEncode(attrs: seq<Attr>)
    requires AllFit(attrs)
    ensures Attrs(EncodeFrom(attrs, 0)) == attrs
  {
    WalkEncoded(EncodeFrom(attrs, 0), 0, attrs, 0);
  }

  /** The search passes over encoded attributes of other types, whatever octets their values
      hold. */
  lemma {:induction false} FindSkips(packet: bytes, wanted: nat, at: nat, attrs: seq<Attr>, i: nat)
    requires AllFit(attrs) && i <= |attrs| && At(packet, at, EncodeFrom(attrs, i))
    requires forall j :: i <= j < |attrs| ==> attrs[j].kind != wanted
    ensures Find(packet, wanted, at) == Find(packet, wanted, at + |EncodeFrom(attrs, i)|)
    decreases |attrs| - i
  {
    if i < |attrs| {
      AtSplit(packet, at, Encoding(attrs[i]), EncodeFrom(attrs, i + 1));
      WalkStep(attrs[i], packet, at);
      FindSkips(packet, wanted, at + |Encoding(attrs[i])|, attrs, i + 1);
    }
  }

  // ── The two walks agree ──

  /** The index of the first attribute of type `kind`, or the length when there is none. */
  function FirstIndex(attrs: seq<Attr>, kind: nat): (k: nat)
    ensures k <= |attrs|
    ensures k < |attrs| ==> attrs[k].kind == kind
    ensures forall i :: 0 <= i < k ==> attrs[i].kind != kind
  {
    if attrs == [] || attrs[0].kind == kind then 0 else 1 + FirstIndex(attrs[1..], kind)
  }

  lemma {:induction false} FindMeetsWalk(packet: bytes, wanted: nat, offset: nat)
    ensures var attrs := Walk(packet, offset);
            var found := Find(packet, wanted, offset);
            var k := FirstIndex(attrs, wanted);
            && (found.Some? <==> k < |attrs|)
            && (found.Some? ==> At(packet, found.value, attrs[k].value))
    decreases |packet| - offset
  {
    hide FirstIndex, At;
    if Whole(packet, offset) {
      var next := offset + packet[offset + 1];
      var rest := Walk(packet, next);
      FirstIndexOfMore(AttrAt(packet, offset), rest, wanted);
      if packet[offset] != wanted {
        FindMeetsWalk(packet, wanted, next);
        assert ([AttrAt(packet, offset)] + rest)[1..] == rest;
      } else {
        ValueStands(packet, offset);
      }
    }
  }

  lemma FirstIndexOfMore(a: Attr, rest: seq<Attr>, kind: nat)
    ensures FirstIndex([a] + rest, kind) == if a.kind == kind then 0 else 1 + FirstIndex(rest, kind)
  {
    assert ([a] + rest)[1..] == rest;
  }

  lemma ValueStands(packet: bytes, offset: nat)
    requires Whole(packet, offset)
    ensures At(packet, offset + 2, AttrAt(packet, offset).value)
  {
  }

  lemma {:induction false} WalkShift(packet: bytes, from: nat, offset: nat)
    requires from <= |packet|
    ensures Walk(packet, from + offset) == Walk(packet[from..], offset)
    decreases |packet| - offset
  {
    hide AttrAt, Walk;
    var tail := packet[from..];
    AttrShifts(packet, from, offset);
    if Whole(tail, offset) {
      WalkShift(packet, from, offset + tail[offset + 1]);
      WalkGoesOn(tail, offset);
      WalkGoesOn(packet, from + offset);
    } else {
      WalkStops(tail, offset);
      WalkStops(packet, from + offset);
    }
  }

  lemma AttrShifts(packet: bytes, from: nat, offset: nat)
    requires from <= |packet|
    ensures var tail := packet[from..];
            && (Whole(tail, offset) <==> Whole(packet, from + offset))
            && (Whole(tail, offset) ==>
                  && tail[offset + 1] == packet[from + offset + 1]
                  && AttrAt(tail, offset) == AttrAt(packet, from + offset))
  {
    var tail := packet[from..];
    if offset + 2 <= |tail| {
      assert tail[offset] == packet[from + offset] && tail[offset + 1] == packet[from + offset + 1];
      if Whole(tail, offset) {
        assert tail[offset + 2..offset + tail[offset + 1]]
            == packet[from + offset + 2..from + offset + packet[from + offset + 1]];
      }
    }
  }

  /** attrs[k] is the first attribute of its type. */
  predicate FirstOf(attrs: seq<Attr>, kind: nat, k: nat)
    requires k < |attrs|
  {
    attrs[k].kind == kind && forall i :: 0 <= i < k ==> attrs[i].kind != kind
  }

  /** On every octet string, malformed tails included: _find_attr_offset finds a value exactly
      when the type occurs among the decoded attributes, and points at the first such value. */
  lemma WalksAgree(packet: bytes, wanted: nat)
    requires 20 <= |packet|
    ensures var attrs := Attrs(packet[20..]);
            var found := Find(packet, wanted, 20);
            && (found.Some? <==> exists i :: 0 <= i < |attrs| && attrs[i].kind == wanted)
            && (found.Some? ==> (exists k :: 0 <= k < |attrs| && FirstOf(attrs, wanted, k)
                                             && At(packet, found.value, attrs[k].value)))
  {
    FindMeetsWalk(packet, wanted, 20);
    WalkShift(packet, 20, 0);
  }

  // ── EAP-Message splitting ──

  /** _split_eap */
  function SplitEap(data: bytes): (chunks: seq<bytes>)
    ensures forall i :: 0 <= i < |chunks| ==> 0 < |chunks[i]| <= 253
  {
    if data == [] then [] else [Take(data, 253)] + SplitEap(Drop(data, 253))
  }

  lemma {:induction false} SplitEapJoins(data: bytes)
    ensures Concat(SplitEap(data)) == data
  {
    if data != [] {
      SplitEapJoins(Drop(data, 253));
      assert SplitEap(data)[1..] == SplitEap(Drop(data, 253));
    }
  }

  function EapAttrs(chunks: seq<bytes>): (r: seq<Attr>)
    ensures |r| == |chunks|
    ensures forall i :: 0 <= i < |r| ==> r[i] == Attr(EAP_MESSAGE, chunks[i])
  {
    seq(|chunks|, i requires 0 <= i < |chunks| => Attr(EAP_MESSAGE, chunks[i]))
  }

  /** The attributes actually sent: each EAP-Message split into pieces of 253 octets. */
  function Expand(attrs: seq<Attr>): seq<Attr> {
    if attrs == [] then []
    else (if attrs[0].kind == EAP_MESSAGE then EapAttrs(SplitEap(attrs[0].value)) else [attrs[0]])
         + Expand(attrs[1..])
  }

  predicate HasKind(attrs: seq<Attr>, kind: nat) {
    exists i :: 0 <= i < |attrs| && attrs[i].kind == kind
  }

  // ── Whole packets ──

  predicate Framable(attrs: seq<Attr>) {
    AllFit(attrs) && 20 + |EncodeFrom(attrs, 0)| < 0x1_0000
  }

  function Header(code: byte, id: byte, length: nat): (r: bytes)
    requires length < 0x1_0000
    ensures |r| == 4
  {
    [code, id] + U16(length)
  }

  /** The packet of a code, an identifier, an authenticator and an attribute list. */
  function Frame(code: byte, id: byte, authenticator: Octets16, attrs: seq<Attr>): (r: bytes)
    requires Framable(attrs)
    ensures |r| == 20 + |EncodeFrom(attrs, 0)|
  {
    var body := EncodeFrom(attrs, 0);
    Header(code, id, 20 + |body|) + authenticator + body
  }

  /** Every field of a framed packet reads back. */
  lemma FrameReads(code: byte, id: byte, authenticator: Octets16, attrs: seq<Attr>)
    requires Framable(attrs)
    ensures var f := Frame(code, id, authenticator, attrs);
            && f[0] == code && f[1] == id && GetU16(f, 2) == |f|
            && f[4..20] == authenticator
            && Attrs(f[20..]) == attrs
  {
    var body := EncodeFrom(attrs, 0);
    var f := Frame(code, id, authenticator, attrs);
    assert At(f, 2, U16(20 + |body|));
    U16RoundTrip(20 + |body|, f, 2);
    assert f[20..] == body;
    DecodeInvertsEncode(attrs);
  }

  /** In a framed packet the search finds the last attribute's value when no earlier attribute
      has its type. */
  lemma FindLast(code: byte, id: byte, authenticator: Octets16, pre: seq<Attr>, last: Attr)
    requires Framable(pre + [last]) && !HasKind(pre, last.kind)
    ensures var f := Frame(code, id, authenticator, pre + [last]);
            Find(f, last.kind, 20) == Some(|f| - |last.value|)
  {
    hide Find, EncodeFrom, Encoding, At;
    var f := Frame(code, id, authenticator, pre + [last]);
    AllFitPrefix(pre, last);
    EncodeSnoc(pre, last);
    BodyStands(code, id, authenticator, pre + [last]);
    FindAfter(f, 20, pre, last);
  }

  lemma EncodeSnoc(pre: seq<Attr>, last: Attr)
    requires AllFit(pre) && Fits(last)
    ensures AllFit(pre + [last])
    ensures EncodeFrom(pre + [last], 0) == EncodeFrom(pre, 0) + Encoding(last)
  {
    EncodeAppend(pre, [last], 0);
    EncodeOne(last);
  }

  lemma BodyStands(code: byte, id: byte, authenticator: Octets16, attrs: seq<Attr>)
    requires Framable(attrs)
    ensures At(Frame(code, id, authenticator, attrs), 20, EncodeFrom(attrs, 0))
  {
  }

  lemma FindAfter(packet: bytes, at: nat, pre: seq<Attr>, last: Attr)
    requires AllFit(pre) && Fits(last) && !HasKind(pre, last.kind)
    requires At(packet, at, EncodeFrom(pre, 0) + Encoding(last))
    ensures Find(packet, last.kind, at) == Some(at + |EncodeFrom(pre, 0)| + 2)
  {
    AtSplit(packet, at, EncodeFrom(pre, 0), Encoding(last));
    FindSkips(packet, last.kind, at, pre, 0);
    WalkStep(last, packet, at + |EncodeFrom(pre, 0)|);
  }

  lemma FindNothing(code: byte, id: byte, authenticator: Octets16, attrs: seq<Attr>, kind: nat)
    requires Framable(attrs) && !HasKind(attrs, kind)
    ensures Find(Frame(code, id, authenticator, attrs), kind, 20).None?
  {
    BodyStands(code, id, authenticator, attrs);
    FindSkips(Frame(code, id, authenticator, attrs), kind, 20, attrs, 0);
  }

  lemma AllFitPrefix(pre: seq<Attr>, last: Attr)
    requires AllFit(pre + [last])
    ensures AllFit(pre) && Fits(last)
  {
    forall i | 0 <= i < |pre|
      ensures Fits(pre[i])
    {
      assert Fits((pre + [last])[i]);
    }
    assert Fits((pre + [last])[|pre|]);
  }

  lemma EncodeOne(a: Attr)
    requires Fits(a)
    ensures EncodeFrom([a], 0) == Encoding(a)
  {
    assert EncodeFrom([a], 1) == [];
  }

  lemma AllFitAppend(xs: seq<Attr>, ys: seq<Attr>)
    requires AllFit(xs) && AllFit(ys)
    ensures AllFit(xs + ys)
  {
  }

  lemma {:induction false} EncodeAppend(xs: seq<Attr>, ys: seq<Attr>, i: nat)
    requires AllFit(xs) && AllFit(ys) && i <= |xs|
    ensures AllFit(xs + ys)
    ensures EncodeFrom(xs + ys, i) == EncodeFrom(xs, i) + EncodeFrom(ys, 0)
    decreases |xs| - i
  {
    AllFitAppend(xs, ys);
    if i < |xs| {
      EncodeAppend(xs, ys, i + 1);
      assert (xs + ys)[i] == xs[i];
      Assoc(Encoding(xs[i]), EncodeFrom(xs, i + 1), EncodeFrom(ys, 0));
    } else {
      EncodeTail(xs, ys, 0);
    }
  }

  lemma {:induction false} EncodeTail(xs: seq<Attr>, ys: seq<Attr>, j: nat)
    requires AllFit(xs) && AllFit(ys) && j <= |ys|
    ensures AllFit(xs + ys)
    ensures EncodeFrom(xs + ys, |xs| + j) == EncodeFrom(ys, j)
    decreases |ys| - j
  {
    AllFitAppend(xs, ys);
    if j < |ys| {
      EncodeTail(xs, ys, j + 1);
      assert (xs + ys)[|xs| + j] == ys[j];
    }
  }

  // ── Requests ──

  /** encode_request: the packet an attribute list becomes, or the fault packing it raises.
      A list that names a Message-Authenticator itself goes out as it is. */
  function RequestPacket(p: Primitives, code: byte, id: byte, authenticator: Octets16,
                         secret: bytes, attrs: seq<Attr>): Result<bytes>
  {
    var sent := Expand(attrs);
    if !Framable(sent) then Err(PackError)
    else if HasKind(attrs, MESSAGE_AUTHENTICATOR) then Ok(Frame(code, id, authenticator, sent))
    else if 38 + |EncodeFrom(sent, 0)| >= 0x1_0000 then Err(PackError)
    else
      SignedFits(sent, Zeros(16));
      var mac := p.hmacMd5(secret, Frame(code, id, authenticator, Signed(sent, Zeros(16))));
      SignedFits(sent, mac);
      Ok(Frame(code, id, authenticator, Signed(sent, mac)))
  }

  function Signed(attrs: seq<Attr>, mac: Octets16): seq<Attr> {
    attrs + [Attr(MESSAGE_AUTHENTICATOR, mac)]
  }

  lemma SignedFits(attrs: seq<Attr>, mac: Octets16)
    requires AllFit(attrs)
    ensures AllFit(Signed(attrs, mac))
    ensures EncodeFrom(Signed(attrs, mac), 0) == EncodeFrom(attrs, 0) + [80, 18] + mac
  {
    var last := Attr(MESSAGE_AUTHENTICATOR, mac);
    EncodeAppend(attrs, [last], 0);
    EncodeOne(last);
    assert EncodeFrom(attrs, 0) + ([80, 18] + mac) == EncodeFrom(attrs, 0) + [80, 18] + mac;
  }

  lemma {:induction false} ExpandSnoc(attrs: seq<Attr>, a: Attr)
    ensures Expand(attrs + [a]) == Expand(attrs)
          + (if a.kind == EAP_MESSAGE then EapAttrs(SplitEap(a.value)) else [a])
  {
    if attrs == [] {
      assert [a][1..] == [];
    } else {
      assert (attrs + [a])[1..] == attrs[1..] + [a];
      ExpandSnoc(attrs[1..], a);
    }
  }

  lemma {:induction false} ExpandPrefix(attrs: seq<Attr>, i: nat)
    requires i <= |attrs| && AllFit(Expand(attrs))
    ensures AllFit(Expand(attrs[..i]))
    decreases |attrs| - i
  {
    if i == |attrs| {
      assert attrs[..i] == attrs;
    } else {
      ExpandPrefix(attrs, i + 1);
      assert attrs[..i + 1] == attrs[..i] + [attrs[i]];
      ExpandSnoc(attrs[..i], attrs[i]);
      var longer := Expand(attrs[..i + 1]);
      forall j | 0 <= j < |Expand(attrs[..i])|
        ensures Fits(Expand(attrs[..i])[j])
      {
        assert Fits(longer[j]);
      }
    }
  }

  method EncodeEapPieces(chunks: seq<bytes>) returns (r: bytes)
    requires AllFit(EapAttrs(chunks))
    ensures r == EncodeFrom(EapAttrs(chunks), 0)
  {
    r := [];
    ghost var pieces := EapAttrs(chunks);
    for k := 0 to |chunks|
      invariant r == EncodeFrom(pieces[..k], 0)
    {
      assert pieces[..k + 1] == pieces[..k] + [pieces[k]];
      EncodeAppend(pieces[..k], [pieces[k]], 0);
      EncodeOne(pieces[k]);
      r := r + ([EAP_MESSAGE, |chunks[k]| + 2] + chunks[k]);
    }
    assert pieces[..|chunks|] == pieces;
  }

  lemma ExpandNext(attrs: seq<Attr>, i: nat)
    requires i < |attrs|
    ensures Expand(attrs[..i + 1]) == Expand(attrs[..i])
          + (if attrs[i].kind == EAP_MESSAGE then EapAttrs(SplitEap(attrs[i].value)) else [attrs[i]])
  {
    assert attrs[..i + 1] == attrs[..i] + [attrs[i]];
    ExpandSnoc(attrs[..i], attrs[i]);
  }

  /** One attribute that does not fit keeps the whole list from fitting. */
  lemma Unfit(attrs: seq<Attr>, i: nat)
    requires i < |attrs| && attrs[i].kind != EAP_MESSAGE && !Fits(attrs[i])
    ensures !AllFit(Expand(attrs))
  {
    ExpandNext(attrs, i);
    assert Expand(attrs[..i + 1])[|Expand(attrs[..i])|] == attrs[i];
    if AllFit(Expand(attrs)) {
      ExpandPrefix(attrs, i + 1);
      assert false;
    }
  }

  /** The loop of encode_request over the attributes. */
  method EncodeAttrs(attrs: seq<Attr>) returns (r: Result<bytes>)
    ensures r == if AllFit(Expand(attrs)) then Ok(EncodeFrom(Expand(attrs), 0)) else Err(PackError)
  {
    var attrBytes := [];
    for i := 0 to |attrs|
      invariant AllFit(Expand(attrs[..i])) && attrBytes == EncodeFrom(Expand(attrs[..i]), 0)
    {
      ghost var done := Expand(attrs[..i]);
      ExpandNext(attrs, i);
      if attrs[i].kind == EAP_MESSAGE {
        var chunks := SplitEap(attrs[i].value);
        var pieces := EncodeEapPieces(chunks);
        EncodeAppend(done, EapAttrs(chunks), 0);
        attrBytes := attrBytes + pieces;
      } else {
        if attrs[i].kind >= 0x100 || |attrs[i].value| > 253 {
          Unfit(attrs, i);
          return Err(PackError);
        }
        EncodeAppend(done, [attrs[i]], 0);
        EncodeOne(attrs[i]);
        attrBytes := attrBytes + ([attrs[i].kind, |attrs[i].value| + 2] + attrs[i].value);
      }
    }
    assert attrs[..|attrs|] == attrs;
    return Ok(attrBytes);
  }

  method EncodeRequest(p: Primitives, code: byte, id: byte, authenticator: Octets16,
                       secret: bytes, attrs: seq<Attr>) returns (r: Result<bytes>)
    ensures r == RequestPacket(p, code, id, authenticator, secret, attrs)
  {
    var attrBytes :- EncodeAttrs(attrs);
    var length := 20 + |attrBytes|;
    if length >= 0x1_0000 {
      return Err(PackError);
    }
    var packet := Header(code, id, length) + authenticator + attrBytes;
    if exists i :: 0 <= i < |attrs| && attrs[i].kind == MESSAGE_AUTHENTICATOR {
      return Ok(packet);
    }
    length := length + 18;
    if length >= 0x1_0000 {
      return Err(PackError);
    }
    ghost var sent := Expand(attrs);
    packet := Header(code, id, length) + authenticator + attrBytes + ([80, 18] + Zeros(16));
    SignedFrame(code, id, authenticator, sent, Zeros(16));
    var msgAuth := p.hmacMd5(secret, packet);
    packet := packet[..|packet| - 16] + msgAuth;
    SignedFrame(code, id, authenticator, sent, msgAuth);
    return Ok(packet);
  }

  /** A signed packet as encode_request lays it out, and without its last 16 octets. */
  lemma SignedFrame(code: byte, id: byte, authenticator: Octets16, attrs: seq<Attr>, mac: Octets16)
    requires AllFit(attrs) && 38 + |EncodeFrom(attrs, 0)| < 0x1_0000
    ensures Framable(Signed(attrs, mac))
    ensures var body := EncodeFrom(attrs, 0);
            var f := Header(code, id, 38 + |body|) + authenticator + body + ([80, 18] + mac);
            && f == Frame(code, id, authenticator, Signed(attrs, mac))
            && f[..|f| - 16] == Header(code, id, 38 + |body|) + authenticator + body + [80, 18]
    ensures var front := Header(code, id, 38 + |EncodeFrom(attrs, 0)|) + authenticator;
            && var body := EncodeFrom(attrs, 0);
            && front + body + [80, 18] + mac == front + body + ([80, 18] + mac)
  {
    SignedFits(attrs, mac);
    var body := EncodeFrom(attrs, 0);
    var front := Header(code, id, 38 + |body|) + authenticator;
    assert front + body + ([80, 18] + mac) == front + (body + [80, 18] + mac);
    assert front + body + ([80, 18] + mac) == front + body + [80, 18] + mac;
  }

  // ── Verification ──

  /** _verify_message_authenticator */
  predicate MessageAuthenticatorOk(p: Primitives, packet: bytes, secret: bytes, auth: Octets16) {
    var found := Find(packet, MESSAGE_AUTHENTICATOR, 20);
    found.Some? ==>
      var zeroed := Splice(Splice(packet, 4, 20, auth), found.value, found.value + 16, Zeros(16));
      p.hmacMd5(secret, zeroed) == Slice(packet, found.value, found.value + 16)
  }

  method VerifyMessageAuthenticator(p: Primitives, packet: bytes, secret: bytes, auth: Octets16)
    returns (ok: bool)
    requires 20 <= |packet|
    ensures ok == MessageAuthenticatorOk(p, packet, secret, auth)
  {
    var offset := FindAttrOffset(packet, MESSAGE_AUTHENTICATOR);
    if offset.None? {
      return true;
    }
    var received := Slice(packet, offset.value, offset.value + 16);
    var buf := packet;
    buf := Splice(buf, 4, 20, auth);
    buf := Splice(buf, offset.value, offset.value + 16, Zeros(16));
    var expected := p.hmacMd5(secret, buf);
    return expected == received;
  }

  /** _verify_response_authenticator */
  predicate ResponseAuthenticatorOk(p: Primitives, packet: bytes, secret: bytes, auth: Octets16)
    requires 20 <= |packet|
  {
    p.md5(packet[..4] + auth + packet[20..] + secret) == packet[4..20]
  }

  lemma {:induction false} ExpandKeeps(attrs: seq<Attr>, kind: nat)
    requires kind != EAP_MESSAGE
    ensures HasKind(Expand(attrs), kind) <==> HasKind(attrs, kind)
  {
    if attrs != [] {
      var a, rest := attrs[0], attrs[1..];
      var head := if a.kind == EAP_MESSAGE then EapAttrs(SplitEap(a.value)) else [a];
      ExpandKeeps(rest, kind);
      assert attrs == [a] + rest;
      HasKindAppend([a], rest, kind);
      HasKindAppend(head, Expand(rest), kind);
      assert HasKind(head, kind) <==> HasKind([a], kind);
    }
  }

  lemma HasKindAppend(xs: seq<Attr>, ys: seq<Attr>, kind: nat)
    ensures HasKind(xs + ys, kind) <==> HasKind(xs, kind) || HasKind(ys, kind)
  {
    if HasKind(xs, kind) {
      var i :| 0 <= i < |xs| && xs[i].kind == kind;
      assert (xs + ys)[i].kind == kind;
    }
    if HasKind(ys, kind) {
      var i :| 0 <= i < |ys| && ys[i].kind == kind;
      assert (xs + ys)[|xs| + i].kind == kind;
    }
  }

  /** A packet signed over itself with its own Message-Authenticator zeroed verifies. */
  lemma SignedVerifies(p: Primitives, code: byte, id: byte, front: Octets16, auth: Octets16,
                       secret: bytes, attrs: seq<Attr>)
    requires AllFit(attrs) && 38 + |EncodeFrom(attrs, 0)| < 0x1_0000
    requires !HasKind(attrs, MESSAGE_AUTHENTICATOR)
    ensures Framable(Signed(attrs, Zeros(16)))
    ensures var mac := p.hmacMd5(secret, Frame(code, id, auth, Signed(attrs, Zeros(16))));
            && Framable(Signed(attrs, mac))
            && var f := Frame(code, id, front, Signed(attrs, mac));
               && Find(f, MESSAGE_AUTHENTICATOR, 20) == Some(|f| - 16)
               && MessageAuthenticatorOk(p, f, secret, auth)
  {
    SignedFits(attrs, Zeros(16));
    var zeroed := Frame(code, id, auth, Signed(attrs, Zeros(16)));
    var mac := p.hmacMd5(secret, zeroed);
    SignedFits(attrs, mac);
    var f := Frame(code, id, front, Signed(attrs, mac));
    FindLast(code, id, front, attrs, Attr(MESSAGE_AUTHENTICATOR, mac));
    SpliceSigned(code, id, front, auth, attrs, mac);
  }

  /** Putting the authenticator and a zeroed field back undoes the signing. */
  lemma SpliceSigned(code: byte, id: byte, front: Octets16, auth: Octets16, attrs: seq<Attr>,
                     mac: Octets16)
    requires AllFit(attrs) && 38 + |EncodeFrom(attrs, 0)| < 0x1_0000
    ensures Framable(Signed(attrs, mac)) && Framable(Signed(attrs, Zeros(16)))
    ensures var f := Frame(code, id, front, Signed(attrs, mac));
            && Splice(Splice(f, 4, 20, auth), |f| - 16, |f|, Zeros(16))
            == Frame(code, id, auth, Signed(attrs, Zeros(16)))
            && Slice(f, |f| - 16, |f|) == mac
  {
    hide Splice, Slice, Header;
    SignedFits(attrs, mac);
    SignedFits(attrs, Zeros(16));
    var body := EncodeFrom(attrs, 0) + [80, 18];
    SpliceParts(Header(code, id, 36 + |body|), front, auth, body, mac);
  }

  lemma SpliceParts(header: bytes, front: Octets16, auth: Octets16, body: bytes, mac: Octets16)
    requires |header| == 4
    ensures var f := header + front + (body + mac);
            && Splice(Splice(f, 4, 20, auth), |f| - 16, |f|, Zeros(16))
            == header + auth + (body + Zeros(16))
            && Slice(f, |f| - 16, |f|) == mac
  {
    hide Splice, Slice;
    SpliceFront(header, front, auth, body + mac);
    SpliceEnd(header + auth + body, mac, Zeros(16));
    SpliceEnd(header + front + body, mac, mac);
    Assoc(header + auth, body, mac);
    Assoc(header + auth, body, Zeros(16));
    Assoc(header + front, body, mac);
  }

  lemma SpliceFront(header: bytes, front: Octets16, auth: Octets16, rest: bytes)
    requires |header| == 4
    ensures Splice(header + front + rest, 4, 20, auth) == header + auth + rest
  {
    var f := header + front + rest;
    assert f[..4] == header && f[20..] == rest;
  }

  lemma SpliceEnd(before: bytes, mac: Octets16, other: Octets16)
    ensures var f := before + mac;
            && Splice(f, |f| - 16, |f|, other) == before + other
            && Slice(f, |f| - 16, |f|) == mac
  {
    var f := before + mac;
    assert f[..|f| - 16] == before && f[|f|..] == [];
  }

  /** Section 3.2 of RFC 3579: every request built from attributes that name no
      Message-Authenticator carries one in its last 16 octets, found there by the walk
      whatever octets the other values hold, and verifies under the same secret and
      authenticator; and its attributes read back as sent. */
  lemma RequestVerifies(p: Primitives, code: byte, id: byte, auth: Octets16, secret: bytes,
                        attrs: seq<Attr>)
    requires !HasKind(attrs, MESSAGE_AUTHENTICATOR)
    requires RequestPacket(p, code, id, auth, secret, attrs).Ok?
    ensures var packet := RequestPacket(p, code, id, auth, secret, attrs).value;
            && 38 <= |packet| && GetU16(packet, 2) == |packet|
            && packet[0] == code && packet[1] == id && packet[4..20] == auth
            && Find(packet, MESSAGE_AUTHENTICATOR, 20) == Some(|packet| - 16)
            && MessageAuthenticatorOk(p, packet, secret, auth)
            && exists mac: Octets16 :: Attrs(packet[20..]) == Signed(Expand(attrs), mac)
  {
    var sent := Expand(attrs);
    ExpandKeeps(attrs, MESSAGE_AUTHENTICATOR);
    SignedVerifies(p, code, id, auth, auth, secret, sent);
    var mac := p.hmacMd5(secret, Frame(code, id, auth, Signed(sent, Zeros(16))));
    SignedFits(sent, mac);
    FrameReads(code, id, auth, Signed(sent, mac));
  }

  // ── Replies ──

  datatype Response = Response(code: byte, id: byte, authenticator: bytes,
                               eapMessage: Option<bytes>, state: Option<bytes>, attrs: seq<Attr>)

  /** The values of one type, in order. */
  function ValuesOf(attrs: seq<Attr>, kind: nat): seq<bytes> {
    if attrs == [] then []
    else (if attrs[0].kind == kind then [attrs[0].value] else []) + ValuesOf(attrs[1..], kind)
  }

  lemma {:induction false} ValuesOfAppend(xs: seq<Attr>, ys: seq<Attr>, kind: nat)
    ensures ValuesOf(xs + ys, kind) == ValuesOf(xs, kind) + ValuesOf(ys, kind)
  {
    if xs == [] {
      assert xs + ys == ys;
    } else {
      assert (xs + ys)[1..] == xs[1..] + ys;
      ValuesOfAppend(xs[1..], ys, kind);
    }
  }

  function Joined(chunks: seq<bytes>): Option<bytes> {
    if chunks == [] then None else Some(Concat(chunks))
  }

  function Last(values: seq<bytes>): Option<bytes> {
    if values == [] then None else Some(values[|values| - 1])
  }

  /** decode_response with verification on, as every caller uses it. */
  function Decoded(p: Primitives, data: bytes, secret: bytes, auth: Octets16): Result<Response> {
    if |data| < 20 then Err(ValueError)
    else
      var length := GetU16(data, 2);
      if length < 20 || length > |data| then Err(ValueError)
      else if !MessageAuthenticatorOk(p, data[..length], secret, auth) then Err(ValueError)
      else if !ResponseAuthenticatorOk(p, data[..length], secret, auth) then Err(ValueError)
      else
        var attrs := Attrs(data[20..length]);
        Ok(Response(data[0], data[1], data[4..20], Joined(ValuesOf(attrs, EAP_MESSAGE)),
                    Last(ValuesOf(attrs, STATE)), attrs))
  }

  method DecodeResponse(p: Primitives, data: bytes, secret: bytes, auth: Octets16)
    returns (r: Result<Response>)
    ensures r == Decoded(p, data, secret, auth)
  {
    if |data| < 20 {
      return Err(ValueError);
    }
    var length := GetU16(data, 2);
    if length < 20 || length > |data| {
      return Err(ValueError);
    }
    var attrs := DecodeAttrs(data[20..length]);
    var ok := VerifyMessageAuthenticator(p, data[..length], secret, auth);
    if !ok || !ResponseAuthenticatorOk(p, data[..length], secret, auth) {
      return Err(ValueError);
    }
    var eapChunks: seq<bytes> := [];
    var state: Option<bytes> := None;
    for i := 0 to |attrs|
      invariant eapChunks == ValuesOf(attrs[..i], EAP_MESSAGE)
      invariant state == Last(ValuesOf(attrs[..i], STATE))
    {
      assert attrs[..i + 1] == attrs[..i] + [attrs[i]];
      ValuesOfAppend(attrs[..i], [attrs[i]], EAP_MESSAGE);
      ValuesOfAppend(attrs[..i], [attrs[i]], STATE);
      if attrs[i].kind == EAP_MESSAGE {
        eapChunks := eapChunks + [attrs[i].value];
      } else if attrs[i].kind == STATE {
        state := Some(attrs[i].value);
      }
    }
    assert attrs[..|attrs|] == attrs;
    return Ok(Response(data[0], data[1], data[4..20], Joined(eapChunks), state, attrs));
  }

  lemma {:induction false} ValuesOfEap(chunks: seq<bytes>)
    ensures ValuesOf(EapAttrs(chunks), EAP_MESSAGE) == chunks
  {
    if chunks != [] {
      assert EapAttrs(chunks)[1..] == EapAttrs(chunks[1..]);
      ValuesOfEap(chunks[1..]);
    }
  }

  lemma {:induction false} ValuesOfNone(attrs: seq<Attr>, kind: nat)
    requires !HasKind(attrs, kind)
    ensures ValuesOf(attrs, kind) == []
  {
    if attrs != [] {
      assert attrs == [attrs[0]] + attrs[1..];
      HasKindAppend([attrs[0]], attrs[1..], kind);
      assert [attrs[0]][0].kind != kind;
      ValuesOfNone(attrs[1..], kind);
    }
  }

  /** Splitting EAP-Messages changes no other value, and none of the EAP data. */
  lemma {:induction false} ExpandReads(attrs: seq<Attr>, kind: nat)
    ensures kind != EAP_MESSAGE ==> ValuesOf(Expand(attrs), kind) == ValuesOf(attrs, kind)
    ensures kind == EAP_MESSAGE ==>
              Concat(ValuesOf(Expand(attrs), kind)) == Concat(ValuesOf(attrs, kind))
  {
    if attrs != [] {
      var a, rest := attrs[0], attrs[1..];
      var head := if a.kind == EAP_MESSAGE then EapAttrs(SplitEap(a.value)) else [a];
      ExpandReads(rest, kind);
      ValuesOfAppend(head, Expand(rest), kind);
      if a.kind != EAP_MESSAGE {
        assert ValuesOf([a], kind) == if a.kind == kind then [a.value] else [];
        if kind == EAP_MESSAGE {
          assert ValuesOf(Expand(attrs), kind) == ValuesOf(Expand(rest), kind);
          assert ValuesOf(attrs, kind) == ValuesOf(rest, kind);
        }
      } else if kind == EAP_MESSAGE {
        var pieces := SplitEap(a.value);
        ValuesOfEap(pieces);
        SplitEapJoins(a.value);
        ConcatAppend(pieces, ValuesOf(Expand(rest), kind));
      } else {
        ValuesOfNone(head, kind);
      }
    }
  }

  /** A request's attributes read back with every value of every type but the
      Message-Authenticator's as given, an EAP-Message as the pieces whose concatenation it is. */
  lemma RequestReads(p: Primitives, code: byte, id: byte, auth: Octets16, secret: bytes,
                     attrs: seq<Attr>, kind: nat)
    requires RequestPacket(p, code, id, auth, secret, attrs).Ok?
    requires kind != MESSAGE_AUTHENTICATOR
    ensures var packet := RequestPacket(p, code, id, auth, secret, attrs).value;
            && 20 <= |packet|
            && var values := ValuesOf(Attrs(packet[20..]), kind);
               if kind == EAP_MESSAGE then Concat(values) == Concat(ValuesOf(attrs, kind))
               else values == ValuesOf(attrs, kind)
  {
    var sent := Expand(attrs);
    ExpandReads(attrs, kind);
    if HasKind(attrs, MESSAGE_AUTHENTICATOR) {
      FrameReads(code, id, auth, sent);
    } else {
      SignedFits(sent, Zeros(16));
      var mac := p.hmacMd5(secret, Frame(code, id, auth, Signed(sent, Zeros(16))));
      SignedFits(sent, mac);
      FrameReads(code, id, auth, Signed(sent, mac));
      ValuesOfAppend(sent, [Attr(MESSAGE_AUTHENTICATOR, mac)], kind);
      assert ValuesOf([Attr(MESSAGE_AUTHENTICATOR, mac)], kind) == [];
      assert ValuesOf(Signed(sent, mac), kind) == ValuesOf(sent, kind);
    }
  }

  // ── Accounting ──

  /** encode_accounting_request: the packet and its authenticator. */
  function AccountingRequest(p: Primitives, id: byte, secret: bytes, attrs: seq<Attr>)
    : Result<(bytes, Octets16)>
  {
    if !Framable(attrs) then Err(PackError)
    else
      var packet := Frame(ACCOUNTING_REQUEST, id, Zeros(16), attrs);
      var authenticator := p.md5(packet + secret);
      Ok((packet[..4] + authenticator + packet[20..], authenticator))
  }

  /** Replacing the authenticator of a framed packet. */
  lemma FrameWith(code: byte, id: byte, front: Octets16, other: Octets16, attrs: seq<Attr>)
    requires Framable(attrs)
    ensures var f := Frame(code, id, front, attrs);
            f[..4] + other + f[20..] == Frame(code, id, other, attrs)
  {
    var body := EncodeFrom(attrs, 0);
    var f, header := Frame(code, id, front, attrs), Header(code, id, 20 + |body|);
    assert f[..4] == header && f[20..] == body;
  }

  /** Section 3 of RFC 2866: a server recomputing the MD5 over the packet with the
      authenticator field zeroed finds the authenticator the packet carries, and reads the
      attributes sent. */
  lemma AccountingVerifies(p: Primitives, id: byte, secret: bytes, attrs: seq<Attr>)
    requires Framable(attrs)
    ensures var (packet, authenticator) := AccountingRequest(p, id, secret, attrs).value;
            && 20 <= |packet| && GetU16(packet, 2) == |packet|
            && packet[0] == 4 && packet[1] == id
            && packet[4..20] == authenticator
            && p.md5(packet[..4] + Zeros(16) + packet[20..] + secret) == authenticator
            && Attrs(packet[20..]) == attrs
  {
    var zeroed := Frame(ACCOUNTING_REQUEST, id, Zeros(16), attrs);
    var (packet, authenticator) := AccountingRequest(p, id, secret, attrs).value;
    FrameWith(ACCOUNTING_REQUEST, id, Zeros(16), authenticator, attrs);
    FrameWith(ACCOUNTING_REQUEST, id, authenticator, Zeros(16), attrs);
    FrameReads(ACCOUNTING_REQUEST, id, authenticator, attrs);
  }
}
