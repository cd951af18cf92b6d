/** Change-of-Authorization and Disconnect: teap_tester/coa.py, RFC 5176. */
module Coa {
  import opened Bytes
  import opened Crypto
  import opened Radius

  const DISCONNECT_REQUEST: byte := 40
  const DISCONNECT_ACK: byte := 41
  const DISCONNECT_NAK: byte := 42
  const COA_REQUEST: byte := 43
  const COA_ACK: byte := 44
  const COA_NAK: byte := 45

  datatype Request = Request(code: byte, id: byte, authenticator: Octets16, attrs: seq<Attr>,
                             messageAuthenticator: bool)

  predicate Answerable(code: byte) {
    code == DISCONNECT_REQUEST || code == COA_REQUEST
  }

  function AckCode(code: byte): byte
    requires Answerable(code)
  {
    if code == DISCONNECT_REQUEST then DISCONNECT_ACK else COA_ACK
  }

  function NakCode(code: byte): byte
    requires Answerable(code)
  {
    if code == DISCONNECT_REQUEST then DISCONNECT_NAK else COA_NAK
  }

  /** The request's own Message-Authenticator, taken over the packet with the Request
      Authenticator and that field both zero. The value compared is cut from `data`, which
      may go on past the packet. */
  predicate RequestMacOk(p: Primitives, data: bytes, length: nat, secret: bytes)
    requires length <= |data|
  {
    var found := Find(data[..length], MESSAGE_AUTHENTICATOR, 20);
    found.Some? ==>
      var zeroed := Splice(Splice(data[..length], 4, 20, Zeros(16)),
                           found.value, found.value + 16, Zeros(16));
      p.hmacMd5(secret, zeroed) == Slice(data, found.value, found.value + 16)
  }

  predicate RequestAuthenticatorOk(p: Primitives, packet: bytes, secret: bytes)
    requires 20 <= |packet|
  {
    ResponseAuthenticatorOk(p, packet, secret, Zeros(16))
  }

  function Accepted(p: Primitives, data: bytes, secret: bytes): Result<Request> {
    if |data| < 20 then Err(ValueError)
    else
      var length := GetU16(data, 2);
      if !Answerable(data[0]) then Err(ValueError)
      else if length < 20 || length > |data| then Err(ValueError)
      else
        var packet := data[..length];
        if !RequestAuthenticatorOk(p, packet, secret) then Err(ValueError)
        else if !RequestMacOk(p, data, length, secret) then Err(ValueError)
        else Ok(Request(data[0], data[1], data[4..20], Attrs(data[20..length]),
                        Find(packet, MESSAGE_AUTHENTICATOR, 20).Some?))
  }

  /** decode_request */
  method DecodeRequest(p: Primitives, data: bytes, secret: bytes) returns (r: Result<Request>)
    ensures r == Accepted(p, data, secret)
  {
    if |data| < 20 {
      return Err(ValueError);
    }
    var code, id, length := data[0], data[1], GetU16(data, 2);
    if !Answerable(code) {
      return Err(ValueError);
    }
    if length < 20 || length > |data| {
      return Err(ValueError);
    }
    var authenticator := data[4..20];
    var zeroed := data[..4] + Zeros(16) + data[20..length];
    assert data[..length][..4] == data[..4] && data[..length][20..] == data[20..length];
    if p.md5(zeroed + secret) != authenticator {
      return Err(ValueError);
    }
    var attrs := DecodeAttrs(data[20..length]);
    var offset := FindAttrOffset(data[..length], MESSAGE_AUTHENTICATOR);
    if offset.Some? {
      var buf := data[..length];
      buf := Splice(buf, 4, 20, Zeros(16));
      buf := Splice(buf, offset.value, offset.value + 16, Zeros(16));
      var expected := p.hmacMd5(secret, buf);
      if expected != Slice(data, offset.value, offset.value + 16) {
        return Err(ValueError);
      }
    }
    return Ok(Request(code, id, authenticator, attrs, offset.Some?));
  }

  /** A Message-Authenticator whose value ends before 16 octets of it are within the length. */
  predicate CutShort(data: bytes, length: nat)
    requires length <= |data|
  {
    var found := Find(data[..length], MESSAGE_AUTHENTICATOR, 20);
    found.Some? && found.value + 16 > length
  }

  lemma MacOkWithin(p: Primitives, data: bytes, length: nat, secret: bytes)
    requires length <= |data|
    ensures !CutShort(data, length) ==>
              (RequestMacOk(p, data, length, secret) <==> RequestMacOk(p, data[..length], length, secret))
    ensures CutShort(data, length) ==> !RequestMacOk(p, data[..length], length, secret)
  {
    var packet := data[..length];
    assert packet[..length] == packet;
    var found := Find(packet, MESSAGE_AUTHENTICATOR, 20);
    if found.Some? {
      var at := found.value;
      if at + 16 <= length {
        assert Slice(data, at, at + 16) == Slice(packet, at, at + 16);
      } else {
        assert |Slice(packet, at, at + 16)| < 16;
      }
    }
  }

  /** Octets past the length field decide nothing, except for a Message-Authenticator cut short in
      a packet with nothing else amiss: then the packet alone is refused, and the datagram is
      accepted when the octets after it are what the value lacks. */
  lemma TrailingOctetsMatterExactlyWhen(p: Primitives, data: bytes, secret: bytes)
    requires 4 <= |data| && 20 <= GetU16(data, 2) <= |data|
    ensures var packet := data[..GetU16(data, 2)];
            && (CutShort(data, |packet|) ==> Accepted(p, packet, secret).Err?)
            && (Accepted(p, data, secret) != Accepted(p, packet, secret)
                <==> && CutShort(data, |packet|) && Answerable(data[0])
                     && RequestAuthenticatorOk(p, packet, secret)
                     && RequestMacOk(p, data, |packet|, secret))
  {
    var packet := data[..GetU16(data, 2)];
    MacOkWithin(p, data, |packet|, secret);
    PacketReads(data, |packet|);
  }

  /** What decode_request reads of a packet is the datagram's. */
  lemma PacketReads(data: bytes, length: nat)
    requires 20 <= length <= |data|
    ensures var packet := data[..length];
            && packet[..|packet|] == packet && GetU16(packet, 2) == GetU16(data, 2)
            && packet[0] == data[0] && packet[1] == data[1]
            && packet[4..20] == data[4..20] && packet[20..|packet|] == data[20..length]
  {
    TakeAll(data[..length]);
    SliceOfPrefix(data, length, 4, 20);
    SliceOfPrefix(data, length, 20, length);
  }

  /** A packet whose only attribute is a Message-Authenticator with no value. */
  function EmptyMac(front: Octets16): (packet: bytes)
    ensures |packet| == 22
  {
    [COA_REQUEST, 0, 0, 22] + front + [80, 2]
  }

  lemma EmptyMacReads(front: Octets16)
    ensures var q := EmptyMac(front);
            && q[0] == COA_REQUEST && q[2] == 0 && q[3] == 22
            && q[4..20] == front && q[..4] + Zeros(16) + q[20..] == EmptyMac(Zeros(16))
            && Find(q, MESSAGE_AUTHENTICATOR, 20) == Some(22)
            && Splice(Splice(q, 4, 20, Zeros(16)), 22, 38, Zeros(16)) == EmptyMac(Zeros(16)) + Zeros(16)
  {
    var header: bytes := [COA_REQUEST, 0, 0, 22];
    var q := EmptyMac(front);
    assert q == header + front + [80, 2];
    assert q[..4] == header && q[20..] == [80, 2] && q[4..20] == front;
    assert q[20] == 80 && q[21] == 2;
    assert Splice(q, 4, 20, Zeros(16)) == EmptyMac(Zeros(16));
    assert Splice(EmptyMac(Zeros(16)), 22, 38, Zeros(16)) == EmptyMac(Zeros(16)) + Zeros(16);
  }

  /** For every secret there is such a datagram: an empty Message-Authenticator, and after the
      packet the sixteen octets that would have been its value. */
  lemma CutShortAccepted(p: Primitives, secret: bytes)
    ensures exists data: bytes ::
              && 4 <= |data| && 20 <= GetU16(data, 2) <= |data|
              && Accepted(p, data, secret).Ok?
              && Accepted(p, data[..GetU16(data, 2)], secret).Err?
  {
    var packet := EmptyMac(p.md5(EmptyMac(Zeros(16)) + secret));
    var mac := p.hmacMd5(secret, EmptyMac(Zeros(16)) + Zeros(16));
    var data := packet + mac;
    EmptyMacReads(p.md5(EmptyMac(Zeros(16)) + secret));
    assert data[..22] == packet && data[22..38] == mac && |data| == 38;
    assert GetU16(data, 2) == 22;
    PacketReads(data, 22);
    assert RequestAuthenticatorOk(p, packet, secret);
    assert RequestMacOk(p, data, 22, secret) by {
      assert Slice(data, 22, 38) == mac;
    }
    TrailingOctetsMatterExactlyWhen(p, data, secret);
    assert CutShort(data, 22);
  }

  /** encode_response on attributes that pack; anything else raises. */
  function ReplyPacket(p: Primitives, code: byte, id: byte, requestAuth: Octets16, secret: bytes,
                       attrs: seq<Attr>, sign: bool): Result<bytes>
  {
    if !AllFit(attrs) || |EncodeFrom(attrs, 0)| + (if sign then 38 else 20) >= 0x1_0000 then
      Err(PackError)
    else
      var body := ReplyAttrs(p, code, id, requestAuth, secret, attrs, sign);
      var authenticator := p.md5(Frame(code, id, requestAuth, body) + secret);
      Ok(Frame(code, id, authenticator, body))
  }

  /** The attributes of a reply: those given, and a Message-Authenticator when asked for. */
  function ReplyAttrs(p: Primitives, code: byte, id: byte, requestAuth: Octets16, secret: bytes,
                      attrs: seq<Attr>, sign: bool): (body: seq<Attr>)
    requires AllFit(attrs)
    requires |EncodeFrom(attrs, 0)| + (if sign then 38 else 20) < 0x1_0000
    ensures Framable(body)
    ensures attrs <= body && |body| == |attrs| + (if sign then 1 else 0)
    ensures sign ==> body[|attrs|].kind == MESSAGE_AUTHENTICATOR
  {
    if !sign then attrs
    else
      SignedFits(attrs, Zeros(16));
      var mac := p.hmacMd5(secret, Frame(code, id, requestAuth, Signed(attrs, Zeros(16))));
      SignedFits(attrs, mac);
      Signed(attrs, mac)
  }

  method EncodeResponse(p: Primitives, code: byte, id: byte, requestAuth: Octets16, secret: bytes,
                        attrs: seq<Attr>, sign: bool) returns (r: Result<bytes>)
    ensures r == ReplyPacket(p, code, id, requestAuth, secret, attrs, sign)
  {
    var attrBytes := [];
    for i := 0 to |attrs|
      invariant AllFit(attrs[..i]) && attrBytes == EncodeFrom(attrs[..i], 0)
    {
      if attrs[i].kind >= 0x100 || |attrs[i].value| > 253 {
        return Err(PackError);
      }
      assert attrs[..i + 1] == attrs[..i] + [attrs[i]];
      EncodeAppend(attrs[..i], [attrs[i]], 0);
      EncodeOne(attrs[i]);
      attrBytes := attrBytes + ([attrs[i].kind, |attrs[i].value| + 2] + attrs[i].value);
    }
    assert attrs[..|attrs|] == attrs;
    ghost var plain := attrBytes;
    if sign {
      SignedFits(attrs, Zeros(16));
      attrBytes := attrBytes + [80, 18] + Zeros(16);
    }
    var length := 20 + |attrBytes|;
    if length >= 0x1_0000 {
      return Err(PackError);
    }
    var header := Header(code, id, length);
    if sign {
      var mac := p.hmacMd5(secret, header + requestAuth + attrBytes);
      SignedFits(attrs, mac);
      attrBytes := attrBytes[..|attrBytes| - 16] + mac;
      assert attrBytes == plain + [80, 18] + mac;
    }
    var authenticator := p.md5(header + requestAuth + attrBytes + secret);
    return Ok(header + authenticator + attrBytes);
  }

  function Ack(p: Primitives, request: Request, secret: bytes): Result<bytes>
    requires Answerable(request.code)
  {
    ReplyPacket(p, AckCode(request.code), request.id, request.authenticator, secret, [],
                request.messageAuthenticator)
  }

  function Nak(p: Primitives, request: Request, secret: bytes, cause: nat): Result<bytes>
    requires Answerable(request.code)
  {
    if cause >= 0x1_0000_0000 then Err(PackError)
    else ReplyPacket(p, NakCode(request.code), request.id, request.authenticator, secret,
                     [Attr(ERROR_CAUSE, U32(cause))], request.messageAuthenticator)
  }

  /** A reply's packet, whatever its authenticator field holds. */
  lemma ReplyFrame(p: Primitives, code: byte, id: byte, front: Octets16, requestAuth: Octets16,
                   secret: bytes, attrs: seq<Attr>, sign: bool)
    requires AllFit(attrs) && !HasKind(attrs, MESSAGE_AUTHENTICATOR)
    requires |EncodeFrom(attrs, 0)| + (if sign then 38 else 20) < 0x1_0000
    ensures var body := ReplyAttrs(p, code, id, requestAuth, secret, attrs, sign);
            var f := Frame(code, id, front, body);
            && f[..|f|] == f
            && f[..4] + requestAuth + f[20..] == Frame(code, id, requestAuth, body)
            && MessageAuthenticatorOk(p, f, secret, requestAuth)
            && (Find(f, MESSAGE_AUTHENTICATOR, 20).Some? <==> sign)
  {
    hide Frame;
    var body := ReplyAttrs(p, code, id, requestAuth, secret, attrs, sign);
    FrameWith(code, id, front, requestAuth, body);
    TakeAll(Frame(code, id, front, body));
    if sign {
      SignedVerifies(p, code, id, front, requestAuth, secret, attrs);
    } else {
      FindNothing(code, id, front, attrs, MESSAGE_AUTHENTICATOR);
    }
  }

  /** decode_response accepts any reply encode_response builds from attributes that name no
      Message-Authenticator, under the same secret and the request's authenticator, and reads
      back its code, identifier and attributes. */
  lemma ReplyAccepted(p: Primitives, code: byte, id: byte, requestAuth: Octets16, secret: bytes,
                      attrs: seq<Attr>, sign: bool)
    requires ReplyPacket(p, code, id, requestAuth, secret, attrs, sign).Ok?
    requires !HasKind(attrs, MESSAGE_AUTHENTICATOR)
    ensures var packet := ReplyPacket(p, code, id, requestAuth, secret, attrs, sign).value;
            var r := Decoded(p, packet, secret, requestAuth);
            && r.Ok? && r.value.code == code && r.value.id == id
            && r.value.attrs == ReplyAttrs(p, code, id, requestAuth, secret, attrs, sign)
  {
    var body := ReplyAttrs(p, code, id, requestAuth, secret, attrs, sign);
    var front := p.md5(Frame(code, id, requestAuth, body) + secret);
    FrameReads(code, id, front, body);
    ReplyFrame(p, code, id, front, requestAuth, secret, attrs, sign);
  }

  /** Sections 2.3 and 3.4 of RFC 5176: whatever request decode_request accepts, ack and nak
      produce a reply the requester accepts, with the matching code, the same identifier, the
      attributes sent, and a Message-Authenticator exactly when the request carried one. */
  lemma AnswersAccepted(p: Primitives, data: bytes, secret: bytes, cause: nat)
    requires Accepted(p, data, secret).Ok? && cause < 0x1_0000_0000
    ensures var request := Accepted(p, data, secret).value;
            && Answerable(request.code)
            && Ack(p, request, secret).Ok? && Nak(p, request, secret, cause).Ok?
            && var a := Decoded(p, Ack(p, request, secret).value, secret, request.authenticator);
               var n := Decoded(p, Nak(p, request, secret, cause).value, secret,
                                request.authenticator);
               && a.Ok? && a.value.code == (if data[0] == 40 then 41 else 44) && a.value.id == data[1]
               && n.Ok? && n.value.code == (if data[0] == 40 then 42 else 45) && n.value.id == data[1]
               && Plain(a.value.attrs) == [] && Plain(n.value.attrs) == [Attr(101, U32(cause))]
               && (HasKind(a.value.attrs, MESSAGE_AUTHENTICATOR)
                   <==> HasKind(request.attrs, MESSAGE_AUTHENTICATOR))
               && (HasKind(n.value.attrs, MESSAGE_AUTHENTICATOR)
                   <==> HasKind(request.attrs, MESSAGE_AUTHENTICATOR))
  {
    var request := Accepted(p, data, secret).value;
    var packet := data[..GetU16(data, 2)];
    assert packet[20..] == data[20..GetU16(data, 2)];
    WalksAgree(packet, MESSAGE_AUTHENTICATOR);
    assert request.attrs == Attrs(packet[20..]);
    assert request.messageAuthenticator <==> HasKind(request.attrs, MESSAGE_AUTHENTICATOR);
    var why := [Attr(ERROR_CAUSE, U32(cause))];
    EncodeOne(why[0]);
    var sign := request.messageAuthenticator;
    ReplyAccepted(p, AckCode(request.code), request.id, request.authenticator, secret, [], sign);
    ReplyAccepted(p, NakCode(request.code), request.id, request.authenticator, secret, why, sign);
    PlainReply(p, AckCode(request.code), request.id, request.authenticator, secret, [], sign);
    PlainReply(p, NakCode(request.code), request.id, request.authenticator, secret, why, sign);
  }

  /** Every attribute that is not a Message-Authenticator. */
  function Plain(attrs: seq<Attr>): seq<Attr> {
    if attrs == [] then []
    else (if attrs[0].kind == MESSAGE_AUTHENTICATOR then [] else [attrs[0]]) + Plain(attrs[1..])
  }

  lemma {:induction false} PlainAppend(xs: seq<Attr>, ys: seq<Attr>)
    ensures Plain(xs + ys) == Plain(xs) + Plain(ys)
  {
    if xs == [] {
      assert xs + ys == ys;
    } else {
      assert (xs + ys)[1..] == xs[1..] + ys;
      PlainAppend(xs[1..], ys);
    }
  }

  lemma {:induction false} PlainAll(attrs: seq<Attr>)
    requires !HasKind(attrs, MESSAGE_AUTHENTICATOR)
    ensures Plain(attrs) == attrs
  {
    if attrs != [] {
      assert attrs == [attrs[0]] + attrs[1..];
      HasKindAppend([attrs[0]], attrs[1..], MESSAGE_AUTHENTICATOR);
      assert [attrs[0]][0].kind != MESSAGE_AUTHENTICATOR;
      PlainAll(attrs[1..]);
    }
  }

  lemma PlainReply(p: Primitives, code: byte, id: byte, requestAuth: Octets16, secret: bytes,
                   attrs: seq<Attr>, sign: bool)
    requires AllFit(attrs) && !HasKind(attrs, MESSAGE_AUTHENTICATOR)
    requires |EncodeFrom(attrs, 0)| + (if sign then 38 else 20) < 0x1_0000
    ensures var body := ReplyAttrs(p, code, id, requestAuth, secret, attrs, sign);
            && Plain(body) == attrs
            && (HasKind(body, MESSAGE_AUTHENTICATOR) <==> sign)
  {
    var body := ReplyAttrs(p, code, id, requestAuth, secret, attrs, sign);
    PlainAll(attrs);
    if sign {
      var last := [body[|attrs|]];
      assert body == attrs + last;
      PlainAppend(attrs, last);
      assert last[1..] == [];
      assert body[|attrs|].kind == MESSAGE_AUTHENTICATOR;
    } else {
      assert body == attrs;
    }
  }

  /** A requester following RFC 5176: the Message-Authenticator, if any, over the packet with
      both authenticators zero, then the Request Authenticator over the result. */
  function RequesterPacket(p: Primitives, code: byte, id: byte, secret: bytes, attrs: seq<Attr>,
                           sign: bool): bytes
    requires AllFit(attrs) && |EncodeFrom(attrs, 0)| + 38 < 0x1_0000
  {
    var body := ReplyAttrs(p, code, id, Zeros(16), secret, attrs, sign);
    Frame(code, id, p.md5(Frame(code, id, Zeros(16), body) + secret), body)
  }

  /** decode_request accepts what such a requester sends, and reads it back. */
  lemma RequesterAccepted(p: Primitives, code: byte, id: byte, secret: bytes, attrs: seq<Attr>,
                          sign: bool)
    requires AllFit(attrs) && |EncodeFrom(attrs, 0)| + 38 < 0x1_0000
    requires Answerable(code) && !HasKind(attrs, MESSAGE_AUTHENTICATOR)
    ensures var r := Accepted(p, RequesterPacket(p, code, id, secret, attrs, sign), secret);
            && r.Ok? && r.value.code == code && r.value.id == id
            && r.value.messageAuthenticator == sign
            && attrs <= r.value.attrs
  {
    hide ReplyAttrs, Frame, RequestAuthenticatorOk;
    var body := ReplyAttrs(p, code, id, Zeros(16), secret, attrs, sign);
    var front := p.md5(Frame(code, id, Zeros(16), body) + secret);
    var f := Frame(code, id, front, body);
    FrameReads(code, id, front, body);
    TakeAll(f);
    assert f[20..|f|] == f[20..];
    RequesterFrameOk(p, code, id, secret, attrs, sign);
    SentAttrsRead(p, code, id, secret, attrs, sign);
  }

  lemma RequesterFrameOk(p: Primitives, code: byte, id: byte, secret: bytes, attrs: seq<Attr>,
                         sign: bool)
    requires AllFit(attrs) && |EncodeFrom(attrs, 0)| + 38 < 0x1_0000
    requires !HasKind(attrs, MESSAGE_AUTHENTICATOR)
    ensures var body := ReplyAttrs(p, code, id, Zeros(16), secret, attrs, sign);
            var f := Frame(code, id, p.md5(Frame(code, id, Zeros(16), body) + secret), body);
            && RequestAuthenticatorOk(p, f, secret) && RequestMacOk(p, f, |f|, secret)
            && (Find(f, MESSAGE_AUTHENTICATOR, 20).Some? <==> sign)
  {
    hide ReplyAttrs, Frame;
    var body := ReplyAttrs(p, code, id, Zeros(16), secret, attrs, sign);
    var front := p.md5(Frame(code, id, Zeros(16), body) + secret);
    ReplyFrame(p, code, id, front, Zeros(16), secret, attrs, sign);
    FrameReads(code, id, front, body);
  }

  lemma SentAttrsRead(p: Primitives, code: byte, id: byte, secret: bytes, attrs: seq<Attr>,
                      sign: bool)
    requires AllFit(attrs) && |EncodeFrom(attrs, 0)| + 38 < 0x1_0000
    ensures attrs <= ReplyAttrs(p, code, id, Zeros(16), secret, attrs, sign)
  {
  }
}
