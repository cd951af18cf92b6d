/** Which datagrams are taken as genuine, octet by octet: section 3 of RFC 2865 and section 3.2 of
    RFC 3579 for replies, sections 2.3 and 3.4 of RFC 5176 for requests to this end. */
module Authenticity {
  import opened Bytes
  import opened Crypto
  import opened Radius
  import Coa

  /** The octets a list of attributes takes up. */
  function Octets(attrs: seq<Attr>): nat {
    if attrs == [] then 0 else 2 + |attrs[0].value| + Octets(attrs[1..])
  }

  /** The search finds the value of the first attribute of its type, two octets past what precedes
      it. */
  lemma {:induction false} FindStands(packet: bytes, wanted: nat, offset: nat)
    ensures var attrs := Walk(packet, offset);
            var k := FirstIndex(attrs, wanted);
            Find(packet, wanted, offset)
            == if k == |attrs| then None else Some(offset + Octets(attrs[..k]) + 2)
    decreases |packet| - offset
  {
    hide AttrAt;
    if Whole(packet, offset) {
      var next := offset + packet[offset + 1];
      var a, rest := AttrAt(packet, offset), Walk(packet, next);
      FindStands(packet, wanted, next);
      FirstIndexOfMore(a, rest, wanted);
      AttrIs(packet, offset);
      if a.kind != wanted {
        var k := FirstIndex(rest, wanted);
        assert ([a] + rest)[..k + 1] == [a] + rest[..k];
        assert ([a] + rest[..k])[1..] == rest[..k];
      }
    }
  }

  lemma AttrIs(packet: bytes, offset: nat)
    requires Whole(packet, offset)
    ensures AttrAt(packet, offset).kind == packet[offset]
    ensures 2 + |AttrAt(packet, offset).value| == packet[offset + 1]
  {
  }

  /** Where the value of the first Message-Authenticator stands, type 80, or None. */
  function Signature(packet: bytes): (at: Option<nat>)
    requires 20 <= |packet|
    ensures at.Some? ==> 22 <= at.value <= |packet|
  {
    var attrs := Attrs(packet[20..]);
    var k := FirstIndex(attrs, 80);
    if k == |attrs| then None
    else
      OctetsFit(packet[20..], 0);
      OctetsOfPrefix(attrs, k);
      Some(22 + Octets(attrs[..k]))
  }

  lemma {:induction false} OctetsFit(data: bytes, offset: nat)
    requires offset <= |data|
    ensures offset + Octets(Walk(data, offset)) <= |data|
    decreases |data| - offset
  {
    hide AttrAt;
    if Whole(data, offset) {
      OctetsFit(data, offset + data[offset + 1]);
      assert Walk(data, offset)[1..] == Walk(data, offset + data[offset + 1]);
      AttrIs(data, offset);
    }
  }

  lemma {:induction false} OctetsOfPrefix(attrs: seq<Attr>, k: nat)
    requires k < |attrs|
    ensures Octets(attrs[..k]) + 2 <= Octets(attrs)
  {
    if k > 0 {
      OctetsOfPrefix(attrs[1..], k - 1);
      assert attrs[..k][1..] == attrs[1..][..k - 1];
    }
  }

  lemma SignatureFound(packet: bytes)
    requires 20 <= |packet|
    ensures Find(packet, MESSAGE_AUTHENTICATOR, 20) == Signature(packet)
  {
    hide Find, Walk, Octets, FirstIndex;
    FindStands(packet, 80, 20);
    WalkShift(packet, 20, 0);
  }

  /** The packet with this authenticator, and zeros for the 16 octets of the signature. */
  function Unsigned(packet: bytes, auth: Octets16, at: nat): bytes
    requires 22 <= at <= |packet|
  {
    packet[..4] + auth + packet[20..at] + Zeros(16)
    + if at + 16 <= |packet| then packet[at + 16..] else []
  }

  lemma UnsignedSpliced(packet: bytes, auth: Octets16, at: nat)
    requires 22 <= at <= |packet|
    ensures Splice(Splice(packet, 4, 20, auth), at, at + 16, Zeros(16)) == Unsigned(packet, auth, at)
  {
    var p := Splice(packet, 4, 20, auth);
    assert p == packet[..4] + auth + packet[20..];
    assert |p| == |packet| && p[..at] == packet[..4] + auth + packet[20..at];
    if at + 16 <= |packet| {
      assert p[at + 16..] == packet[at + 16..];
    }
  }

  /** A whole packet of its own length at the front of a datagram. */
  predicate Framed(data: bytes) {
    20 <= |data| && 20 <= 0x100 * data[2] as int + data[3] as int <= |data|
  }

  function PacketOf(data: bytes): (packet: bytes)
    requires Framed(data)
    ensures 20 <= |packet|
  {
    data[..0x100 * data[2] as int + data[3] as int]
  }

  /** ResponseAuth = MD5(Code + ID + Length + RequestAuth + Attributes + Secret). */
  predicate Authenticated(p: Primitives, packet: bytes, secret: bytes, auth: Octets16)
    requires 20 <= |packet|
  {
    packet[4..20] == p.md5(packet[..4] + auth + packet[20..] + secret)
  }

  /** The Message-Authenticator, if there is one, is whole and is the HMAC-MD5 of the packet with
      the request's authenticator and zeros for itself. */
  predicate WellSigned(p: Primitives, packet: bytes, secret: bytes, auth: Octets16)
    requires 20 <= |packet|
  {
    var at := Signature(packet);
    at.Some? ==>
      && at.value + 16 <= |packet|
      && packet[at.value..at.value + 16] == p.hmacMd5(secret, Unsigned(packet, auth, at.value))
  }

  /** On every datagram: decode_response accepts exactly what is framed, authenticated and well
      signed, and reads the code, the identifier, the EAP data and the State from it. */
  lemma ReplyAcceptedExactlyWhen(p: Primitives, data: bytes, secret: bytes, auth: Octets16)
    ensures var r := Decoded(p, data, secret, auth);
            && (r.Ok? <==> && Framed(data) && Authenticated(p, PacketOf(data), secret, auth)
                           && WellSigned(p, PacketOf(data), secret, auth))
            && (r.Ok? ==> && r.value.code == data[0] && r.value.id == data[1]
                          && r.value.authenticator == data[4..20]
                          && r.value.attrs == Attrs(PacketOf(data)[20..]))
  {
    hide Find, Walk;
    if Framed(data) {
      var packet := PacketOf(data);
      SignatureFound(packet);
      var at := Signature(packet);
      if at.Some? {
        UnsignedSpliced(packet, auth, at.value);
        if at.value + 16 <= |packet| {
          assert Slice(packet, at.value, at.value + 16) == packet[at.value..at.value + 16];
        } else {
          assert |Slice(packet, at.value, at.value + 16)| < 16;
        }
      }
      assert packet[20..] == data[20..|packet|];
    }
  }

  /** What is read of an accepted reply: the EAP-Messages joined in order, and the last State. */
  lemma ReplyReads(p: Primitives, data: bytes, secret: bytes, auth: Octets16)
    requires Decoded(p, data, secret, auth).Ok?
    ensures var r := Decoded(p, data, secret, auth).value;
            var chunks, states := ValuesOf(r.attrs, 79), ValuesOf(r.attrs, 24);
            && r.eapMessage == (if chunks == [] then None else Some(Concat(chunks)))
            && r.state == (if states == [] then None else Some(states[|states| - 1]))
  {
  }

  /** The signature of a request to this end is compared with octets of the whole datagram. */
  predicate RequestSigned(p: Primitives, data: bytes, packet: bytes, secret: bytes)
    requires 20 <= |packet| && packet <= data
  {
    var at := Signature(packet);
    at.Some? ==>
      && at.value + 16 <= |data|
      && data[at.value..at.value + 16] == p.hmacMd5(secret, Unsigned(packet, Zeros(16), at.value))
  }

  /** On every datagram: decode_request accepts exactly a framed Disconnect-Request (40) or
      CoA-Request (43) that is authenticated over zeros and whose signature, if it has one, is the
      octets that stand in its place. */
  lemma RequestAcceptedExactlyWhen(p: Primitives, data: bytes, secret: bytes)
    ensures var r := Coa.Accepted(p, data, secret);
            && (r.Ok? <==> && Framed(data) && data[0] in {40, 43}
                           && Authenticated(p, PacketOf(data), secret, Zeros(16))
                           && RequestSigned(p, data, PacketOf(data), secret))
            && (r.Ok? ==> && r.value.code == data[0] && r.value.id == data[1]
                          && r.value.authenticator == data[4..20]
                          && r.value.attrs == Attrs(PacketOf(data)[20..])
                          && (r.value.messageAuthenticator <==> Signature(PacketOf(data)).Some?))
  {
    hide Find, Walk;
    if Framed(data) {
      var packet := PacketOf(data);
      SignatureFound(packet);
      var at := Signature(packet);
      if at.Some? {
        UnsignedSpliced(packet, Zeros(16), at.value);
        if at.value + 16 <= |data| {
          assert Slice(data, at.value, at.value + 16) == data[at.value..at.value + 16];
        } else {
          assert |Slice(data, at.value, at.value + 16)| < 16;
        }
      }
      assert packet[20..] == data[20..|packet|];
    }
  }

  // ── Requests that pack ──

  /** The type in one octet and, but for an EAP-Message, the value in 253. */
  predicate Packable(a: Attr) { a.kind <= 255 && (a.kind == 79 || |a.value| <= 253) }

  lemma {:induction false} EncodedOctets(attrs: seq<Attr>, i: nat)
    requires AllFit(attrs) && i <= |attrs|
    ensures |EncodeFrom(attrs, i)| == Octets(attrs[i..])
    decreases |attrs| - i
  {
    if i < |attrs| {
      EncodedOctets(attrs, i + 1);
      assert attrs[i..][1..] == attrs[i + 1..];
    }
  }

  lemma {:induction false} ExpandFits(attrs: seq<Attr>)
    ensures AllFit(Expand(attrs)) <==> forall i :: 0 <= i < |attrs| ==> Packable(attrs[i])
  {
    if attrs != [] {
      var a, rest := attrs[0], attrs[1..];
      var head := if a.kind == EAP_MESSAGE then EapAttrs(SplitEap(a.value)) else [a];
      ExpandFits(rest);
      BothFit(head, Expand(rest));
      assert attrs == [a] + rest;
      assert (forall i :: 0 <= i < |attrs| ==> Packable(attrs[i]))
          <==> Packable(a) && forall i :: 0 <= i < |rest| ==> Packable(rest[i]) by {
        assert forall i :: 0 <= i < |rest| ==> attrs[i + 1] == rest[i];
      }
      assert AllFit(head) <==> Packable(a);
    }
  }

  lemma BothFit(xs: seq<Attr>, ys: seq<Attr>)
    ensures AllFit(xs + ys) <==> AllFit(xs) && AllFit(ys)
  {
    if AllFit(xs + ys) {
      assert forall i :: 0 <= i < |xs| ==> (xs + ys)[i] == xs[i];
      assert forall i :: 0 <= i < |ys| ==> (xs + ys)[|xs| + i] == ys[i];
    }
  }

  /** A request packs exactly when every attribute does and the whole, with the signature's 18
      octets unless the list names one, is at most 65535 octets; and then it is that long. */
  lemma RequestPacksExactlyWhen(p: Primitives, code: byte, id: byte, auth: Octets16, secret: bytes,
                                attrs: seq<Attr>)
    ensures var size := 20 + Octets(Expand(attrs)) + (if HasKind(attrs, 80) then 0 else 18);
            var r := RequestPacket(p, code, id, auth, secret, attrs);
            && (r.Ok? <==> (forall i :: 0 <= i < |attrs| ==> Packable(attrs[i])) && size <= 65535)
            && (r.Ok? ==> |r.value| == size)
  {
    ExpandFits(attrs);
    var sent := Expand(attrs);
    if AllFit(sent) {
      EncodedOctets(sent, 0);
      assert sent[0..] == sent;
      if Framable(sent) && 38 + |EncodeFrom(sent, 0)| < 0x1_0000 {
        SignedFits(sent, Zeros(16));
        SignedFits(sent, p.hmacMd5(secret, Frame(code, id, auth, Signed(sent, Zeros(16)))));
      }
    }
  }
}
