/** What goes out and what comes back: each action's packet read back to its octets, requests
    numbered in order, and every reply matched to the request it answers. */
module Exchanges {
  import opened Bytes
  import opened SessionSpec
  import opened SessionWire
  import Eap
  import Authz = Authorization
  import Rad = Radius
  import Verdict

  // ── One request ──

  /** The header of a request: code 1, the identifier, and the Request Authenticator. */
  lemma RequestHeader(c: Config, s: Protocol, eapMessage: bytes, authenticator: Octets16)
    requires RequestFor(c, s, eapMessage, authenticator).Ok?
    ensures var p := RequestFor(c, s, eapMessage, authenticator).value;
            20 <= |p| && p[0] == 1 && p[1] == s.radiusId && p[4..20] == authenticator
  {
    var attrs := RequestAttrs(c, eapMessage, s.radiusState);
    var sent := Rad.Expand(attrs);
    if Rad.HasKind(attrs, Rad.MESSAGE_AUTHENTICATOR) {
      Rad.FrameReads(Rad.ACCESS_REQUEST, s.radiusId, authenticator, sent);
    } else {
      Rad.SignedFits(sent, Zeros(16));
      var mac := c.prims.hmacMd5(c.secret, Rad.Frame(Rad.ACCESS_REQUEST, s.radiusId, authenticator,
                                                     Rad.Signed(sent, Zeros(16))));
      Rad.SignedFits(sent, mac);
      Rad.FrameReads(Rad.ACCESS_REQUEST, s.radiusId, authenticator, Rad.Signed(sent, mac));
    }
  }

  /** A packet whose EAP data reads as a response of this identifier, type and data. */
  predicate Bears(packet: bytes, id: byte, kind: byte, data: bytes) {
    && 20 <= |packet| && Carried(packet).Some?
    && Eap.DecodeEap(Carried(packet).value) == Ok(Eap.EapPacket(2, id, Some(kind), data))
  }

  /** Nothing was sent, or one packet that bears this. */
  predicate SentOnly(s: Protocol, t: Protocol, kind: byte, data: bytes) {
    t.wire == s.wire
    || (&& |t.wire| == |s.wire| + 1 && s.wire <= t.wire
        && Bears(t.wire[|s.wire|].packet, s.eapId, kind, data))
  }

  lemma ResponseSent(c: Config, s: Protocol, kind: byte, data: bytes, x: Exchanged)
    ensures var packet := Eap.EncodeEap(Eap.RESPONSE, s.eapId, Some(kind), data);
            SentOnly(s, SendPacket(c, s, packet, x).s, kind, data)
  {
    hide Eap.EncodeEap, Eap.DecodeEap, Exchange, Carried;
    var packet := Eap.EncodeEap(Eap.RESPONSE, s.eapId, Some(kind), data);
    if packet.Ok? {
      Eap.EapRoundTrip(Eap.RESPONSE, s.eapId, Some(kind), data);
      Eap.DecodeIgnoresTail(Eap.RESPONSE, s.eapId, Some(kind), data, Trailing(c));
      if RequestFor(c, s, packet.value, x.authenticator).Ok? {
        RequestCarries(c, s, packet.value, x.authenticator);
      }
      ExchangeSendsIt(c, s, packet.value, x);
    }
  }

  /** What each action that sends one packet puts on the wire, under EAP type 55 and TEAP version
      1 without flags: TLVs only as the outer tunnel encrypted them, handshake data and alerts as
      they are, a ClientHello with its length; and the outer identity under type 1. */
  lemma ActionSends(c: Config, r: Reaction, o: Oracle)
    ensures var t := Perform(c, r, o).s;
            match r.action
            case Encrypted(plaintext) =>
              if o.encrypt(plaintext).Ok? then SentOnly(r.s, t, 55, [1] + o.encrypt(plaintext).value)
              else t.wire == r.s.wire
            case Clear(data) => SentOnly(r.s, t, 55, [1] + data)
            case Alert(alert) => SentOnly(r.s, t, 55, [1] + alert)
            case Hello(hello) =>
              if |hello| < 0x1_0000_0000 then SentOnly(r.s, t, 55, [0x81] + U32(|hello|) + hello)
              else t.wire == r.s.wire
            case SendIdentity => SentOnly(r.s, t, 1, c.outerIdentity)
            case Fragmented(_) => true
            case Stop => t.wire == r.s.wire
            case Raise(_) => t.wire == r.s.wire
  {
    hide SendPacket, SendFragments, SentOnly, Eap.EncodeEap;
    match r.action
    case Encrypted(plaintext) =>
      if o.encrypt(plaintext).Ok? {
        ResponseSent(c, r.s, 55, [1] + o.encrypt(plaintext).value, o.exchange(0));
      }
    case Clear(data) => ResponseSent(c, r.s, 55, [1] + data, o.exchange(0));
    case Alert(alert) => ResponseSent(c, r.s, 55, [1] + alert, o.exchange(0));
    case Hello(hello) =>
      if |hello| < 0x1_0000_0000 {
        ResponseSent(c, r.s, 55, [0x81] + U32(|hello|) + hello, o.exchange(0));
      } else {
        NothingSent(c, r.s, PackError, o.exchange(0));
      }
    case SendIdentity => ResponseSent(c, r.s, 1, c.outerIdentity, o.exchange(0));
    case _ =>
  }

  lemma NothingSent(c: Config, s: Protocol, f: Fault, x: Exchanged)
    ensures SendPacket(c, s, Err(f), x).s.wire == s.wire
  {
  }

  // ── Numbers ──

  /** The k-th request since the start has identifier k modulo 256. */
  predicate Numbered(s: Protocol) {
    forall k :: 0 <= k < |s.wire| ==>
      var p := s.wire[k].packet; 20 <= |p| && p[0] == 1 && p[1] as int == k % 256
  }

  /** The next request will be so numbered. */
  predicate InStep(s: Protocol) { s.radiusId as int == |s.wire| % 256 }

  /** The reply has the identifier of the last request, whose authenticator is the one replies
      are verified with. */
  predicate Answering(s: Protocol, reply: bytes) {
    && s.wire != [] && 2 <= |reply|
    && var p := s.wire[|s.wire| - 1].packet;
       20 <= |p| && reply[1] == p[1] && s.authenticator == p[4..20]
  }

  predicate Orderly(s: Protocol, out: Outcome) {
    && Numbered(out.s) && s.wire <= out.s.wire
    && (out.ending.Reply? ==> InStep(out.s) && Answering(out.s, out.ending.data))
  }

  lemma {:induction false} AwaitedAnswers(attempts: nat -> Attempt, id: byte, k: nat, retries: nat)
    ensures var r := Awaited(attempts, id, k, retries);
            r.Reply? ==> 2 <= |r.data| && r.data[1] == id
    decreases retries - k
  {
    if k < retries {
      AwaitedAnswers(attempts, id, k + 1, retries);
    }
  }

  lemma ExchangeOrderly(c: Config, s: Protocol, eapMessage: bytes, x: Exchanged)
    requires Numbered(s) && InStep(s)
    ensures Orderly(s, Exchange(c, s, eapMessage, x))
  {
    hide RequestFor, Rad.Decoded;
    var request := RequestFor(c, s, eapMessage, x.authenticator);
    if request.Ok? {
      RequestHeader(c, s, eapMessage, x.authenticator);
      AwaitedAnswers(x.attempts, s.radiusId, 0, c.retries);
      SendReceiveOrderly(c, s, request.value, x);
    }
  }

  lemma SendReceiveOrderly(c: Config, s: Protocol, packet: bytes, x: Exchanged)
    requires Numbered(s) && InStep(s)
    requires 20 <= |packet| && packet[0] == 1 && packet[1] == s.radiusId
    requires packet[4..20] == x.authenticator
    ensures Orderly(s, SendReceive(c, Asking(s, x.authenticator), packet, s.radiusId, x))
  {
    hide Awaited, Transmissions;
    AwaitedAnswers(x.attempts, s.radiusId, 0, c.retries);
  }

  lemma SendPacketOrderly(c: Config, s: Protocol, packet: Result<bytes>, x: Exchanged)
    requires Numbered(s) && InStep(s)
    ensures Orderly(s, SendPacket(c, s, packet, x))
  {
    hide Exchange, Numbered;
    if packet.Ok? {
      ExchangeOrderly(c, s, packet.value, x);
    }
  }

  /** Taking an acknowledgement changes neither the requests nor their numbers. */
  lemma AckedOrderly(c: Config, s: Protocol, reply: bytes)
    ensures var t := Acked(c, s, reply).0;
            t.wire == s.wire && t.radiusId == s.radiusId
  {
    hide Rad.Decoded, Eap.DecodeEap;
  }

  lemma SendFragmentOrderly(c: Config, s: Protocol, data: bytes, offset: nat, x: Exchanged)
    requires Numbered(s) && InStep(s)
    ensures var sent := SendFragment(c, s, data, offset, x);
            && Numbered(sent.out.s) && s.wire <= sent.out.s.wire
            && (sent.more ==> InStep(sent.out.s))
            && (!sent.more ==> Orderly(s, sent.out))
  {
    hide SendPacket, Acked, FragmentPacket;
    SendPacketOrderly(c, s, FragmentPacket(s.eapId, data, offset), x);
    var out := SendPacket(c, s, FragmentPacket(s.eapId, data, offset), x);
    if out.ending.Reply? {
      AckedOrderly(c, out.s, out.ending.data);
    }
  }

  lemma {:induction false} SendFragmentsOrderly(c: Config, s: Protocol, data: bytes, offset: nat,
                                                k: nat, xs: nat -> Exchanged)
    requires Numbered(s) && InStep(s)
    ensures Orderly(s, SendFragments(c, s, data, offset, k, xs))
    decreases |data| - offset
  {
    hide SendFragment, Numbered;
    if offset < |data| {
      var sent := SendFragment(c, s, data, offset, xs(k));
      SendFragmentOrderly(c, s, data, offset, xs(k));
      if sent.more {
        SendFragmentsOrderly(c, sent.out.s, data, offset + CHUNK, k + 1, xs);
      }
    }
  }

  lemma PerformOrderly(c: Config, r: Reaction, o: Oracle)
    requires Numbered(r.s) && InStep(r.s)
    ensures Orderly(r.s, Perform(c, r, o))
  {
    hide SendPacket, SendFragments, Numbered;
    match r.action
    case Fragmented(data) => SendFragmentsOrderly(c, r.s, data, 0, 0, o.exchange);
    case Clear(data) => SendPacketOrderly(c, r.s, Eap.EncodeTeap(r.s.eapId, 0, data), o.exchange(0));
    case Encrypted(plaintext) =>
      if o.encrypt(plaintext).Ok? {
        SendPacketOrderly(c, r.s, Eap.EncodeTeap(r.s.eapId, 0, o.encrypt(plaintext).value),
                          o.exchange(0));
      }
    case Hello(hello) =>
      SendPacketOrderly(c, r.s, Eap.EncodeTeapWithLength(r.s.eapId, 0, |hello|, hello),
                        o.exchange(0));
    case SendIdentity =>
      SendPacketOrderly(c, r.s, Eap.EncodeIdentityResponse(r.s.eapId, c.outerIdentity),
                        o.exchange(0));
    case Alert(alert) =>
      SendPacketOrderly(c, r.s, Eap.EncodeTeap(r.s.eapId, 0, alert), o.exchange(0));
    case Stop =>
    case Raise(_) =>
  }

  lemma StepOrderly(c: Config, s: Protocol, reply: bytes, o: Oracle)
    requires Numbered(s) && InStep(s)
    ensures Orderly(s, Step(c, s, reply, o))
  {
    hide React, Perform, Numbered;
    var r := React(c, s, reply, o);
    SameWire(s, r.s);
    PerformOrderly(c, r, o);
  }

  lemma SameWire(s: Protocol, t: Protocol)
    requires s.wire == t.wire
    ensures Numbered(s) <==> Numbered(t)
  {
  }

  lemma {:induction false} RunFromOrderly(c: Config, s: Protocol, reply: bytes, os: seq<Oracle>, k: nat)
    requires Numbered(s) && InStep(s) && Answering(s, reply)
    ensures Numbered(RunFrom(c, s, reply, os).s)
    ensures var turns := Verdict.TurnsFrom(c, s, reply, os);
            k < |turns| ==> Answering(turns[k].s, turns[k].reply)
    decreases |os|
  {
    hide Step, Numbered, Answering;
    if !Terminal(s) && os != [] {
      StepOrderly(c, s, reply, os[0]);
      var out := Step(c, s, reply, os[0]);
      if out.ending.Reply? {
        RunFromOrderly(c, out.s, out.ending.data, os[1..], if k > 0 then k - 1 else 0);
      }
    }
  }

  /** Section 3 of RFC 2865: in every run the k-th Access-Request has identifier k modulo 256; and
      every reply that is processed has the identifier of the request last sent, and is verified
      under that request's authenticator. */
  lemma RepliesMatchRequests(c: Config, authenticator: Octets16, os: seq<Oracle>, k: nat)
    ensures Numbered(Run(c, authenticator, os).s)
    ensures var turns := Verdict.Turns(c, authenticator, os);
            k < |turns| ==> Answering(turns[k].s, turns[k].reply)
  {
    hide Perform, RunFrom, Verdict.TurnsFrom, Answering;
    if os != [] {
      var r := Reaction(Initial(authenticator), SendIdentity);
      PerformOrderly(c, r, os[0]);
      var out := Perform(c, r, os[0]);
      if out.ending.Reply? {
        RunFromOrderly(c, out.s, out.ending.data, os[1..], k);
      }
    }
  }

  // ── Retries ──

  /** A datagram of two octets at least whose second is the identifier of the request. */
  predicate Fitting(a: Attempt, id: byte) { a.Got? && |a.data| >= 2 && a.data[1] == id }

  /** The request goes out again only after a silence or a stray datagram, and for the last time
      when it is answered, when the socket breaks, or when no retry is left. */
  lemma {:induction false} SentUntilAnswered(attempts: nat -> Attempt, id: byte, k: nat, retries: nat)
    requires k <= retries
    ensures var n := Transmissions(attempts, id, k, retries);
            && k + n <= retries
            && (forall i :: k <= i < k + n - 1 ==>
                  !attempts(i).Broken? && !Fitting(attempts(i), id))
            && (k + n < retries ==>
                  n > 0 && (attempts(k + n - 1).Broken? || Fitting(attempts(k + n - 1), id)))
    decreases retries - k
  {
    if k < retries && !attempts(k).Broken? && !Fitting(attempts(k), id) {
      SentUntilAnswered(attempts, id, k + 1, retries);
    }
  }

  /** The reply is the first datagram that fits, if the socket does not break before it. */
  lemma {:induction false} FirstFittingReplies(attempts: nat -> Attempt, id: byte, k: nat, j: nat,
                                               retries: nat)
    requires k <= j < retries && Fitting(attempts(j), id)
    requires forall i :: k <= i < j ==> !attempts(i).Broken? && !Fitting(attempts(i), id)
    ensures Awaited(attempts, id, k, retries) == Reply(attempts(j).data)
    decreases j - k
  {
    if k < j {
      FirstFittingReplies(attempts, id, k + 1, j, retries);
    }
  }

  /** Each exchange puts its request out so often, and leaves what went before. */
  lemma ExchangeSends(c: Config, s: Protocol, eapMessage: bytes, x: Exchanged)
    requires x.reachable && c.retries >= 1
    ensures var request := RequestFor(c, s, eapMessage, x.authenticator);
            var t := Exchange(c, s, eapMessage, x).s;
            t.wire == if request.Err? then s.wire
                      else s.wire + [Sending(request.value, Transmissions(x.attempts, s.radiusId, 0, c.retries))]
  {
    hide RequestFor, Rad.Decoded, Transmissions, Awaited;
  }

  // ── Acknowledgements ──

  /** What an acknowledgement of a fragment changes: the State to echo, if it has one that is not
      empty, and the EAP identifier, if it has an EAP packet. A State it does not have is kept. */
  lemma AckTaken(c: Config, s: Protocol, reply: bytes)
    requires Rad.Decoded(c.prims, reply, c.secret, s.authenticator).Ok?
    ensures var r := Rad.Decoded(c.prims, reply, c.secret, s.authenticator).value;
            var (t, fault) := Acked(c, s, reply);
            && t == s.(radiusState := t.radiusState, eapId := t.eapId)
            && (r.state.Some? && r.state.value != [] ==> t.radiusState == r.state)
            && (r.state.None? || r.state.value == [] ==> t.radiusState == s.radiusState)
            && if r.eapMessage.None? || r.eapMessage.value == [] then
                 t.eapId == s.eapId && fault.None?
               else
                 match Eap.DecodeEap(r.eapMessage.value)
                 case Ok(p) => t.eapId == p.id && fault.None?
                 case Err(f) => t.eapId == s.eapId && fault == Some(f)
  {
    hide Rad.Decoded, Eap.DecodeEap;
  }

  // ── What is kept of a reply ──

  /** A reply that verifies replaces the code and the attributes kept: every value of every type
      reads back from them in order. One that does not verify leaves them. */
  lemma ReplyKept(c: Config, s: Protocol, reply: bytes, n: nat)
    ensures var r, t := Rad.Decoded(c.prims, reply, c.secret, s.authenticator), Captured(c, s, reply);
            if r.Ok? then
              && t.replyCode == r.value.code as nat
              && Authz.FromHexAll(Authz.Values(t.replyAttrs, n)) == Rad.ValuesOf(r.value.attrs, n)
              && t == s.(replyCode := t.replyCode, replyAttrs := t.replyAttrs)
            else t == s
  {
    hide Rad.Decoded;
    var r := Rad.Decoded(c.prims, reply, c.secret, s.authenticator);
    if r.Ok? {
      Authz.ValuesLoseNothing(r.value.attrs, n);
    }
  }

  // ── A refused certificate ──

  /** A server certificate that is refused ends the run with that fault, whatever becomes of the
      alert; and if anything is sent, it is the alert. */
  lemma RefusalStands(c: Config, s: Protocol, data: bytes, o: Oracle)
    requires s.outer.Some? && o.outerFeed(data).BadCertificate?
    requires |o.outerFeed(data).alert| < 0xFF00
    ensures var alert, r := o.outerFeed(data).alert, HandshakeStep(c, s, data, o);
            var out := Perform(c, r, o);
            && out.ending == Raised(ServerCertificate)
            && (if alert == [] then out.s.wire == s.wire else SentOnly(s, out.s, 55, [1] + alert))
  {
    hide SendPacket, SentOnly;
    ActionSends(c, HandshakeStep(c, s, data, o), o);
    SameChannelSends(c, s, data, o);
  }

  lemma SameChannelSends(c: Config, s: Protocol, data: bytes, o: Oracle)
    ensures var r := HandshakeStep(c, s, data, o).s;
            forall t: Protocol, d: bytes :: SentOnly(r, t, 55, d) <==> SentOnly(s, t, 55, d)
  {
  }
}
