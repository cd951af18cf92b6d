/** What a session puts on the wire: every step gets somewhere, every EAP-Response echoes the
    identifier and the RADIUS State it answers, and a fragmented flight arrives whole through the
    four layers it is wrapped in. */
module SessionWire {
  import opened Bytes
  import opened SessionSpec
  import Eap
  import Rad = Radius

  // ── Progress ──

  /** A reply is still being processed only after something was sent; nothing but a terminal
      state ends a step quietly. */
  predicate Progressed(s: Protocol, out: Outcome) {
    && s.wire <= out.s.wire
    && (out.ending.Reply? ==> |out.s.wire| > |s.wire|)
    && (out.ending.Nothing? ==> Terminal(out.s))
  }

  lemma ExchangeProgresses(c: Config, s: Protocol, eapMessage: bytes, x: Exchanged)
    requires c.retries >= 1
    ensures var out := Exchange(c, s, eapMessage, x);
            Progressed(s, out) && !out.ending.Nothing?
  {
    hide RequestFor, Rad.Decoded;
  }

  lemma SendPacketProgresses(c: Config, s: Protocol, packet: Result<bytes>, x: Exchanged)
    requires c.retries >= 1
    ensures var out := SendPacket(c, s, packet, x);
            Progressed(s, out) && !out.ending.Nothing?
  {
    hide Exchange;
    if packet.Ok? {
      ExchangeProgresses(c, s, packet.value, x);
    }
  }

  /** Taking an acknowledgement sends nothing. */
  lemma AckedKeepsWire(c: Config, s: Protocol, reply: bytes)
    ensures Acked(c, s, reply).0.wire == s.wire
  {
    hide Rad.Decoded, Eap.DecodeEap;
  }

  lemma SendFragmentProgresses(c: Config, s: Protocol, data: bytes, offset: nat, x: Exchanged)
    requires c.retries >= 1
    ensures var sent := SendFragment(c, s, data, offset, x);
            && Progressed(s, sent.out.(ending := if sent.more then Reply([]) else sent.out.ending))
            && (!sent.more ==> !sent.out.ending.Nothing?)
  {
    hide SendPacket, Acked, FragmentPacket;
    var packet := FragmentPacket(s.eapId, data, offset);
    SendPacketProgresses(c, s, packet, x);
    var out := SendPacket(c, s, packet, x);
    if out.ending.Reply? {
      AckedKeepsWire(c, out.s, out.ending.data);
    }
  }

  lemma {:induction false} SendFragmentsProgresses(c: Config, s: Protocol, data: bytes,
                                                   offset: nat, k: nat, xs: nat -> Exchanged)
    requires c.retries >= 1 && offset < |data|
    ensures var out := SendFragments(c, s, data, offset, k, xs);
            Progressed(s, out) && !out.ending.Nothing?
    decreases |data| - offset
  {
    hide SendFragment;
    SendFragmentProgresses(c, s, data, offset, xs(k));
    var sent := SendFragment(c, s, data, offset, xs(k));
    if sent.more {
      SendFragmentsProgresses(c, sent.out.s, data, offset + CHUNK, k + 1, xs);
    }
  }

  lemma PerformProgresses(c: Config, r: Reaction, o: Oracle)
    requires c.retries >= 1 && WellActed(r)
    ensures Progressed(r.s, Perform(c, r, o))
  {
    hide SendPacket, SendFragments;
    match r.action
    case Fragmented(data) => SendFragmentsProgresses(c, r.s, data, 0, 0, o.exchange);
    case Clear(data) =>
      SendPacketProgresses(c, r.s, Eap.EncodeTeap(r.s.eapId, 0, data), o.exchange(0));
    case Encrypted(plaintext) =>
      var data := o.encrypt(plaintext);
      if data.Ok? {
        SendPacketProgresses(c, r.s, Eap.EncodeTeap(r.s.eapId, 0, data.value), o.exchange(0));
      }
    case Hello(hello) =>
      SendPacketProgresses(c, r.s, Eap.EncodeTeapWithLength(r.s.eapId, 0, |hello|, hello),
                           o.exchange(0));
    case SendIdentity =>
      SendPacketProgresses(c, r.s, Eap.EncodeIdentityResponse(r.s.eapId, c.outerIdentity),
                           o.exchange(0));
    case Alert(alert) =>
      SendPacketProgresses(c, r.s, Eap.EncodeTeap(r.s.eapId, 0, alert), o.exchange(0));
    case Stop =>
    case Raise(_) =>
  }

  /** Whatever the reply and whatever the world answers, a step raises, ends in DONE or FAILED,
      or returns a reply after sending at least one Access-Request: with retries of at least 1,
      "Unexpected end of conversation" cannot happen. */
  lemma StepProgresses(c: Config, s: Protocol, reply: bytes, o: Oracle)
    requires c.retries >= 1
    ensures Progressed(s, Step(c, s, reply, o))
  {
    hide React, Perform;
    PerformProgresses(c, React(c, s, reply, o), o);
  }

  /** What is not a TEAP/Start is buffered for more fragments or handed on: "Fragment assembly
      returned None" cannot happen. */
  lemma AssemblyNeverStalls(a: Eap.Assembly, t: Eap.TeapData)
    requires !t.start
    ensures Eap.Fed(a, t).0.assembling <==> Eap.Fed(a, t).1.None?
  {
  }

  // ── Echo ──

  /** The EAP data of a RADIUS packet. */
  function Carried(packet: bytes): Option<bytes>
    requires 20 <= |packet|
  {
    Rad.Joined(Rad.ValuesOf(Rad.Attrs(packet[20..]), Rad.EAP_MESSAGE))
  }

  function Held(radiusState: Option<bytes>): seq<bytes> {
    if radiusState.Some? && radiusState.value != [] then [radiusState.value] else []
  }

  /** The value of a list of at most one attribute, if it has this type. */
  function ValueIn(xs: seq<Rad.Attr>, kind: nat): seq<bytes>
    requires |xs| <= 1
  {
    if xs != [] && xs[0].kind == kind then [xs[0].value] else []
  }

  lemma ValuesOfOne(xs: seq<Rad.Attr>, kind: nat)
    requires |xs| <= 1
    ensures Rad.ValuesOf(xs, kind) == ValueIn(xs, kind)
  {
    if xs != [] {
      assert Rad.ValuesOf(xs[1..], kind) == [];
    }
  }

  /** The values that the configured attributes give a type of their own. */
  function Configured(c: Config, kind: nat): seq<bytes> { Rad.ValuesOf(c.tail, kind) }

  lemma BuiltinsLeave(c: Config, kind: nat)
    requires kind == Rad.EAP_MESSAGE || kind == Rad.STATE
    ensures Rad.ValuesOf(c.head, kind) == []
  {
    assert !Rad.HasKind(c.head, kind);
    Rad.ValuesOfNone(c.head, kind);
  }

  lemma ValuesOfFour(w: seq<Rad.Attr>, x: seq<Rad.Attr>, y: seq<Rad.Attr>, z: seq<Rad.Attr>,
                     kind: nat)
    ensures Rad.ValuesOf(w + x + y + z, kind)
         == Rad.ValuesOf(w, kind) + Rad.ValuesOf(x, kind) + Rad.ValuesOf(y, kind)
            + Rad.ValuesOf(z, kind)
  {
    Rad.ValuesOfAppend(w, x, kind);
    Rad.ValuesOfAppend(w + x, y, kind);
    Rad.ValuesOfAppend(w + x + y, z, kind);
  }

  lemma ValuesSent(c: Config, eapMessage: bytes, radiusState: Option<bytes>)
    requires eapMessage != []
    ensures var attrs := RequestAttrs(c, eapMessage, radiusState);
            && Rad.ValuesOf(attrs, Rad.EAP_MESSAGE)
            == [eapMessage] + Configured(c, Rad.EAP_MESSAGE)
            && Rad.ValuesOf(attrs, Rad.STATE) == Configured(c, Rad.STATE) + Held(radiusState)
  {
    hide Rad.ValuesOf;
    var e := [Rad.Attr(Rad.EAP_MESSAGE, eapMessage)];
    var h := if radiusState.Some? && radiusState.value != [] then
               [Rad.Attr(Rad.STATE, radiusState.value)] else [];
    BuiltinsLeave(c, Rad.EAP_MESSAGE);
    BuiltinsLeave(c, Rad.STATE);
    ValuesOfFour(c.head, e, c.tail, h, Rad.EAP_MESSAGE);
    ValuesOfFour(c.head, e, c.tail, h, Rad.STATE);
    ValuesOfOne(e, Rad.EAP_MESSAGE);
    ValuesOfOne(e, Rad.STATE);
    ValuesOfOne(h, Rad.EAP_MESSAGE);
    ValuesOfOne(h, Rad.STATE);
  }

  /** What configured EAP-Message attributes add after the session's EAP packet. */
  function Trailing(c: Config): bytes { Concat(Configured(c, Rad.EAP_MESSAGE)) }

  /** A request carries the EAP packet it was built for, whole, then only what configured
      EAP-Messages add; and the RADIUS State held, after configured ones. */
  lemma RequestCarries(c: Config, s: Protocol, eapMessage: bytes, authenticator: Octets16)
    requires eapMessage != [] && RequestFor(c, s, eapMessage, authenticator).Ok?
    ensures var packet := RequestFor(c, s, eapMessage, authenticator).value;
            && 20 <= |packet| && Carried(packet) == Some(eapMessage + Trailing(c))
            && Rad.ValuesOf(Rad.Attrs(packet[20..]), Rad.STATE)
            == Configured(c, Rad.STATE) + Held(s.radiusState)
  {
    hide Rad.RequestPacket, RequestAttrs;
    var attrs := RequestAttrs(c, eapMessage, s.radiusState);
    ValuesSent(c, eapMessage, s.radiusState);
    Rad.RequestReads(c.prims, Rad.ACCESS_REQUEST, s.radiusId, authenticator, c.secret, attrs,
                     Rad.EAP_MESSAGE);
    Rad.RequestReads(c.prims, Rad.ACCESS_REQUEST, s.radiusId, authenticator, c.secret, attrs,
                     Rad.STATE);
    ConcatAppend([eapMessage], Configured(c, Rad.EAP_MESSAGE));
    assert Concat([eapMessage]) == eapMessage;
  }

  /** What a packet has to echo: the identifier of the EAP packet last taken as a request or as a
      fragment acknowledgement, and the RADIUS State held then. */
  datatype Owed = Owed(id: byte, radiusState: Option<bytes>)

  function OwedIn(s: Protocol): Owed { Owed(s.eapId, s.radiusState) }

  /** Section 4.1 of RFC 3748 and section 5.24 of RFC 2865. */
  predicate Echoes(c: Config, packet: bytes, owed: Owed) {
    && 20 <= |packet| && Carried(packet).Some?
    && var eap := Eap.DecodeEap(Carried(packet).value);
       && eap.Ok? && eap.value.code == Eap.RESPONSE && eap.value.id == owed.id
       && Rad.ValuesOf(Rad.Attrs(packet[20..]), Rad.STATE)
       == Configured(c, Rad.STATE) + Held(owed.radiusState)
  }

  /** `t` has sent what `s` had and then packets that echo `owed`, one each, in order. */
  predicate SentEchoing(c: Config, s: Protocol, t: Protocol, owed: seq<Owed>) {
    && s.wire <= t.wire && |t.wire| <= |s.wire| + |owed|
    && forall i :: |s.wire| <= i < |t.wire| ==> Echoes(c, t.wire[i].packet, owed[i - |s.wire|])
  }

  lemma ResponseEchoes(c: Config, s: Protocol, kind: byte, data: bytes, x: Exchanged)
    ensures var packet := Eap.EncodeEap(Eap.RESPONSE, s.eapId, Some(kind), data);
            SentEchoing(c, s, SendPacket(c, s, packet, x).s, [OwedIn(s)])
  {
    hide Eap.EncodeEap, Eap.DecodeEap, Exchange, Rad.Attrs;
    var packet := Eap.EncodeEap(Eap.RESPONSE, s.eapId, Some(kind), data);
    if packet.Ok? {
      Eap.EapRoundTrip(Eap.RESPONSE, s.eapId, Some(kind), data);
      Eap.DecodeIgnoresTail(Eap.RESPONSE, s.eapId, Some(kind), data, Trailing(c));
      var request := RequestFor(c, s, packet.value, x.authenticator);
      if request.Ok? {
        RequestCarries(c, s, packet.value, x.authenticator);
        assert Echoes(c, request.value, OwedIn(s));
      }
      ExchangeSendsIt(c, s, packet.value, x);
    }
  }

  lemma ExchangeSendsIt(c: Config, s: Protocol, eapMessage: bytes, x: Exchanged)
    ensures var t, request := Exchange(c, s, eapMessage, x).s,
                              RequestFor(c, s, eapMessage, x.authenticator);
            t.wire == s.wire
            || (&& request.Ok? && |t.wire| == |s.wire| + 1 && s.wire <= t.wire
                && t.wire[|s.wire|].packet == request.value)
  {
    hide RequestFor, Rad.Decoded;
  }

  /** What each packet of a fragmented flight owes: the first what the step owes, every later one
      what the acknowledgement before it left to echo. */
  function OwedByFragments(c: Config, s: Protocol, data: bytes, offset: nat, k: nat,
                           xs: nat -> Exchanged): seq<Owed>
    decreases |data| - offset
  {
    if offset >= |data| then []
    else
      var sent := SendFragment(c, s, data, offset, xs(k));
      [OwedIn(s)]
      + if sent.more then OwedByFragments(c, sent.out.s, data, offset + CHUNK, k + 1, xs) else []
  }

  lemma FragmentPacketEchoes(c: Config, s: Protocol, data: bytes, offset: nat, x: Exchanged)
    requires offset < |data|
    ensures SentEchoing(c, s, SendPacket(c, s, FragmentPacket(s.eapId, data, offset), x).s, [OwedIn(s)])
  {
    hide Exchange, Echoes;
    var chunk := Slice(data, offset, offset + CHUNK);
    var flags := if offset + CHUNK < |data| then Eap.FLAG_M else 0;
    if offset > 0 {
      ResponseEchoes(c, s, Eap.TEAP, [Eap.FlagsByte(flags)] + chunk, x);
    } else if |data| < 0x1_0000_0000 {
      ResponseEchoes(c, s, Eap.TEAP, [Eap.FlagsByte(Eap.WithL(flags))] + U32(|data|) + chunk, x);
    }
  }

  lemma FragmentEchoes(c: Config, s: Protocol, data: bytes, offset: nat, x: Exchanged)
    requires offset < |data|
    ensures SentEchoing(c, s, SendFragment(c, s, data, offset, x).out.s, [OwedIn(s)])
  {
    hide SendPacket, Acked, FragmentPacket, Echoes;
    FragmentPacketEchoes(c, s, data, offset, x);
    var out := SendPacket(c, s, FragmentPacket(s.eapId, data, offset), x);
    if out.ending.Reply? {
      AckedKeepsWire(c, out.s, out.ending.data);
    }
  }

  /** The loop goes on only after a packet was sent. */
  lemma MoreMeansSent(c: Config, s: Protocol, data: bytes, offset: nat, x: Exchanged)
    requires SendFragment(c, s, data, offset, x).more
    ensures |SendFragment(c, s, data, offset, x).out.s.wire| == |s.wire| + 1
  {
    hide SendPacket, Acked, FragmentPacket;
    var out := SendPacket(c, s, FragmentPacket(s.eapId, data, offset), x);
    RepliedMeansSent(c, s, FragmentPacket(s.eapId, data, offset), x);
    AckedKeepsWire(c, out.s, out.ending.data);
  }

  lemma SentThenSent(c: Config, s: Protocol, t: Protocol, u: Protocol, first: Owed, rest: seq<Owed>)
    requires SentEchoing(c, s, t, [first]) && |t.wire| == |s.wire| + 1 && SentEchoing(c, t, u, rest)
    ensures SentEchoing(c, s, u, [first] + rest)
  {
    hide Echoes;
    forall i | |s.wire| <= i < |u.wire|
      ensures Echoes(c, u.wire[i].packet, ([first] + rest)[i - |s.wire|])
    {
      if i == |s.wire| {
        assert u.wire[i] == t.wire[i];
      }
    }
  }

  lemma {:induction false} FragmentsEcho(c: Config, s: Protocol, data: bytes, offset: nat, k: nat,
                                         xs: nat -> Exchanged)
    ensures SentEchoing(c, s, SendFragments(c, s, data, offset, k, xs).s,
                        OwedByFragments(c, s, data, offset, k, xs))
    decreases |data| - offset
  {
    hide SendFragment, Echoes;
    if offset < |data| {
      var sent := SendFragment(c, s, data, offset, xs(k));
      FragmentEchoes(c, s, data, offset, xs(k));
      if sent.more {
        FragmentsEcho(c, sent.out.s, data, offset + CHUNK, k + 1, xs);
        MoreMeansSent(c, s, data, offset, xs(k));
        SentThenSent(c, s, sent.out.s, SendFragments(c, s, data, offset, k, xs).s, OwedIn(s),
                     OwedByFragments(c, sent.out.s, data, offset + CHUNK, k + 1, xs));
      }
    }
  }

  function OwedBy(c: Config, r: Reaction, o: Oracle): seq<Owed> {
    match r.action
    case Stop => []
    case Raise(_) => []
    case Fragmented(data) => OwedByFragments(c, r.s, data, 0, 0, o.exchange)
    case _ => [OwedIn(r.s)]
  }

  /** Every packet an action sends echoes what it owes. */
  lemma PerformEchoes(c: Config, r: Reaction, o: Oracle)
    ensures SentEchoing(c, r.s, Perform(c, r, o).s, OwedBy(c, r, o))
  {
    hide Exchange, SendFragments, Echoes;
    match r.action
    case Fragmented(data) => FragmentsEcho(c, r.s, data, 0, 0, o.exchange);
    case Clear(data) =>
      ResponseEchoes(c, r.s, Eap.TEAP, [Eap.FlagsByte(0)] + data, o.exchange(0));
    case Encrypted(plaintext) =>
      var data := o.encrypt(plaintext);
      if data.Ok? {
        ResponseEchoes(c, r.s, Eap.TEAP, [Eap.FlagsByte(0)] + data.value, o.exchange(0));
      }
    case Hello(hello) =>
      if |hello| < 0x1_0000_0000 {
        ResponseEchoes(c, r.s, Eap.TEAP, [Eap.FlagsByte(Eap.WithL(0))] + U32(|hello|) + hello,
                       o.exchange(0));
      }
    case SendIdentity => ResponseEchoes(c, r.s, Eap.IDENTITY, c.outerIdentity, o.exchange(0));
    case Alert(alert) =>
      ResponseEchoes(c, r.s, Eap.TEAP, [Eap.FlagsByte(0)] + alert, o.exchange(0));
    case Stop =>
    case Raise(_) =>
  }

  /** Whatever a step sends answers the EAP-Request in the reply it was given: its first packet
      carries that request's identifier and that reply's State, and each later one, a fragment,
      what the acknowledgement before it left to echo. */
  lemma StepEchoes(c: Config, s: Protocol, reply: bytes, o: Oracle)
    ensures var r, t := React(c, s, reply, o), Step(c, s, reply, o).s;
            && SentEchoing(c, s, t, OwedBy(c, r, o))
            && (|t.wire| > |s.wire| ==>
                && var d := Rad.Decoded(c.prims, reply, c.secret, s.authenticator);
                && d.Ok? && d.value.code == Rad.ACCESS_CHALLENGE && d.value.eapMessage.Some?
                && var request := Eap.DecodeEap(d.value.eapMessage.value);
                && request.Ok? && request.value.code == Eap.REQUEST
                && Echoes(c, t.wire[|s.wire|].packet, Owed(request.value.id, d.value.state)))
  {
    hide React, Perform, Rad.Decoded, Eap.DecodeEap;
    var r, t := React(c, s, reply, o), Step(c, s, reply, o).s;
    PerformEchoes(c, r, o);
    if |t.wire| > |s.wire| {
      assert OwedBy(c, r, o)[0] == OwedIn(r.s);
      ReactOwes(c, s, reply, o);
    }
  }

  /** What the reaction to a reply owes is that reply's. */
  lemma ReactOwes(c: Config, s: Protocol, reply: bytes, o: Oracle)
    requires var r := React(c, s, reply, o); !r.action.Stop? && !r.action.Raise?
    ensures var d := Rad.Decoded(c.prims, reply, c.secret, s.authenticator);
            && d.Ok? && d.value.code == Rad.ACCESS_CHALLENGE && d.value.eapMessage.Some?
            && var request := Eap.DecodeEap(d.value.eapMessage.value);
            && request.Ok? && request.value.code == Eap.REQUEST
            && OwedIn(React(c, s, reply, o).s) == Owed(request.value.id, d.value.state)
  {
    hide Challenge, Rad.Decoded, Eap.DecodeEap;
  }

  // ── Whole runs ──

  /** An exchange that was answered sent its packet. */
  lemma RepliedMeansSent(c: Config, s: Protocol, packet: Result<bytes>, x: Exchanged)
    requires SendPacket(c, s, packet, x).ending.Reply?
    ensures |SendPacket(c, s, packet, x).s.wire| == |s.wire| + 1
  {
    hide RequestFor, Rad.Decoded;
  }

  lemma LastFragmentSent(c: Config, s: Protocol, data: bytes, offset: nat, x: Exchanged)
    requires !SendFragment(c, s, data, offset, x).more
    requires SendFragment(c, s, data, offset, x).out.ending.Reply?
    ensures |SendFragment(c, s, data, offset, x).out.s.wire| == |s.wire| + 1
  {
    hide SendPacket, Acked, FragmentPacket;
    RepliedMeansSent(c, s, FragmentPacket(s.eapId, data, offset), x);
  }

  lemma {:induction false} FragmentsAllSent(c: Config, s: Protocol, data: bytes, offset: nat,
                                            k: nat, xs: nat -> Exchanged)
    requires SendFragments(c, s, data, offset, k, xs).ending.Reply?
    ensures |SendFragments(c, s, data, offset, k, xs).s.wire|
         == |s.wire| + |OwedByFragments(c, s, data, offset, k, xs)|
    decreases |data| - offset
  {
    hide SendFragment;
    if offset < |data| {
      var sent := SendFragment(c, s, data, offset, xs(k));
      if sent.more {
        MoreMeansSent(c, s, data, offset, xs(k));
        FragmentsAllSent(c, sent.out.s, data, offset + CHUNK, k + 1, xs);
      } else {
        LastFragmentSent(c, s, data, offset, xs(k));
      }
    }
  }

  /** A step that goes on has sent everything it owed. */
  lemma PerformSendsAll(c: Config, r: Reaction, o: Oracle)
    requires Perform(c, r, o).ending.Reply?
    ensures |Perform(c, r, o).s.wire| == |r.s.wire| + |OwedBy(c, r, o)|
  {
    hide SendPacket, SendFragments;
    match r.action
    case Fragmented(data) => FragmentsAllSent(c, r.s, data, 0, 0, o.exchange);
    case Clear(data) => RepliedMeansSent(c, r.s, Eap.EncodeTeap(r.s.eapId, 0, data), o.exchange(0));
    case Encrypted(plaintext) =>
      var data := o.encrypt(plaintext).value;
      RepliedMeansSent(c, r.s, Eap.EncodeTeap(r.s.eapId, 0, data), o.exchange(0));
    case Hello(hello) =>
      RepliedMeansSent(c, r.s, Eap.EncodeTeapWithLength(r.s.eapId, 0, |hello|, hello),
                       o.exchange(0));
    case SendIdentity =>
      RepliedMeansSent(c, r.s, Eap.EncodeIdentityResponse(r.s.eapId, c.outerIdentity),
                       o.exchange(0));
    case _ =>
  }

  lemma StepSendsAll(c: Config, s: Protocol, reply: bytes, o: Oracle)
    requires Step(c, s, reply, o).ending.Reply?
    ensures |Step(c, s, reply, o).s.wire| == |s.wire| + |OwedBy(c, React(c, s, reply, o), o)|
  {
    hide React, Perform, OwedBy;
    PerformSendsAll(c, React(c, s, reply, o), o);
  }

  /** What the packets of a run owe, step by step. */
  function OwedFrom(c: Config, s: Protocol, reply: bytes, os: seq<Oracle>): seq<Owed>
    decreases |os|
  {
    if Terminal(s) || os == [] then []
    else
      var out := Step(c, s, reply, os[0]);
      OwedBy(c, React(c, s, reply, os[0]), os[0])
      + if out.ending.Reply? then OwedFrom(c, out.s, out.ending.data, os[1..]) else []
  }

  lemma SentAllThenSent(c: Config, s: Protocol, t: Protocol, u: Protocol, first: seq<Owed>, rest: seq<Owed>)
    requires SentEchoing(c, s, t, first) && |t.wire| == |s.wire| + |first| && SentEchoing(c, t, u, rest)
    ensures SentEchoing(c, s, u, first + rest)
  {
    hide Echoes;
    forall i | |s.wire| <= i < |u.wire|
      ensures Echoes(c, u.wire[i].packet, (first + rest)[i - |s.wire|])
    {
      if i < |t.wire| {
        assert u.wire[i] == t.wire[i];
      }
    }
  }

  lemma {:induction false} RunFromEchoes(c: Config, s: Protocol, reply: bytes, os: seq<Oracle>)
    ensures SentEchoing(c, s, RunFrom(c, s, reply, os).s, OwedFrom(c, s, reply, os))
    decreases |os|
  {
    hide Step, React, OwedBy, Echoes;
    if !Terminal(s) && os != [] {
      var owed, out := OwedBy(c, React(c, s, reply, os[0]), os[0]), Step(c, s, reply, os[0]);
      StepEchoes(c, s, reply, os[0]);
      if out.ending.Reply? {
        StepSendsAll(c, s, reply, os[0]);
        var next := out.ending.data;
        RunFromEchoes(c, out.s, next, os[1..]);
        SentAllThenSent(c, s, out.s, RunFrom(c, out.s, next, os[1..]).s, owed,
                        OwedFrom(c, out.s, next, os[1..]));
      } else {
        assert owed + [] == owed;
      }
    }
  }

  /** In every run, every packet on the wire carries an EAP-Response that echoes what was owed
      when it was sent: the first, identifier 0 and no State; every later one, by StepEchoes and
      FragmentsEcho, the request or acknowledgement it answers. */
  lemma RunEchoes(c: Config, authenticator: Octets16, os: seq<Oracle>)
    requires os != []
    ensures var s := Initial(authenticator);
            var out := Perform(c, Reaction(s, SendIdentity), os[0]);
            var owed := if out.ending.Reply? then OwedFrom(c, out.s, out.ending.data, os[1..]) else [];
            SentEchoing(c, s, Run(c, authenticator, os).s, [Owed(0, None)] + owed)
  {
    hide Perform, RunFrom, OwedFrom, Echoes;
    var s := Initial(authenticator);
    var r := Reaction(s, SendIdentity);
    var out := Perform(c, r, os[0]);
    PerformEchoes(c, r, os[0]);
    if out.ending.Reply? {
      PerformSendsAll(c, r, os[0]);
      RunFromEchoes(c, out.s, out.ending.data, os[1..]);
      SentAllThenSent(c, s, out.s, Run(c, authenticator, os).s, [Owed(0, None)],
                      OwedFrom(c, out.s, out.ending.data, os[1..]));
    }
  }
}
