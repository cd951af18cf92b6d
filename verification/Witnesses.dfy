/** Runs that do happen: a session that succeeds, and sessions in which the cases that SessionRuns
    and KeySchedule single out arise. */
module Witnesses {
  import opened Bytes
  import opened Crypto
  import opened SessionSpec
  import opened SessionRuns
  import opened KeySchedule
  import opened Server
  import Eap
  import Tlv
  import Rad = Radius
  import CB = CryptoBinding
  import SessionSafety

  // ── What the server says ──

  /** TEAP/Start with no Authority-ID, a TEAP request with an empty record, and EAP-Success. */
  const START: bytes := [1, 0, 0, 6, 55, 0x21]
  const DATA: bytes := [1, 0, 0, 6, 55, 1]
  const OVER: bytes := [3, 0, 0, 4]

  /** A world in which a handshake is over at once, the tunnel gives `plaintext`, and the exchange
      brings `reply`. */
  function World(reply: bytes, plaintext: bytes, seed: Octets40, emsk: Option<Octets64>): Oracle {
    Oracle(_ => Brings(reply), Ok([]), _ => Continued(Tunnel(true, false), []), Ok(seed),
           Ok(plaintext), _ => Ok(plaintext), _ => Ok([]), Ok([]),
           _ => Continued(Tunnel(true, false), []), None, emsk, Zeros(16))
  }

  /** The state once such a record is taken in. */
  function Entered(s: Protocol, seed: Octets40): Protocol {
    var s1 := s.(radiusState := None, eapId := 0);
    if s.outer.Some? && s.outer.value.established then s1
    else Seeded(s1.(outer := Some(Tunnel(true, false)), state := TunnelUp), seed)
  }

  lemma StartDecodes()
    ensures Eap.DecodeEap(START) == Ok(Eap.EapPacket(Eap.REQUEST, 0, Some(Eap.TEAP), [0x21]))
    ensures Eap.DecodeTeap([0x21]) == Ok(Eap.TeapData(true, false, false, 1, 0, []))
  {
    assert Slice(START, 5, 6) == [0x21] && [0x21][1..] == [];
  }

  lemma DataDecodes()
    ensures Eap.DecodeEap(DATA) == Ok(Eap.EapPacket(Eap.REQUEST, 0, Some(Eap.TEAP), [1]))
    ensures Eap.DecodeTeap([1]) == Ok(Eap.TeapData(false, false, false, 1, 0, []))
  {
    assert Slice(DATA, 5, 6) == [1] && [1][1..] == [];
  }

  lemma StartAnswered(c: Config, s: Protocol, o: Oracle)
    requires o.outerHello == Ok([])
    ensures Answered(c, s, Rad.ACCESS_CHALLENGE, Some(START), o)
         == Reaction(Greeted(s.(eapId := 0), []).(outer := Some(Tunnel(false, false))), Hello([]))
  {
    hide Eap.DecodeEap, Eap.DecodeTeap, Greeted, Reassembled, AcceptSuccess;
    StartDecodes();
  }

  lemma DataAnswered(c: Config, s: Protocol, reply: bytes, plaintext: bytes, seed: Octets40,
                     emsk: Option<Octets64>)
    requires s.outer.Some? && !s.assembly.assembling && plaintext != []
    ensures var o := World(reply, plaintext, seed, emsk);
            Answered(c, s.(radiusState := None), Rad.ACCESS_CHALLENGE, Some(DATA), o)
            == Dispatch(c, Hear(Entered(s, seed), plaintext), Tlv.Tlvs(plaintext), o)
  {
    hide Dispatch, Tlv.Tlvs, Eap.DecodeEap, Eap.DecodeTeap, Start;
    DataDecodes();
    var o, s1 := World(reply, plaintext, seed, emsk), s.(radiusState := None, eapId := 0);
    assert s1.(assembly := s.assembly) == s1;
    assert Answered(c, s.(radiusState := None), Rad.ACCESS_CHALLENGE, Some(DATA), o)
        == Reassembled(c, s1, Some([]), o);
  }

  // ── A Binding Request that verifies ──

  const FIELDS: bytes := [0, 1, 1, 0x20] + Zeros(32)

  function BindingRequest(mac: Mac, cmk: bytes, serverOuter: bytes): (r: bytes)
    ensures |r| == 76
  {
    FIELDS + Zeros(20) + CB.CompoundMac(mac, FIELDS, cmk, serverOuter, [])
  }

  lemma RequestVerifies(mac: Mac, keys: Keys, serverOuter: bytes)
    ensures var cb := BindingRequest(mac, keys.cmk, serverOuter);
            && CB.ValidRequest(cb) && BindingResponse(mac, cb, serverOuter, keys).Some?
  {
    hide CB.CompoundMac;
    var cb := BindingRequest(mac, keys.cmk, serverOuter);
    CB.ThreeParts(FIELDS, Zeros(20), CB.CompoundMac(mac, FIELDS, keys.cmk, serverOuter, []));
    CB.MacOfFields(mac, cb, FIELDS, keys.cmk, serverOuter, []);
    assert cb[0] == cb[..36][0] && cb[1] == cb[..36][1] && cb[2] == cb[..36][2] && cb[3] == cb[..36][3];
    assert cb[4..36] == cb[..36][4..36] == Zeros(32);
    var p := CB.Parse(cb).value;
    assert p.flags == 2 && p.subType == 0;
    CB.ResponseAnswers(mac, cb, keys.cmk, serverOuter, [], keys.emskCmk, true);
  }

  /** The keys a Binding Request is checked with. */
  function NextKeys(c: Config, s: Protocol, emsk: Option<bytes>): Keys {
    if NeedsKeys(s) then Advance(c.prims.hmac(AlgOf(s)), s.keys, s.seed, s.innerMsk, emsk)
    else s.keys
  }

  /** The request that verifies in this state. */
  function Asked(c: Config, s: Protocol, emsk: Option<bytes>): (r: bytes)
    ensures |r| == 76
  {
    BindingRequest(c.prims.hmac(AlgOf(s)), NextKeys(c, s, emsk).cmk, s.serverOuter)
  }

  lemma AskedIsBound(c: Config, s: Protocol, plaintext: bytes, o: Oracle)
    ensures var h := Hear(s, plaintext);
            var cb, k := Asked(c, s, EmskOf(s, o)), Keyed(c, h, o);
            var b := Bind(c, h, cb, o);
            && b.Bound? && b.s == BoundBy(k, AlgOf(h), cb) && k.keys == NextKeys(c, s, EmskOf(s, o))
            && k.state == s.state && k.legs == s.legs
  {
    hide Advance, BindingRequest, BindingResponse;
    RequestVerifies(c.prims.hmac(AlgOf(s)), NextKeys(c, s, EmskOf(s, o)), s.serverOuter);
  }

  // ── Messages ──

  const RESULT := Tlv.Tlv(Tlv.RESULT, true, [0, 1])

  function BindingOf(cb: bytes): Tlv.Tlv { Tlv.Tlv(Tlv.CRYPTO_BINDING, true, cb) }

  lemma BindingReads(cb: bytes)
    requires |cb| == 76
    ensures var tlvs := Tlv.Tlvs(Tlv.Encoding(BindingOf(cb)));
            && UnsupportedOf(tlvs) == []
            && Read(tlvs) == Message(None, None, None, None, None, Some(cb))
  {
    OneTlvReads(BindingOf(cb));
  }

  lemma ResultAndBindingRead(cb: bytes)
    requires |cb| == 76
    ensures var tlvs := Tlv.Tlvs(Tlv.EncodeAll([RESULT, BindingOf(cb)]));
            && UnsupportedOf(tlvs) == []
            && Read(tlvs) == Message(None, Some([0, 1]), None, None, None, Some(cb))
  {
    var ts := [RESULT, BindingOf(cb)];
    Tlv.DecodeInvertsEncode(ts, []);
    OneTlvReads(RESULT);
    assert ts[..1] == [RESULT] && ts[1..] == [BindingOf(cb)];
    OneTlvReads(BindingOf(cb));
    assert forall kind :: Lookup(ts, kind)
                       == if kind == Tlv.CRYPTO_BINDING then Some(cb) else Lookup([RESULT], kind);
  }

  /** A binding alone is answered, and the session goes on. */
  lemma BindingAnswers(c: Config, s: Protocol, o: Oracle)
    ensures var cb := Asked(c, s, EmskOf(s, o));
            var p := Tlv.Encoding(BindingOf(cb));
            var h := Hear(s, p);
            var r := Dispatch(c, h, Tlv.Tlvs(p), o);
            && r.action.Encrypted?
            && r.s == BoundBy(Keyed(c, h, o), AlgOf(h), cb).(state := CryptoBinding)
            && r.s.keys == NextKeys(c, s, EmskOf(s, o))
  {
    hide Asked, NextKeys, Bind, Keyed;
    var cb := Asked(c, s, EmskOf(s, o));
    BindingReads(cb);
    AskedIsBound(c, s, Tlv.Encoding(BindingOf(cb)), o);
  }

  /** A Result(Success) with a binding is acknowledged. */
  lemma ResultAndBindingAnswers(c: Config, s: Protocol, o: Oracle)
    ensures var cb := Asked(c, s, EmskOf(s, o));
            var p := Tlv.EncodeAll([RESULT, BindingOf(cb)]);
            var h := Hear(s, p);
            var r := Dispatch(c, h, Tlv.Tlvs(p), o);
            && p != [] && r.action.Encrypted? && r.s.state == s.state && r.s.acknowledged
            && r.s.history
            == BoundBy(Keyed(c, h, o), AlgOf(h), cb).history + [Acknowledged]
            && r.s.legs == BindLast(s.legs) && r.s.rounds == Keyed(c, h, o).rounds
  {
    hide Asked, NextKeys, Bind, Keyed;
    var cb := Asked(c, s, EmskOf(s, o));
    var p := Tlv.EncodeAll([RESULT, BindingOf(cb)]);
    ResultAndBindingRead(cb);
    AskedIsBound(c, s, p, o);
    assert ReadU16([0, 1]) == Ok(Tlv.SUCCESS);
  }

  // ── Steps ──

  /** A TEAP/Start goes on to the next record. */
  lemma Greets(c: Config, authenticator: Octets16, os: seq<Oracle>, s: Protocol, id: byte)
    returns (o: Oracle, t: Protocol)
    requires Usable(c) && !Terminal(s)
    requires Alive(c, authenticator, os, s, Datagram(c, id, Rad.ACCESS_CHALLENGE, START))
    ensures Alive(c, authenticator, os + [o], t,
                  Datagram(c, s.radiusId, Rad.ACCESS_CHALLENGE, DATA))
    ensures Through(Greeted(s.(radiusState := None, eapId := 0), [])
                    .(outer := Some(Tunnel(false, false))), t)
  {
    hide Answered, Datagram, Brings, Alive, Usable;
    o := World(Datagram(c, s.radiusId, Rad.ACCESS_CHALLENGE, DATA), [], Zeros(40), None);
    StartAnswered(c, s.(radiusState := None), o);
    t := Goes(c, authenticator, os, s, id, START, o, Rad.ACCESS_CHALLENGE, DATA);
  }

  /** A record goes on to the next reply, if its message is answered in the tunnel. */
  lemma Enters(c: Config, authenticator: Octets16, os: seq<Oracle>, s: Protocol, id: byte,
               plaintext: bytes, seed: Octets40, emsk: Option<Octets64>, code: byte, next: bytes)
    returns (o: Oracle, t: Protocol)
    requires Usable(c) && !Terminal(s) && 0 < |next| <= 253
    requires Alive(c, authenticator, os, s, Datagram(c, id, Rad.ACCESS_CHALLENGE, DATA))
    requires s.outer.Some? && !s.assembly.assembling && plaintext != []
    requires var o := World(Datagram(c, s.radiusId, code, next), plaintext, seed, emsk);
             Dispatch(c, Hear(Entered(s, seed), plaintext), Tlv.Tlvs(plaintext), o).action.Encrypted?
    ensures o == World(Datagram(c, s.radiusId, code, next), plaintext, seed, emsk)
    ensures Alive(c, authenticator, os + [o], t, Datagram(c, s.radiusId, code, next))
    ensures Through(Dispatch(c, Hear(Entered(s, seed), plaintext), Tlv.Tlvs(plaintext), o).s, t)
  {
    hide Answered, Datagram, Brings, Alive, Usable, Dispatch, Tlv.Tlvs, Entered;
    var reply := Datagram(c, s.radiusId, code, next);
    o := World(reply, plaintext, seed, emsk);
    DataAnswered(c, s, reply, plaintext, seed, emsk);
    t := Goes(c, authenticator, os, s, id, DATA, o, code, next);
  }

  /** An Access-Accept after an acknowledged Result ends the run with success. */
  lemma Succeeds(c: Config, authenticator: Octets16, os: seq<Oracle>, s: Protocol, id: byte, o: Oracle)
    requires !Terminal(s) && s.acknowledged
    requires Alive(c, authenticator, os, s, Datagram(c, id, Rad.ACCESS_ACCEPT, OVER))
    ensures Run(c, authenticator, os + [o]) == Report(true, s.(radiusState := None, state := Done))
  {
    hide Run, Datagram;
    DatagramReads(c, id, Rad.ACCESS_ACCEPT, OVER);
    assert [o][0] == o;
  }

  // ── A run that succeeds ──

  /** The state once a first TEAP/Start is answered. */
  function Opened(authenticator: Octets16): Protocol {
    Greeted(Initial(authenticator), []).(outer := Some(Tunnel(false, false)))
  }

  lemma Opens(c: Config, authenticator: Octets16) returns (os: seq<Oracle>, s: Protocol, id: byte)
    requires Usable(c)
    ensures |os| == 2 && Through(Opened(authenticator), s)
    ensures Alive(c, authenticator, os, s, Datagram(c, id, Rad.ACCESS_CHALLENGE, DATA))
  {
    hide Run, Datagram, Alive, Usable;
    var o0 := World(Datagram(c, 0, Rad.ACCESS_CHALLENGE, START), [], Zeros(40), None);
    var s0 := Begins(c, authenticator, o0, START);
    var o1;
    o1, s := Greets(c, authenticator, [o0], s0, 0);
    os, id := [o0] + [o1], s0.radiusId;
  }

  /** A TEAP/Start; the end of the handshake, with a Result(Success) and a Crypto-Binding; an
      Access-Accept: the run reports success. */
  lemma SuccessHappens(c: Config, authenticator: Octets16, seed: Octets40)
    requires Usable(c)
    ensures exists os :: |os| == 4 && Run(c, authenticator, os).success
  {
    hide Run, Datagram, Alive, Usable, Dispatch, Asked;
    var os, s1, id := Opens(c, authenticator);
    var e := Entered(s1, seed);
    var p := Tlv.EncodeAll([RESULT, BindingOf(Asked(c, e, None))]);
    ResultAndBindingAnswers(c, e, World(Datagram(c, s1.radiusId, Rad.ACCESS_ACCEPT, OVER), p, seed, None));
    var o2, s2 := Enters(c, authenticator, os, s1, id, p, seed, None, Rad.ACCESS_ACCEPT, OVER);
    Succeeds(c, authenticator, os + [o2], s2, s1.radiusId, o2);
    assert |os + [o2] + [o2]| == 4;
  }

  // ── A run whose Result comes in another tunnel ──

  /** How the readings of a history grow. */
  lemma NextEvent(h: seq<Event>, e: Event)
    ensures var t := h + [e];
            && (MskInputs(t) != [] <==> MskInputs(h) != [] || e.Derived?)
            && LastSeed(t) == (if e.Up? then e.seed else LastSeed(h))
            && BeforeFirst(t)
            == (if MskInputs(h) != [] then BeforeFirst(h) else if e.Derived? then h else t)
            && (Reseeded(t) <==> Reseeded(h) || (e.Up? && MskInputs(h) != []))
            && (BoundSinceUp(t) <==> e.Verified? || (!e.Up? && BoundSinceUp(h)))
  {
    assert (h + [e])[..|h|] == h;
  }

  /** A lone Result(Success) after a binding is acknowledged. */
  lemma ResultAnswers(c: Config, s: Protocol, o: Oracle)
    requires s.bindingDone
    ensures var p := Tlv.ResultTlv(Tlv.SUCCESS);
            var h := Hear(s, p);
            var r := Dispatch(c, h, Tlv.Tlvs(p), o);
            r.action.Encrypted?
            && r.s == h.(acknowledged := true, history := h.history + [Acknowledged])
  {
    LoneResultReads();
  }

  /** The Result acknowledged came in a tunnel that never carried a binding. */
  ghost predicate AcknowledgedUnbound(c: Config, h: seq<Event>) {
    exists k: nat :: AcknowledgedAt(c, h, k) && !BoundSinceUp(h[..k])
  }

  /** The history of that run, up to the acknowledgement. */
  function TwoTunnelsHeard(first: bytes, p: bytes, derived: Event, verified: Event, second: bytes)
    : seq<Event>
  {
    [OuterTlvs([]), Up(first, Sha256)] + [Heard(p)] + [derived] + [verified] + [OuterTlvs([])]
    + [Up(second, Sha256)] + [Heard(Tlv.ResultTlv(Tlv.SUCCESS))]
  }

  lemma TwoTunnelsRead(first: bytes, p: bytes, derived: Event, verified: Event, second: bytes)
    requires derived.Derived? && verified.Verified?
    ensures var h := TwoTunnelsHeard(first, p, derived, verified, second);
            && LastSeed(BeforeFirst(h + [Acknowledged])) == first
            && !BoundSinceUp(h)
  {
    hide LastSeed, BeforeFirst, BoundSinceUp, MskInputs, Reseeded;
    FirstTunnelRead(first, p, derived);
    var h := [OuterTlvs([]), Up(first, Sha256)] + [Heard(p)] + [derived];
    NextEvent(h, verified);
    NextEvent(h + [verified], OuterTlvs([]));
    h := h + [verified] + [OuterTlvs([])];
    NextEvent(h, Up(second, Sha256));
    NextEvent(h + [Up(second, Sha256)], Heard(Tlv.ResultTlv(Tlv.SUCCESS)));
    h := h + [Up(second, Sha256)] + [Heard(Tlv.ResultTlv(Tlv.SUCCESS))];
    NextEvent(h, Acknowledged);
  }

  lemma FirstTunnelRead(first: bytes, p: bytes, derived: Event)
    requires derived.Derived?
    ensures var h := [OuterTlvs([]), Up(first, Sha256)] + [Heard(p)] + [derived];
            MskInputs(h) != [] && LastSeed(BeforeFirst(h)) == first
  {
    hide LastSeed, BeforeFirst, BoundSinceUp, MskInputs, Reseeded;
    var up: seq<Event> := [OuterTlvs([]), Up(first, Sha256)];
    UpRead(up, first);
    NextEvent(up, Heard(p));
    NextEvent(up + [Heard(p)], derived);
  }

  lemma UpRead(up: seq<Event>, first: bytes)
    requires up == [OuterTlvs([]), Up(first, Sha256)]
    ensures MskInputs(up) == [] && LastSeed(up) == first
  {
    hide BeforeFirst, BoundSinceUp, Reseeded;
    var none: seq<Event> := up[..0];
    assert up == none + [OuterTlvs([])] + [Up(first, Sha256)];
    NextEvent(none, OuterTlvs([]));
    NextEvent(none + [OuterTlvs([])], Up(first, Sha256));
  }

  lemma TwoTunnelsShow(c: Config, authenticator: Octets16, os: seq<Oracle>, first: bytes, p: bytes,
                       derived: Event, verified: Event, second: bytes)
    requires derived.Derived? && verified.Verified?
    requires Run(c, authenticator, os).s.history
          == TwoTunnelsHeard(first, p, derived, verified, second) + [Acknowledged]
    ensures var h := Run(c, authenticator, os).s.history;
            LastSeed(BeforeFirst(h)) == first && AcknowledgedUnbound(c, h)
  {
    hide Run, LastSeed, BeforeFirst, BoundSinceUp, TwoTunnelsHeard, SessionSafety.Legal;
    var h, k := Run(c, authenticator, os).s.history, |TwoTunnelsHeard(first, p, derived, verified, second)|;
    TwoTunnelsRead(first, p, derived, verified, second);
    SessionSafety.RunKeeps(c, authenticator, os);
    LegalPrefix(c, h, k);
    assert h[..k] == TwoTunnelsHeard(first, p, derived, verified, second);
    assert AcknowledgedAt(c, h, k);
  }

  /** A tunnel that comes up and brings a binding at once; then another TEAP/Start. */
  lemma FirstTunnel(c: Config, authenticator: Octets16, seed: Octets40)
    returns (os: seq<Oracle>, s: Protocol, id: byte, p: bytes, derived: Event, verified: Event)
    requires Usable(c)
    ensures Alive(c, authenticator, os, s, Datagram(c, id, Rad.ACCESS_CHALLENGE, START))
    ensures s.bindingDone && !s.acknowledged && !s.assembly.assembling && !Terminal(s)
    ensures s.rounds == 1 && derived.Derived? && verified.Verified?
    ensures s.history == [OuterTlvs([]), Up(seed, Sha256)] + [Heard(p)] + [derived] + [verified]
  {
    hide Run, Datagram, Alive, Usable, Dispatch, Asked;
    var before, s1, id1 := Opens(c, authenticator);
    var e := Entered(s1, seed);
    p := Tlv.Encoding(BindingOf(Asked(c, e, None)));
    BindingAnswers(c, e, World(Datagram(c, s1.radiusId, Rad.ACCESS_CHALLENGE, START), p, seed, None));
    var o2;
    o2, s := Enters(c, authenticator, before, s1, id1, p, seed, None, Rad.ACCESS_CHALLENGE, START);
    os, id := before + [o2], s1.radiusId;
    derived, verified := s.history[3], s.history[4];
  }

  /** A session once bound, and not yet acknowledged, is brought to success by another tunnel that
      holds nothing but a Result(Success). */
  lemma SecondTunnel(c: Config, authenticator: Octets16, before: seq<Oracle>, s: Protocol, id: byte,
                     seed: Octets40) returns (os: seq<Oracle>)
    requires Usable(c)
    requires Alive(c, authenticator, before, s, Datagram(c, id, Rad.ACCESS_CHALLENGE, START))
    requires s.bindingDone && !s.assembly.assembling && !Terminal(s)
    ensures var r := Run(c, authenticator, os);
            && r.success && r.s.seed == seed && r.s.rounds == s.rounds
            && r.s.history == s.history + [OuterTlvs([])] + [Up(seed, Sha256)]
                            + [Heard(Tlv.ResultTlv(Tlv.SUCCESS))] + [Acknowledged]
  {
    hide Run, Datagram, Alive, Usable, Dispatch, Tlv.ResultTlv;
    var o0, s0 := Greets(c, authenticator, before, s, id);
    var result := Tlv.ResultTlv(Tlv.SUCCESS);
    var e := Entered(s0, seed);
    ResultAnswers(c, e, World(Datagram(c, s0.radiusId, Rad.ACCESS_ACCEPT, OVER), result, seed, None));
    var o1, s1 := Enters(c, authenticator, before + [o0], s0, s.radiusId, result, seed, None,
                         Rad.ACCESS_ACCEPT, OVER);
    Succeeds(c, authenticator, before + [o0] + [o1], s1, s0.radiusId, o1);
    os := before + [o0] + [o1] + [o1];
  }

  /** For any two seeds there is a run with a tunnel of the first, in which a binding is verified,
      then a tunnel of the second with nothing but a Result(Success), that reports success: the
      Result is acknowledged in a tunnel without a binding, and the keys are those of a seed that
      is not the session's. */
  lemma TwoTunnelsSucceed(c: Config, authenticator: Octets16, first: Octets40, second: Octets40)
    requires Usable(c)
    ensures exists os ::
              var r := Run(c, authenticator, os);
              && r.success && r.s.seed == second && r.s.rounds == 1
              && LastSeed(BeforeFirst(r.s.history)) == first
              && AcknowledgedUnbound(c, r.s.history)
  {
    hide Run, Datagram, Alive, Usable, LastSeed, BeforeFirst, AcknowledgedUnbound;
    var before, s, id, p, derived, verified := FirstTunnel(c, authenticator, first);
    var os := SecondTunnel(c, authenticator, before, s, id, second);
    TwoTunnelsShow(c, authenticator, os, first, p, derived, verified, second);
  }

  // ── A run with two methods and one binding ──

  /** An inner EAP-Request in its TLV. */
  function Inner(kind: byte, payload: bytes): (r: bytes)
    requires |payload| < 1000
    ensures r != []
  {
    Tlv.Encoding(Tlv.Tlv(Tlv.EAP_PAYLOAD, true, Eap.EncodeEap(Eap.REQUEST, 0, Some(kind), payload).value))
  }

  lemma InnerReads(c: Config, s: Protocol, kind: byte, payload: bytes, o: Oracle)
    requires |payload| < 1000
    ensures Dispatch(c, s, Tlv.Tlvs(Inner(kind, payload)), o)
         == InnerRequest(c, s.(innerEapId := 0), Eap.EapPacket(Eap.REQUEST, 0, Some(kind), payload), [], o)
  {
    hide InnerRequest, Eap.DecodeEap;
    var eap := Eap.EncodeEap(Eap.REQUEST, 0, Some(kind), payload).value;
    Eap.EapRoundTrip(Eap.REQUEST, 0, Some(kind), payload);
    OneTlvReads(Tlv.Tlv(Tlv.EAP_PAYLOAD, true, eap));
  }

  lemma SendsInner(s: Protocol, kind: byte, body: bytes)
    requires |body| < 60000
    ensures SendInnerEap(s, kind, body, []).action.Encrypted?
  {
  }

  /** The first record of an inner handshake opens the inner tunnel. */
  lemma InnerOpens(c: Config, s: Protocol, reply: bytes, p: bytes, seed: Octets40, emsk: Option<Octets64>)
    requires s.inner.None?
    ensures var r := InnerTls(c, s, [0, 0], [], World(reply, p, seed, emsk));
            && r.action.Encrypted?
            && r.s == InnerStarted(s.(state := InnerTlsHandshake)).(inner := Some(Tunnel(true, false)))
  {
    hide SendInnerEap;
    assert TlsData([0, 0]) == [0];
    SendsInner(InnerStarted(s.(state := InnerTlsHandshake)).(inner := Some(Tunnel(true, false))),
               Eap.TLS, [0] + []);
  }

  /** The next one ends it. */
  lemma InnerEnds(c: Config, s: Protocol, reply: bytes, p: bytes, seed: Octets40, emsk: Option<Octets64>)
    requires s.inner.Some?
    ensures var o := World(reply, p, seed, emsk);
            var r := InnerTls(c, s, [0, 0], [], o);
            && r.action.Encrypted?
            && r.s == InnerTlsOver(c, s.(inner := Some(Tunnel(true, false))), o)
  {
    hide SendInnerEap, InnerTlsOver;
    assert TlsData([0, 0]) == [0];
    SendsInner(InnerTlsOver(c, s.(inner := Some(Tunnel(true, false))), World(reply, p, seed, emsk)),
               Eap.TLS, [0] + []);
  }

  const CHALLENGE: bytes := [1, 0, 0, 21, 16] + Zeros(16)

  lemma ChallengeAnswers(c: Config, s: Protocol, o: Oracle)
    requires PasswordFor(c, s.identityType) != [] && |InnerIdentityOf(c, s.identityType)| < 1000
    ensures var r := InnerMschap(c, s, CHALLENGE, [], o);
            && r.action.Encrypted?
            && r.s == s.(mschap := Some(MschapAnswer(c, s, Zeros(16), o.peerChallenge, 0)))
  {
    hide SendInnerEap;
    ChallengeRemembered(c, s, Zeros(16), 0, o);
    var m := MschapAnswer(c, s, Zeros(16), o.peerChallenge, 0);
    assert Slice(CHALLENGE, 5, 21) == Zeros(16);
    SendsInner(s.(mschap := Some(m)), Eap.MSCHAPV2, MschapBody(m).value);
  }

  lemma MatchAnswers(c: Config, s: Protocol, o: Oracle)
    requires s.mschap.Some?
    ensures var m := s.mschap.value;
            var r := InnerMschap(c, s, [3, 0, 0, 4] + ExpectedOf(c, m), [], o);
            && r.action.Encrypted?
            && r.s == MethodOver(s, MsChapV2, m.username, c.prims.mschapSessionKey(m.password, m.ntResponse))
  {
    hide SendInnerEap, MethodOver;
    var m := s.mschap.value;
    SuccessMatched(c, s, 0, o);
    var payload := [3, 0, 0, 4] + ExpectedOf(c, m);
    assert Drop(payload, 4) == ExpectedOf(c, m) && At(ExpectedOf(c, m), 0, ExpectedOf(c, m));
    SendsInner(MethodOver(s, MsChapV2, m.username, c.prims.mschapSessionKey(m.password, m.ntResponse)),
               Eap.MSCHAPV2, [3]);
  }

  /** The state that answers an inner request. */
  function Requested(s: Protocol, seed: Octets40, kind: byte, payload: bytes): Protocol
    requires |payload| < 1000
  {
    Hear(Entered(s, seed), Inner(kind, payload)).(innerEapId := 0)
  }

  /** An inner request goes on to the next record. */
  lemma Asks(c: Config, authenticator: Octets16, os: seq<Oracle>, s: Protocol, id: byte, kind: byte,
             payload: bytes, seed: Octets40, emsk: Option<Octets64>) returns (o: Oracle, t: Protocol)
    requires Usable(c) && !Terminal(s) && |payload| < 1000
    requires Alive(c, authenticator, os, s, Datagram(c, id, Rad.ACCESS_CHALLENGE, DATA))
    requires s.outer.Some? && !s.assembly.assembling
    requires var o := World(Datagram(c, s.radiusId, Rad.ACCESS_CHALLENGE, DATA), Inner(kind, payload),
                            seed, emsk);
             InnerRequest(c, Requested(s, seed, kind, payload),
                          Eap.EapPacket(Eap.REQUEST, 0, Some(kind), payload), [], o).action.Encrypted?
    ensures o == World(Datagram(c, s.radiusId, Rad.ACCESS_CHALLENGE, DATA), Inner(kind, payload),
                       seed, emsk)
    ensures Alive(c, authenticator, os + [o], t,
                  Datagram(c, s.radiusId, Rad.ACCESS_CHALLENGE, DATA))
    ensures Through(InnerRequest(c, Requested(s, seed, kind, payload),
                                 Eap.EapPacket(Eap.REQUEST, 0, Some(kind), payload), [], o).s, t)
  {
    hide Datagram, Alive, Usable, Dispatch, InnerRequest, Inner, Entered;
    InnerReads(c, Hear(Entered(s, seed), Inner(kind, payload)), kind, payload,
               World(Datagram(c, s.radiusId, Rad.ACCESS_CHALLENGE, DATA), Inner(kind, payload), seed,
                     emsk));
    o, t := Enters(c, authenticator, os, s, id, Inner(kind, payload), seed, emsk,
                   Rad.ACCESS_CHALLENGE, DATA);
  }

  lemma MschapRequested(c: Config, s: Protocol, payload: bytes, o: Oracle)
    requires PasswordFor(c, s.identityType) != []
    ensures InnerRequest(c, s, Eap.EapPacket(Eap.REQUEST, 0, Some(Eap.MSCHAPV2), payload), [], o)
         == InnerMschap(c, s, payload, [], o)
  {
    hide InnerMschap;
  }

  /** A session of a user with a password, before its first binding. */
  predicate Unbound(c: Config, s: Protocol) {
    && s.outer.Some? && !s.assembly.assembling && !Terminal(s) && s.identityType == 0
    && s.rounds == 0 && c.password != [] && |c.identity| < 1000
  }

  lemma OpensInner(c: Config, authenticator: Octets16, os: seq<Oracle>, s: Protocol, id: byte,
                   seed: Octets40) returns (o: Oracle, t: Protocol)
    requires Usable(c) && Unbound(c, s) && s.inner.None?
    requires Alive(c, authenticator, os, s, Datagram(c, id, Rad.ACCESS_CHALLENGE, DATA))
    ensures Alive(c, authenticator, os + [o], t, Datagram(c, s.radiusId, Rad.ACCESS_CHALLENGE, DATA))
    ensures Unbound(c, t) && t.inner.Some? && t.legs == s.legs
  {
    hide Datagram, Alive, Usable, InnerTls, Inner;
    InnerOpens(c, Requested(s, seed, Eap.TLS, [0, 0]), Datagram(c, s.radiusId, Rad.ACCESS_CHALLENGE, DATA),
               Inner(Eap.TLS, [0, 0]), seed, None);
    o, t := Asks(c, authenticator, os, s, id, Eap.TLS, [0, 0], seed, None);
  }

  lemma EndsInner(c: Config, authenticator: Octets16, os: seq<Oracle>, s: Protocol, id: byte,
                  seed: Octets40) returns (o: Oracle, t: Protocol)
    requires Usable(c) && Unbound(c, s) && s.inner.Some?
    requires Alive(c, authenticator, os, s, Datagram(c, id, Rad.ACCESS_CHALLENGE, DATA))
    ensures Alive(c, authenticator, os + [o], t, Datagram(c, s.radiusId, Rad.ACCESS_CHALLENGE, DATA))
    ensures Unbound(c, t) && t.inner.Some? && |t.legs| == |s.legs| + 1
    ensures t.legs[|s.legs|].how == EapTls && !t.legs[|s.legs|].bound
  {
    hide Datagram, Alive, Usable, InnerTls, Inner;
    InnerEnds(c, Requested(s, seed, Eap.TLS, [0, 0]), Datagram(c, s.radiusId, Rad.ACCESS_CHALLENGE, DATA),
              Inner(Eap.TLS, [0, 0]), seed, None);
    o, t := Asks(c, authenticator, os, s, id, Eap.TLS, [0, 0], seed, None);
  }

  lemma Challenges(c: Config, authenticator: Octets16, os: seq<Oracle>, s: Protocol, id: byte,
                   seed: Octets40) returns (o: Oracle, t: Protocol)
    requires Usable(c) && Unbound(c, s)
    requires Alive(c, authenticator, os, s, Datagram(c, id, Rad.ACCESS_CHALLENGE, DATA))
    ensures Alive(c, authenticator, os + [o], t, Datagram(c, s.radiusId, Rad.ACCESS_CHALLENGE, DATA))
    ensures Unbound(c, t) && t.inner == s.inner && t.legs == s.legs && t.mschap.Some?
  {
    hide Datagram, Alive, Usable, InnerRequest, InnerMschap, Inner, MschapAnswer;
    var requested := Requested(s, seed, Eap.MSCHAPV2, CHALLENGE);
    var w := World(Datagram(c, s.radiusId, Rad.ACCESS_CHALLENGE, DATA),
                   Inner(Eap.MSCHAPV2, CHALLENGE), seed, None);
    MschapRequested(c, requested, CHALLENGE, w);
    ChallengeAnswers(c, requested, w);
    o, t := Asks(c, authenticator, os, s, id, Eap.MSCHAPV2, CHALLENGE, seed, None);
  }

  lemma Matches(c: Config, authenticator: Octets16, os: seq<Oracle>, s: Protocol, id: byte,
                seed: Octets40) returns (o: Oracle, t: Protocol, before: seq<Event>, msk: bytes)
    requires Usable(c) && Unbound(c, s) && s.mschap.Some?
    requires Alive(c, authenticator, os, s, Datagram(c, id, Rad.ACCESS_CHALLENGE, DATA))
    ensures Alive(c, authenticator, os + [o], t, Datagram(c, s.radiusId, Rad.ACCESS_CHALLENGE, DATA))
    ensures Unbound(c, t) && t.inner == s.inner && |t.legs| == |s.legs| + 1 && s.legs <= t.legs
    ensures t.history == before + [Ran(MsChapV2, msk)] && t.outer.value.established
  {
    hide Datagram, Alive, Usable, InnerRequest, InnerMschap, Inner, ExpectedOf;
    var m := s.mschap.value;
    var payload := [3, 0, 0, 4] + ExpectedOf(c, m);
    var requested := Requested(s, seed, Eap.MSCHAPV2, payload);
    var w := World(Datagram(c, s.radiusId, Rad.ACCESS_CHALLENGE, DATA),
                   Inner(Eap.MSCHAPV2, payload), seed, None);
    MschapRequested(c, requested, payload, w);
    MatchAnswers(c, requested, w);
    o, t := Asks(c, authenticator, os, s, id, Eap.MSCHAPV2, payload, seed, None);
    before, msk := requested.history, c.prims.mschapSessionKey(m.password, m.ntResponse);
  }

  /** Keys were derived for an MS-CHAPv2 method from this EMSK. */
  ghost predicate MschapWithEmsk(c: Config, h: seq<Event>, emsk: bytes) {
    exists k: nat :: DerivedAt(h, k) && h[k].emsk == Some(emsk)
                     && SessionSafety.Replay(c, h[..k]).last == Some(MsChapV2)
  }

  lemma MschapWithEmskShown(c: Config, before: seq<Event>, msk: bytes, p: bytes, h: seq<Event>,
                            emsk: bytes)
    requires var k := |before| + 2;
             && k < |h| && h[k].Derived? && h[k].emsk == Some(emsk)
             && h[..k] == before + [Ran(MsChapV2, msk)] + [Heard(p)]
    ensures MschapWithEmsk(c, h, emsk)
  {
    hide SessionSafety.Replay;
    SessionSafety.Append(c, before, Ran(MsChapV2, msk));
    SessionSafety.Append(c, before + [Ran(MsChapV2, msk)], Heard(p));
    assert DerivedAt(h, |before| + 2);
  }

  /** EAP-TLS, then MS-CHAPv2, in one tunnel: their legs are there, and neither is bound. */
  lemma TwoMethods(c: Config, authenticator: Octets16, seed: Octets40)
    returns (os: seq<Oracle>, s: Protocol, id: byte, before: seq<Event>, msk: bytes)
    requires Usable(c) && c.password != [] && |c.identity| < 1000
    ensures Alive(c, authenticator, os, s, Datagram(c, id, Rad.ACCESS_CHALLENGE, DATA))
    ensures Unbound(c, s) && s.inner.Some? && |s.legs| == 2 && !s.legs[0].bound
    ensures s.legs[0].how == EapTls && s.outer.value.established
    ensures s.history == before + [Ran(MsChapV2, msk)]
  {
    hide Datagram, Alive, Usable, Run;
    var os1, s1, id1 := Opens(c, authenticator);
    var o2, s2 := OpensInner(c, authenticator, os1, s1, id1, seed);
    var o3, s3 := EndsInner(c, authenticator, os1 + [o2], s2, s1.radiusId, seed);
    var o4, s4 := Challenges(c, authenticator, os1 + [o2] + [o3], s3, s2.radiusId, seed);
    var o5;
    o5, s, before, msk := Matches(c, authenticator, os1 + [o2] + [o3] + [o4], s4, s3.radiusId, seed);
    os, id := os1 + [o2] + [o3] + [o4] + [o5], s4.radiusId;
  }

  /** The answer to a binding, with the final Result, of two methods that no round counted. */
  lemma BindsTwo(c: Config, s: Protocol, o: Oracle)
    requires |s.legs| == 2 && s.rounds == 0 && !s.legs[0].bound
    ensures var p := Tlv.EncodeAll([RESULT, BindingOf(Asked(c, s, EmskOf(s, o)))]);
            var r := Dispatch(c, Hear(s, p), Tlv.Tlvs(p), o);
            var derived := Derived(AlgOf(s), s.seed, s.innerMsk, EmskOf(s, o));
            && p != [] && r.action.Encrypted? && r.s.state == s.state && r.s.acknowledged && r.s.rounds == 1
            && |r.s.legs| == 2 && !r.s.legs[0].bound && r.s.legs[1].bound
            && |r.s.history| == |s.history| + 4
            && r.s.history[..|s.history| + 2] == s.history + [Heard(p)] + [derived]
  {
    hide Dispatch, Asked, Advance, Tlv.Tlvs, Tlv.EncodeAll;
    ResultAndBindingAnswers(c, s, o);
  }

  /** For any EMSK there is a run with EAP-TLS, MS-CHAPv2 and one binding for both that reports
      success: the keys for MS-CHAPv2 take the EMSK of the EAP-TLS tunnel, only the last leg is
      bound, and the same binding sent again would derive keys again. */
  lemma EmskLeftOverHappens(c: Config, authenticator: Octets16, seed: Octets40, emsk: Octets64)
    requires Usable(c) && c.password != [] && |c.identity| < 1000
    ensures exists os ::
              var r := Run(c, authenticator, os);
              && r.success && MschapWithEmsk(c, r.s.history, emsk)
              && |r.s.legs| == 2 && !r.s.legs[0].bound && r.s.legs[1].bound && NeedsKeys(r.s)
  {
    hide Run, Datagram, Alive, Usable, Dispatch, Asked, MschapWithEmsk, Tlv.Tlvs, Tlv.EncodeAll;
    var os, s, id, before, msk := TwoMethods(c, authenticator, seed);
    var e := Entered(s, seed);
    var p := Tlv.EncodeAll([RESULT, BindingOf(Asked(c, e, Some(emsk)))]);
    BindsTwo(c, e, World(Datagram(c, s.radiusId, Rad.ACCESS_ACCEPT, OVER), p, seed, Some(emsk)));
    var last, t := Enters(c, authenticator, os, s, id, p, seed, Some(emsk), Rad.ACCESS_ACCEPT, OVER);
    Succeeds(c, authenticator, os + [last], t, s.radiusId, last);
    var k := |s.history| + 1;
    SliceOfPrefix(t.history, k + 1, 0, k);
    assert t.history[k] == t.history[..k + 1][k];
    MschapWithEmskShown(c, before, msk, p, t.history, emsk);
  }
}
