/** TEAPSession, the object whose methods run a TEAP conversation by updating its fields:
    teap_tester/state_machine.py, inner_tls.py and inner_mschapv2.py. Every method is proved
    equal to the step function of SessionSpec that specifies it; what holds of whole runs is
    proved about those functions. */
module Session {
  import opened Bytes
  import opened Crypto
  import opened Spec = SessionSpec
  import Eap
  import Tlv
  import Rad = Radius
  import Authz = Authorization
  import CB = CryptoBinding
  import SessionRuns
  import SessionSafety
  import SessionWire
  import Verdict

  /** What one step keeps, whatever the reply. */
  lemma StepPromises(c: Config, s: Protocol, reply: bytes, o: Oracle)
    ensures var out := Step(c, s, reply, o);
            && (SessionSafety.Kept(c, s) ==>
                  SessionSafety.Sound(c, out.s)
                  && (out.ending.Raised? || SessionSafety.Kept(c, out.s)))
            && (c.retries >= 1 ==> SessionWire.Progressed(s, out))
            && SessionWire.SentEchoing(c, s, out.s, SessionWire.OwedBy(c, React(c, s, reply, o), o))
            && (!Terminal(s) ==>
                  && (out.s.state == Done <==> Verdict.Accepts(c, s, reply))
                  && (Verdict.Refuses(c, s, reply) ==> out.s.state == Failed && out.ending.Nothing?))
  {
    hide Step, SessionSafety.Sound, SessionSafety.Kept, SessionWire.Progressed;
    hide SessionWire.SentEchoing, SessionWire.OwedBy, Verdict.Accepts, Verdict.Refuses;
    if !Terminal(s) {
      Verdict.DoneExactlyWhen(c, s, reply, o);
    }
    if SessionSafety.Kept(c, s) {
      SessionSafety.StepKeeps(c, s, reply, o);
    }
    if c.retries >= 1 {
      SessionWire.StepProgresses(c, s, reply, o);
    }
    SessionWire.StepEchoes(c, s, reply, o);
  }

  /** What a whole run keeps. */
  lemma RunPromises(c: Config, authenticator: Octets16, os: seq<Oracle>)
    ensures var r := Spec.Run(c, authenticator, os);
            && (r.success ==> r.s.state == Done && SessionRuns.Earned(c, r.s.history))
            && SessionRuns.AllFrom(r.s.inbox, os)
            && (r.success <==> Verdict.LastAccepts(c, Verdict.Turns(c, authenticator, os)))
  {
    hide Spec.Run, SessionRuns.Earned, SessionRuns.AllFrom, Verdict.LastAccepts, Verdict.Turns;
    SessionRuns.SuccessIsEarned(c, authenticator, os);
    Verdict.RepliesDecide(c, authenticator, os, 0);
  }

  class TeapSession {
    const config: Config
    const assembler: Eap.FragmentAssembler
    var state: State
    var eapId: byte
    var radiusId: byte
    var radiusState: Option<bytes>
    var authenticator: Octets16
    var outer: Option<Tunnel>
    var inner: Option<Tunnel>
    var seed: bytes
    var replyAttrs: Authz.Store
    var replyCode: nat
    var innerMsk: bytes
    var mschap: Option<Mschap>
    var sImck: bytes
    var sImckEmsk: bytes
    var cmk: bytes
    var emskCmk: bytes
    var bindingDone: bool
    var rounds: nat
    var acknowledged: bool
    var innerEapId: byte
    var serverOuter: bytes
    var identityType: nat
    var legs: seq<Leg>
    ghost var history: seq<Event>
    ghost var inbox: seq<bytes>
    ghost var wire: seq<Sending>

    ghost function View(): Protocol
      reads this, assembler
    {
      Protocol(state, eapId, radiusId, radiusState, authenticator, outer, inner,
               assembler.View(), seed, replyAttrs, replyCode, innerMsk, mschap,
               Keys(sImck, sImckEmsk, cmk, emskCmk), bindingDone, rounds, acknowledged,
               innerEapId, serverOuter, identityType, legs, history, inbox, wire)
    }

    constructor (config: Config, authenticator: Octets16)
      ensures this.config == config && fresh(assembler)
      ensures View() == Spec.Initial(authenticator)
    {
      this.config := config;
      this.authenticator := authenticator;
      assembler := new Eap.FragmentAssembler();
      state, eapId, radiusId, radiusState, outer, inner := Init, 0, 0, None, None, None;
      seed, replyAttrs, replyCode, innerMsk, mschap := [], map[], 0, [], None;
      sImck, sImckEmsk, cmk, emskCmk := [], [], [], [];
      bindingDone, rounds, acknowledged, innerEapId := false, 0, false, 0;
      serverOuter, identityType, legs, history, inbox, wire := [], 0, [], [], [], [];
    }

    /** Notes a milestone of the run; the source keeps no such record. */
    ghost method Note(e: Event)
      modifies `history
      ensures View() == old(View()).(history := old(View()).history + [e])
    {
      history := history + [e];
    }

    // ── RADIUS transport ──

    /** _capture_reply_attrs */
    method CaptureReplyAttrs(reply: bytes)
      modifies `replyAttrs, `replyCode
      ensures View() == Spec.Captured(config, old(View()), reply)
    {
      hide Rad.Decoded;
      var parsed := Rad.DecodeResponse(config.prims, reply, config.secret, authenticator);
      if parsed.Ok? {
        replyAttrs := Authz.Capture(parsed.value.attrs);
        replyCode := parsed.value.code;
      }
    }

    /** The Access-Request of an exchange, under a fresh authenticator and the next identifier. */
    method NextRequest(eapMessage: bytes, authenticator: Octets16) returns (packet: Result<bytes>)
      modifies `authenticator, `radiusId
      ensures packet == Spec.RequestFor(config, old(View()), eapMessage, authenticator)
      ensures View() == Spec.Asking(old(View()), authenticator)
    {
      hide Rad.RequestPacket, RequestAttrs;
      this.authenticator := authenticator;
      var attrs := RequestAttrs(config, eapMessage, radiusState);
      packet := Rad.EncodeRequest(config.prims, Rad.ACCESS_REQUEST, radiusId, authenticator,
                                  config.secret, attrs);
      radiusId := (radiusId + 1) % 256;
    }

    /** The loop of send_receive: transmit until a reply, a socket error, or the last timeout. */
    method SendReceive(packet: bytes, id: byte, x: Exchanged) returns (r: Ending)
      modifies `wire
      ensures Outcome(View(), r) == Spec.SendReceive(config, old(View()), packet, id, x)
    {
      if !x.reachable {
        return Raised(SocketError);
      }
      var attempt := 0;
      ghost var times := Transmissions(x.attempts, id, 0, config.retries);
      r := Nothing;
      while attempt < config.retries
        invariant attempt <= config.retries
        invariant r == Nothing
        invariant attempt + Transmissions(x.attempts, id, attempt, config.retries) == times
        invariant Awaited(x.attempts, id, attempt, config.retries)
               == Awaited(x.attempts, id, 0, config.retries)
      {
        var a := x.attempts(attempt);
        if a.Broken? {
          r := Raised(SocketError);
          break;
        }
        if Answers(a, id) {
          r := Reply(a.data);
          break;
        }
        if attempt == config.retries - 1 {
          r := Raised(Timeout);
          break;
        }
        attempt := attempt + 1;
      }
      if times > 0 {
        wire := wire + [Sending(packet, times)];
      }
    }

    /** _radius_exchange */
    method RadiusExchange(eapMessage: bytes, x: Exchanged) returns (r: Ending)
      modifies this
      ensures Outcome(View(), r) == Spec.Exchange(config, old(View()), eapMessage, x)
    {
      var id := radiusId;
      var packet := NextRequest(eapMessage, x.authenticator);
      if packet.Err? {
        return Raised(packet.fault);
      }
      r := SendReceive(packet.value, id, x);
      if r.Reply? {
        CaptureReplyAttrs(r.data);
      }
    }

    method SendPacket(packet: Result<bytes>, x: Exchanged) returns (r: Ending)
      modifies this
      ensures Outcome(View(), r) == Spec.SendPacket(config, old(View()), packet, x)
    {
      if packet.Err? {
        return Raised(packet.fault);
      }
      r := RadiusExchange(packet.value, x);
    }

    /** A TEAP response carrying `data` as it is. */
    method SendClear(data: bytes, o: Oracle) returns (r: Ending)
      modifies this
      ensures Outcome(View(), r) == Perform(config, Reaction(old(View()), Clear(data)), o)
    {
      r := SendPacket(Eap.EncodeTeap(eapId, 0, data), o.exchange(0));
    }

    /** A TEAP response carrying `plaintext` through the outer tunnel. */
    method SendEncrypted(plaintext: bytes, o: Oracle) returns (r: Ending)
      modifies this
      ensures Outcome(View(), r) == Perform(config, Reaction(old(View()), Encrypted(plaintext)), o)
    {
      var encrypted := o.encrypt(plaintext);
      if encrypted.Err? {
        return Raised(encrypted.fault);
      }
      r := SendPacket(Eap.EncodeTeap(eapId, 0, encrypted.value), o.exchange(0));
    }

    /** What _send_fragmented takes from the reply to a fragment. */
    method TakeAck(reply: bytes) returns (fault: Option<Fault>)
      modifies `radiusState, `eapId
      ensures (View(), fault) == Spec.Acked(config, old(View()), reply)
    {
      hide Rad.Decoded, Eap.DecodeEap;
      var ack := Rad.DecodeResponse(config.prims, reply, config.secret, authenticator);
      if ack.Err? {
        return Some(ack.fault);
      }
      if ack.value.state.Some? && ack.value.state.value != [] {
        radiusState := ack.value.state;
      }
      if ack.value.eapMessage.Some? && ack.value.eapMessage.value != [] {
        var packet := Eap.DecodeEap(ack.value.eapMessage.value);
        if packet.Err? {
          return Some(packet.fault);
        }
        eapId := packet.value.id;
      }
      return None;
    }

    /** One iteration of _send_fragmented; `more` when the loop goes on. */
    method SendFragment(data: bytes, offset: nat, x: Exchanged) returns (r: Ending, more: bool)
      requires offset < |data|
      modifies this
      ensures Sent(Outcome(View(), r), more)
           == Spec.SendFragment(config, old(View()), data, offset, x)
    {
      hide Spec.SendPacket, Spec.Acked, FragmentPacket;
      r := SendPacket(FragmentPacket(eapId, data, offset), x);
      more := false;
      if offset + CHUNK < |data| && !r.Raised? {
        if r.Nothing? {
          state := Failed;
        } else {
          var fault := TakeAck(r.data);
          if fault.Some? {
            r := Raised(fault.value);
          } else {
            r, more := Nothing, true;
          }
        }
      }
    }

    /** _send_fragmented */
    method SendFragmented(data: bytes, o: Oracle) returns (r: Ending)
      modifies this
      ensures Outcome(View(), r) == Perform(config, Reaction(old(View()), Fragmented(data)), o)
    {
      hide Spec.SendFragment;
      var offset, k := 0, 0;
      ghost var whole := Spec.SendFragments(config, View(), data, 0, 0, o.exchange);
      while offset < |data|
        invariant Spec.SendFragments(config, View(), data, offset, k, o.exchange) == whole
        decreases |data| - offset
      {
        var more;
        r, more := SendFragment(data, offset, o.exchange(k));
        if !more {
          return;
        }
        offset, k := offset + CHUNK, k + 1;
      }
      return Nothing;
    }

    // ── Inner methods ──

    method Fail()
      modifies this
      ensures View() == old(View()).(state := Failed)
    {
      state := Failed;
    }

    /** _send_inner_eap */
    method SendInnerEap(kind: byte, body: bytes, extra: bytes, o: Oracle) returns (r: Ending)
      modifies this
      ensures Outcome(View(), r)
           == Perform(config, Spec.SendInnerEap(old(View()), kind, body, extra), o)
    {
      var eap := Eap.EncodeEap(Eap.RESPONSE, innerEapId, Some(kind), body);
      if eap.Err? {
        return Raised(eap.fault);
      }
      var payload := Tlv.EapPayloadTlv(eap.value);
      if payload.Err? {
        return Raised(payload.fault);
      }
      r := SendEncrypted(extra + payload.value, o);
    }

    /** _record_leg */
    method RecordLeg(how: Method, identity: bytes)
      modifies `legs
      ensures View() == Spec.RecordLeg(old(View()), how, identity)
    {
      legs := legs + [Leg(identityType == MACHINE, how, identity, false)];
    }

    /** A method that succeeded: its leg, and the MSK it gives. */
    method FinishMethod(how: Method, identity: bytes, msk: bytes)
      modifies `legs, `innerMsk, `history
      ensures View() == Spec.MethodOver(old(View()), how, identity, msk)
    {
      RecordLeg(how, identity);
      innerMsk := msk;
      Note(Ran(how, msk));
    }

    method SetInner(tunnel: Option<Tunnel>)
      modifies `inner
      ensures View() == old(View()).(inner := tunnel)
    {
      inner := tunnel;
    }

    method OpenInner()
      modifies `inner, `history
      ensures View() == Spec.InnerStarted(old(View()))
    {
      SetInner(Some(Tunnel(false, false)));
      Note(InnerOpened);
    }

    /** The first EAP-TLS message of a leg. */
    method StartInnerTls(body: bytes, extra: bytes, o: Oracle) returns (r: Ending)
      modifies this
      ensures Outcome(View(), r)
           == Perform(config, Spec.InnerTlsStart(old(View()), body, extra, o), o)
    {
      hide Spec.SendInnerEap, Spec.SendPacket, Spec.SendFragments;
      state := InnerTlsHandshake;
      if o.innerHello.Err? {
        return Raised(o.innerHello.fault);
      }
      OpenInner();
      var out := o.innerHello.value;
      if body != [] {
        var fed := o.innerFeed(body);
        match fed {
          case BadCertificate(_) => return Raised(ServerCertificate);
          case TlsBroken => return Raised(TlsError);
          case Continued(t, outgoing) =>
            SetInner(Some(t));
            out := if outgoing != [] then outgoing else out;
        }
      }
      r := SendInnerEap(Eap.TLS, [0] + out, extra, o);
    }

    method FinishInnerTls(o: Oracle)
      modifies `legs, `state, `innerMsk, `history
      ensures View() == Spec.InnerTlsOver(config, old(View()), o)
    {
      var msk := if o.innerMsk.Some? then o.innerMsk.value else Zeros(64);
      FinishMethod(EapTls, InnerIdentityOf(config, identityType), msk);
      state := InnerTlsDone;
    }

    /** _handle_inner_tls */
    method HandleInnerTls(payload: bytes, extra: bytes, o: Oracle) returns (r: Ending)
      modifies this
      ensures Outcome(View(), r)
           == Perform(config, Spec.InnerTls(config, old(View()), payload, extra, o), o)
    {
      hide Spec.InnerTlsStart, Spec.InnerTlsOver, Spec.SendInnerEap, Spec.SendPacket, Spec.SendFragments, TlsData;
      var body := TlsData(payload);
      if inner.None? {
        r := StartInnerTls(body, extra, o);
        return;
      }
      if body == [] {
        r := SendInnerEap(Eap.TLS, [0], extra, o);
        return;
      }
      var fed := o.innerFeed(body);
      SetInner(Some(if fed.Continued? then fed.tunnel else Tunnel(false, false)));
      match fed {
        case BadCertificate(_) => return Raised(ServerCertificate);
        case TlsBroken => return Raised(TlsError);
        case Continued(t, outgoing) =>
          if t.established {
            FinishInnerTls(o);
          }
          r := SendInnerEap(Eap.TLS, [0] + outgoing, extra, o);
      }
    }

    /** _answer_mschap_challenge */
    method AnswerMschapChallenge(payload: bytes, extra: bytes, o: Oracle) returns (r: Ending)
      requires payload != []
      modifies this
      ensures Outcome(View(), r)
           == Perform(config, Spec.MschapChallenge(config, old(View()), payload, extra, o), o)
    {
      hide Spec.SendInnerEap, Spec.SendPacket, Spec.SendFragments, MschapBody;
      if |payload| < 5 {
        Fail();
        return Nothing;
      }
      var valueSize := payload[4] as int;
      var authChallenge := Slice(payload, 5, 5 + valueSize);
      if |authChallenge| != 16 {
        Fail();
        return Nothing;
      }
      if PasswordFor(config, identityType) == [] {
        Fail();
        return Nothing;
      }
      var m := RememberChallenge(authChallenge, o.peerChallenge, payload[1]);
      var body := MschapBody(m);
      if body.Err? {
        return Raised(body.fault);
      }
      r := SendInnerEap(Eap.MSCHAPV2, body.value, extra, o);
    }

    method RememberChallenge(authChallenge: bytes, peerChallenge: Octets16, id: byte)
      returns (m: Mschap)
      modifies `mschap
      ensures m == Spec.MschapAnswer(config, old(View()), authChallenge, peerChallenge, id)
      ensures View() == old(View()).(mschap := Some(m))
    {
      var username, password := InnerIdentityOf(config, identityType), PasswordFor(config, identityType);
      var ntResponse := config.prims.ntResponse(authChallenge, peerChallenge, username, password);
      m := Mschap(authChallenge, peerChallenge, ntResponse, username, password, id);
      mschap := Some(m);
    }

    /** _handle_inner_mschapv2 */
    method HandleInnerMschapv2(payload: bytes, extra: bytes, o: Oracle) returns (r: Ending)
      modifies this
      ensures Outcome(View(), r)
           == Perform(config, Spec.InnerMschap(config, old(View()), payload, extra, o), o)
    {
      hide Spec.MschapChallenge, Spec.MschapSuccess, Spec.SendPacket, Spec.SendFragments;
      if payload == [] {
        Fail();
        return Nothing;
      }
      var opcode := payload[0];
      if opcode == 1 {
        r := AnswerMschapChallenge(payload, extra, o);
        return;
      }
      if opcode == 3 {
        r := CheckMschapSuccess(payload, extra, o);
        return;
      }
      Fail();
      return Nothing;
    }

    /** The server's Success message, in _handle_inner_mschapv2. */
    method CheckMschapSuccess(payload: bytes, extra: bytes, o: Oracle) returns (r: Ending)
      modifies this
      ensures Outcome(View(), r)
           == Perform(config, Spec.MschapSuccess(config, old(View()), payload, extra), o)
    {
      hide Spec.SendInnerEap, Spec.SendPacket, Spec.SendFragments, Contains;
      if mschap.Some? {
        var m := mschap.value;
        var expected := config.prims.authenticatorResponse(m.password, m.ntResponse,
                          m.peerChallenge, m.authChallenge, m.username);
        var received := Drop(payload, 4);
        if !Contains(received, expected) {
          Fail();
          return Nothing;
        }
        var msk := config.prims.mschapSessionKey(m.password, m.ntResponse);
        FinishMethod(MsChapV2, m.username, msk);
      }
      r := SendInnerEap(Eap.MSCHAPV2, [3], extra, o);
    }

    method HandleInnerSuccess(extra: bytes, o: Oracle) returns (r: Ending)
      modifies this
      ensures Outcome(View(), r) == Perform(config, Spec.InnerSuccess(old(View()), extra), o)
    {
      state := InnerTlsDone;
      if extra != [] {
        r := SendEncrypted(extra, o);
      } else {
        r := SendClear([], o);
      }
    }

    /** _handle_inner_eap */
    method HandleInnerEap(data: bytes, extra: bytes, o: Oracle) returns (r: Ending)
      modifies this
      ensures Outcome(View(), r)
           == Perform(config, Spec.InnerEap(config, old(View()), data, extra, o), o)
    {
      hide Spec.InnerRequest, Spec.InnerSuccess, Eap.DecodeEap, Spec.SendPacket, Spec.SendFragments;
      var decoded := Eap.DecodeEap(data);
      if decoded.Err? {
        return Raised(decoded.fault);
      }
      var p := decoded.value;
      if p.code == Eap.SUCCESS {
        r := HandleInnerSuccess(extra, o);
        return;
      }
      if p.code != Eap.REQUEST {
        Fail();
        return Nothing;
      }
      innerEapId := p.id;
      r := HandleInnerRequest(p, extra, o);
    }

    method HandleInnerRequest(p: Eap.EapPacket, extra: bytes, o: Oracle) returns (r: Ending)
      modifies this
      ensures Outcome(View(), r)
           == Perform(config, Spec.InnerRequest(config, old(View()), p, extra, o), o)
    {
      hide Spec.InnerTls, Spec.InnerMschap, Spec.SendInnerEap, Spec.SendPacket, Spec.SendFragments;
      if p.kind == Some(Eap.IDENTITY) {
        state := State.InnerIdentity;
        r := SendInnerEap(Eap.IDENTITY, InnerIdentityOf(config, identityType), extra, o);
      } else if p.kind == Some(Eap.TLS) {
        r := HandleInnerTls(p.payload, extra, o);
      } else if p.kind == Some(Eap.MSCHAPV2) && PasswordFor(config, identityType) != [] {
        r := HandleInnerMschapv2(p.payload, extra, o);
      } else {
        var want := if PasswordFor(config, identityType) != [] then Eap.MSCHAPV2 else Eap.TLS;
        r := SendInnerEap(Eap.NAK, [want], extra, o);
      }
    }

    /** _handle_identity_type */
    method HandleIdentityType(value: bytes, eap: Option<bytes>, extra: bytes, o: Oracle)
      returns (r: Ending)
      modifies this
      ensures Outcome(View(), r)
           == Perform(config, Spec.IdentityType(config, old(View()), value, eap, extra, o), o)
    {
      hide Spec.AsIdentity, Spec.SendPacket, Spec.SendFragments;
      var requested := ReadU16(value);
      if requested.Err? {
        return Raised(requested.fault);
      }
      NoteIdentityType(requested.value);
      if HasCredential(config, requested.value) {
        r := AnswerAs(requested.value, eap, extra, o);
        return;
      }
      var other := Other(requested.value);
      if !HasCredential(config, other) {
        Fail();
        return Nothing;
      }
      r := AnswerAs(other, eap, extra, o);
    }

    method NoteIdentityType(idType: nat)
      modifies `identityType
      ensures View() == old(View()).(identityType := idType)
    {
      identityType := idType;
    }

    method Adopt(idType: nat)
      modifies `identityType, `state, `inner, `history
      ensures View() == Spec.Adopted(old(View()), idType)
    {
      identityType := idType;
      state := State.InnerIdentity;
      SetInner(None);
      Note(IdentitySettled);
    }

    /** Both ends of _handle_identity_type: offering the identity that was settled on. */
    method AnswerAs(idType: nat, eap: Option<bytes>, extra: bytes, o: Oracle) returns (r: Ending)
      modifies this
      ensures Outcome(View(), r)
           == Perform(config, Spec.AsIdentity(config, old(View()), idType, eap, extra, o), o)
    {
      hide Spec.InnerEap, Spec.SendPacket, Spec.SendFragments;
      Adopt(idType);
      if idType != USER && idType != MACHINE {
        return Raised(ValueError);
      }
      var offer := extra + Tlv.IdentityTypeTlv(idType);
      if eap.Some? {
        r := HandleInnerEap(eap.value, offer, o);
      } else {
        r := SendEncrypted(offer, o);
      }
    }

    // ── Crypto-Binding ──

    method StartChains()
      modifies `sImck, `sImckEmsk
      ensures View() == old(View()).(keys := Spec.Started(old(View()).keys, seed))
    {
      if sImck == [] {
        sImck := Take(seed, 40);
        sImckEmsk := Take(seed, 40);
      }
    }

    method AdvanceMskChain(mac: Mac)
      modifies `sImck, `cmk
      ensures View() == old(View()).(keys := Spec.MskStep(mac, old(View()).keys, innerMsk))
    {
      var imck := CB.Imck(mac, sImck, Take(innerMsk, 32));
      sImck, cmk := imck[..40], imck[40..60];
    }

    method AdvanceEmskChain(mac: Mac, innerEmsk: Option<bytes>)
      modifies `sImckEmsk, `emskCmk
      ensures View() == old(View()).(keys := Spec.EmskStep(mac, old(View()).keys, innerEmsk))
    {
      if innerEmsk.Some? {
        var imskEmsk := CB.EmskImsk(mac, innerEmsk.value);
        var imck := CB.Imck(mac, sImckEmsk, imskEmsk);
        sImckEmsk, emskCmk := imck[..40], imck[40..60];
      } else {
        emskCmk := [];
      }
    }

    /** _derive_binding_keys */
    method DeriveBindingKeys(alg: HashAlg, o: Oracle)
      requires alg == AlgOf(View())
      modifies `sImck, `sImckEmsk, `cmk, `emskCmk, `history
      ensures View() == Spec.DeriveKeys(config, old(View()), o)
    {
      StartChains();
      AdvanceMskChain(config.prims.hmac(alg));
      var innerEmsk: Option<bytes> := if inner.Some? then o.innerEmsk else None;
      AdvanceEmskChain(config.prims.hmac(alg), innerEmsk);
      Note(Derived(alg, seed, innerMsk, innerEmsk));
    }

    method DeriveIfNew(alg: HashAlg, o: Oracle)
      requires alg == AlgOf(View())
      modifies `sImck, `sImckEmsk, `cmk, `emskCmk, `history, `rounds
      ensures View() == Spec.Keyed(config, old(View()), o)
    {
      if |legs| > rounds || rounds == 0 {
        DeriveBindingKeys(alg, o);
        rounds := rounds + 1;
      }
    }

    /** _bind; None is a BindingError. */
    method Bind(cb: bytes, o: Oracle) returns (response: Option<bytes>)
      modifies this
      ensures var b := Spec.Bind(config, old(View()), cb, o);
              View() == b.s && response == (if b.Bound? then Some(b.response) else None)
    {
      hide BindingResponse, Spec.Keyed, Spec.BoundBy;
      var parsed := CB.Parse(cb);
      if parsed.None? || CB.RequestProblem(parsed.value) != CB.Fine {
        return None;
      }
      var alg := if outer.Some? && outer.value.sha384 then Sha384 else Sha256;
      DeriveIfNew(alg, o);
      response := VerifyAndRespond(config.prims.hmac(alg), cb);
      if response.Some? {
        RecordBinding(alg, cb);
      }
    }

    method RecordBinding(alg: HashAlg, cb: bytes)
      modifies `bindingDone, `legs, `history
      ensures View() == Spec.BoundBy(old(View()), alg, cb)
    {
      bindingDone := true;
      if legs != [] {
        legs := legs[|legs| - 1 := legs[|legs| - 1].(bound := true)];
      }
      Note(Verified(alg, cb, serverOuter, cmk, emskCmk));
    }

    /** The Compound MACs of _bind, and the response once they verify. */
    method VerifyAndRespond(mac: Mac, cb: bytes) returns (response: Option<bytes>)
      requires CB.Parse(cb).Some?
      ensures response == Spec.BindingResponse(mac, cb, serverOuter, Keys(sImck, sImckEmsk, cmk, emskCmk))
    {
      var parsed := CB.Parse(cb).value;
      var hasMsk, hasEmsk := CB.HasMsk(parsed.flags), CB.HasEmsk(parsed.flags);
      if hasMsk {
        var expected := CB.ComputeCompoundMac(mac, cb, cmk, serverOuter, []);
        if expected != parsed.mskMac {
          return None;
        }
      }
      if hasEmsk && emskCmk != [] {
        var expected := CB.ComputeCompoundMac(mac, cb, emskCmk, serverOuter, []);
        if expected != parsed.emskMac {
          return None;
        }
      }
      var built := CB.BuildResponse(mac, cb, cmk, serverOuter, [], emskCmk, hasMsk);
      return if built.Ok? then Some(built.value) else None;
    }

    // ── Results ──

    /** _fatal */
    method Fatal(code: nat, o: Oracle) returns (r: Ending)
      requires code < 0x1_0000_0000
      modifies this
      ensures Outcome(View(), r) == Perform(config, Spec.Fatal(old(View()), code), o)
    {
      state := Failed;
      r := SendEncrypted(Tlv.ResultTlv(Tlv.FAILURE) + Tlv.ErrorTlv(code), o);
    }

    /** _answer_failure */
    method AnswerFailure(o: Oracle) returns (r: Ending)
      modifies this
      ensures Outcome(View(), r) == Perform(config, Spec.AnswerFailure(old(View())), o)
    {
      state := Failed;
      r := SendEncrypted(Tlv.ResultTlv(Tlv.FAILURE), o);
    }

    /** Accepting the final Result: what every branch that does so ends with. */
    method Acknowledge(plaintext: bytes, o: Oracle) returns (r: Ending)
      modifies this
      ensures Outcome(View(), r) == Perform(config, Spec.Acknowledge(old(View()), plaintext), o)
    {
      acknowledged := true;
      Note(Acknowledged);
      r := SendEncrypted(plaintext, o);
    }

    /** _handle_crypto_binding */
    method HandleCryptoBinding(m: Message, o: Oracle) returns (r: Ending)
      requires m.binding.Some?
      modifies this
      ensures Outcome(View(), r)
           == Perform(config, Spec.BindingAlone(config, old(View()), m, o), o)
    {
      hide Spec.Bind, Spec.IdentityType, Spec.InnerEap, Spec.SendPacket, Spec.SendFragments;
      var response := Bind(m.binding.value, o);
      if response.None? {
        r := Fatal(TUNNEL_COMPROMISE, o);
        return;
      }
      var data := BindingTlv(response.value) + Tlv.IntermediateResultTlv(Tlv.SUCCESS);
      if m.identityType.Some? {
        r := HandleIdentityType(m.identityType.value, m.eap, data, o);
      } else if m.eap.Some? {
        r := HandleInnerEap(m.eap.value, data, o);
      } else {
        state := State.CryptoBinding;
        r := SendEncrypted(data, o);
      }
    }

    /** _handle_intermediate_result_crypto */
    method HandleIntermediateResultCrypto(m: Message, o: Oracle) returns (r: Ending)
      requires m.binding.Some? && m.intermediate.Some?
      modifies this
      ensures Outcome(View(), r)
           == Perform(config, Spec.IntermediateAndBinding(config, old(View()), m, o), o)
    {
      var status := ReadU16(m.intermediate.value);
      if status.Err? {
        return Raised(status.fault);
      }
      if status.value != Tlv.SUCCESS {
        r := Fatal(UNEXPECTED_TLVS, o);
      } else {
        r := HandleCryptoBinding(m, o);
      }
    }

    /** _handle_last_binding_and_result */
    method HandleLastBindingAndResult(m: Message, o: Oracle) returns (r: Ending)
      requires m.binding.Some? && m.intermediate.Some? && m.result.Some?
      modifies this
      ensures Outcome(View(), r)
           == Perform(config, Spec.LastBindingAndResult(config, old(View()), m, o), o)
    {
      hide Spec.Bind, Spec.Fatal, Spec.AnswerFailure, Spec.Acknowledge, Spec.SendPacket, Spec.SendFragments;
      var intermediate := ReadU16(m.intermediate.value);
      if intermediate.Err? {
        return Raised(intermediate.fault);
      }
      var result := ReadU16(m.result.value);
      if result.Err? {
        return Raised(result.fault);
      }
      var response := Bind(m.binding.value, o);
      if response.None? {
        r := Fatal(TUNNEL_COMPROMISE, o);
      } else if intermediate.value != Tlv.SUCCESS || result.value != Tlv.SUCCESS {
        r := AnswerFailure(o);
      } else {
        r := Acknowledge(Tlv.IntermediateResultTlv(Tlv.SUCCESS) + BindingTlv(response.value)
                         + Tlv.ResultTlv(Tlv.SUCCESS), o);
      }
    }

    /** _handle_final_result */
    method HandleFinalResult(m: Message, o: Oracle) returns (r: Ending)
      requires m.binding.Some? && m.result.Some?
      modifies this
      ensures Outcome(View(), r)
           == Perform(config, Spec.FinalResult(config, old(View()), m, o), o)
    {
      hide Spec.Bind, Spec.Fatal, Spec.AnswerFailure, Spec.Acknowledge, Spec.SendPacket, Spec.SendFragments;
      var result := ReadU16(m.result.value);
      if result.Err? {
        return Raised(result.fault);
      }
      var response := Bind(m.binding.value, o);
      if response.None? {
        r := Fatal(TUNNEL_COMPROMISE, o);
      } else if result.value != Tlv.SUCCESS {
        r := AnswerFailure(o);
      } else {
        r := Acknowledge(Tlv.ResultTlv(Tlv.SUCCESS) + BindingTlv(response.value), o);
      }
    }

    /** _handle_result_pac */
    method HandleResultPac(m: Message, o: Oracle) returns (r: Ending)
      requires m.result.Some?
      modifies this
      ensures Outcome(View(), r) == Perform(config, Spec.ResultAndPac(old(View()), m), o)
    {
      var result := ReadU16(m.result.value);
      if result.Err? {
        return Raised(result.fault);
      }
      if result.value != Tlv.SUCCESS {
        r := AnswerFailure(o);
        return;
      }
      state := ResultPac;
      r := SendEncrypted(Tlv.ResultTlv(Tlv.SUCCESS), o);
    }

    /** _handle_intermediate_failure */
    method HandleIntermediateFailure(m: Message, o: Oracle) returns (r: Ending)
      requires m.intermediate.Some?
      modifies this
      ensures Outcome(View(), r) == Perform(config, Spec.IntermediateFailure(old(View()), m), o)
    {
      var status := ReadU16(m.intermediate.value);
      if status.Err? {
        return Raised(status.fault);
      }
      if status.value == Tlv.SUCCESS {
        r := Fatal(UNEXPECTED_TLVS, o);
      } else {
        r := SendEncrypted(Tlv.IntermediateResultTlv(Tlv.FAILURE), o);
      }
    }

    /** A Result that came on its own. */
    method HandleLoneResult(value: bytes, o: Oracle) returns (r: Ending)
      modifies this
      ensures Outcome(View(), r) == Perform(config, Spec.LoneResult(old(View()), value), o)
    {
      var result := ReadU16(value);
      if result.Err? {
        return Raised(result.fault);
      }
      if result.value != Tlv.SUCCESS {
        r := AnswerFailure(o);
      } else if !bindingDone {
        r := Fatal(UNEXPECTED_TLVS, o);
      } else {
        r := Acknowledge(Tlv.ResultTlv(Tlv.SUCCESS), o);
      }
    }

    /** _dispatch_tlvs, past the NAK of unsupported TLVs. */
    method DispatchMessage(m: Message, o: Oracle) returns (r: Ending)
      modifies this
      ensures Outcome(View(), r)
           == Perform(config, Spec.DispatchMessage(config, old(View()), m, o), o)
    {
      hide Spec.ResultAndPac, Spec.LastBindingAndResult, Spec.FinalResult, Spec.IntermediateAndBinding;
      hide Spec.IntermediateFailure, Spec.BindingAlone, Spec.IdentityType, Spec.InnerEap, Spec.LoneResult, Spec.Perform;
      if m.result.Some? && m.pac.Some? {
        r := HandleResultPac(m, o);
      } else if m.intermediate.Some? && m.result.Some? && m.binding.Some? {
        r := HandleLastBindingAndResult(m, o);
      } else if m.result.Some? && m.binding.Some? {
        r := HandleFinalResult(m, o);
      } else if m.intermediate.Some? && m.binding.Some? {
        r := HandleIntermediateResultCrypto(m, o);
      } else if m.intermediate.Some? && m.binding.None? && m.result.None? {
        r := HandleIntermediateFailure(m, o);
      } else if m.binding.Some? {
        r := HandleCryptoBinding(m, o);
      } else if m.identityType.Some? {
        r := HandleIdentityType(m.identityType.value, m.eap, [], o);
      } else if m.eap.Some? {
        r := HandleInnerEap(m.eap.value, [], o);
      } else if m.result.Some? {
        r := HandleLoneResult(m.result.value, o);
      } else {
        r := SendClear([], o);
      }
    }

    /** _dispatch_tlvs */
    method DispatchTlvs(tlvs: seq<Tlv.Tlv>, o: Oracle) returns (r: Ending)
      modifies this
      ensures Outcome(View(), r)
           == Perform(config, Spec.Dispatch(config, old(View()), tlvs, o), o)
    {
      hide Spec.DispatchMessage, Spec.Fatal, Naks, Read, Spec.SendPacket, Spec.SendFragments;
      var unsupported := UnsupportedOf(tlvs);
      if unsupported == [] {
        r := DispatchMessage(Read(tlvs), o);
        return;
      }
      if Lookup(tlvs, Tlv.RESULT).Some? {
        r := Fatal(UNEXPECTED_TLVS, o);
        return;
      }
      var naks := Naks(unsupported);
      if naks.Err? {
        return Raised(naks.fault);
      }
      r := SendEncrypted(naks.value, o);
    }

    // ── The outer tunnel ──

    method TakeSeed(seed: Octets40)
      modifies `seed, `history
      ensures View() == Spec.Seeded(old(View()), seed)
    {
      this.seed := seed;
      Note(Up(seed, AlgOf(View())));
    }

    /** Notes a plaintext the tunnel gave; the source keeps no such record. */
    ghost method Hear(plaintext: bytes)
      modifies `inbox, `history
      ensures View() == Spec.Hear(old(View()), plaintext)
    {
      inbox := inbox + [plaintext];
      Note(Heard(plaintext));
    }

    /** The end of _tls_handshake_step once the tunnel is up. */
    method TunnelEstablished(outgoing: bytes, o: Oracle) returns (r: Ending)
      modifies this
      ensures Outcome(View(), r)
           == Perform(config, Spec.Established(config, old(View()), outgoing, o), o)
    {
      hide Spec.Dispatch, Spec.SendPacket, Spec.SendFragments, Tlv.Tlvs;
      if o.exportSeed.Err? {
        return Raised(o.exportSeed.fault);
      }
      TakeSeed(o.exportSeed.value);
      if outgoing != [] {
        r := SendClear(outgoing, o);
        return;
      }
      if o.pending.Err? {
        return Raised(o.pending.fault);
      }
      var early := o.pending.value;
      if early != [] {
        Hear(early);
        var tlvs := Tlv.DecodeTlvs(early);
        r := DispatchTlvs(tlvs, o);
      } else {
        r := SendClear([], o);
      }
    }

    /** The courtesy alert of _tls_handshake_step: whatever comes of it, the failure stands. */
    method RefuseCertificate(alert: bytes, o: Oracle) returns (r: Ending)
      modifies this
      ensures Outcome(View(), r)
           == Perform(config, Spec.CertificateRefused(old(View()), alert), o)
    {
      if alert != [] {
        var packet := Eap.EncodeTeap(eapId, 0, alert);
        if packet.Err? {
          return Raised(packet.fault);
        }
        var _ := RadiusExchange(packet.value, o.exchange(0));
      }
      return Raised(ServerCertificate);
    }

    method SetOuter(tunnel: Tunnel)
      modifies `outer
      ensures View() == old(View()).(outer := Some(tunnel))
    {
      outer := Some(tunnel);
    }

    /** _tls_handshake_step */
    method TlsHandshakeStep(tlsData: bytes, o: Oracle) returns (r: Ending)
      modifies this
      ensures Outcome(View(), r)
           == Perform(config, Spec.HandshakeStep(config, old(View()), tlsData, o), o)
    {
      hide Spec.Established, Spec.HandshakeGoesOn, Spec.CertificateRefused, Spec.SendPacket, Spec.SendFragments;
      if outer.None? {
        return Raised(LookupError);
      }
      var fed := o.outerFeed(tlsData);
      SetOuter(if fed.Continued? then fed.tunnel else Tunnel(false, false));
      match fed {
        case TlsBroken => return Raised(TlsError);
        case BadCertificate(alert) => r := RefuseCertificate(alert, o);
        case Continued(t, outgoing) =>
          if t.established {
            state := TunnelUp;
            r := TunnelEstablished(outgoing, o);
          } else {
            r := ContinueHandshake(outgoing, o);
          }
      }
    }

    method ContinueHandshake(outgoing: bytes, o: Oracle) returns (r: Ending)
      modifies this
      ensures Outcome(View(), r)
           == Perform(config, Spec.HandshakeGoesOn(old(View()), outgoing), o)
    {
      if outgoing != [] {
        r := SendFragmented(outgoing, o);
      } else {
        r := SendClear([], o);
      }
    }

    /** _handle_tunnel_data */
    method HandleTunnelData(ciphertext: bytes, o: Oracle) returns (r: Ending)
      modifies this
      ensures Outcome(View(), r)
           == Perform(config, Spec.TunnelData(config, old(View()), ciphertext, o), o)
    {
      hide Spec.Dispatch, Spec.SendPacket, Spec.SendFragments, Tlv.Tlvs;
      var plaintext := o.decrypt(ciphertext);
      if plaintext.Err? {
        return Raised(plaintext.fault);
      }
      if plaintext.value == [] {
        r := SendClear([], o);
        return;
      }
      Hear(plaintext.value);
      var tlvs := Tlv.DecodeTlvs(plaintext.value);
      r := DispatchTlvs(tlvs, o);
    }

    method BeginHandshake(authorityId: bytes)
      modifies `serverOuter, `state, `history
      ensures View() == Spec.Greeted(old(View()), authorityId)
    {
      serverOuter := if |authorityId| > 4 then authorityId[4..] else authorityId;
      state := TlsHandshake;
      Note(OuterTlvs(serverOuter));
    }

    /** _handle_teap_start */
    method HandleTeapStart(authorityId: bytes, o: Oracle) returns (r: Ending)
      modifies this
      ensures Outcome(View(), r)
           == Perform(config, Spec.Start(old(View()), authorityId, o), o)
    {
      hide Spec.Greeted, Spec.SendPacket, Spec.SendFragments;
      BeginHandshake(authorityId);
      if o.outerHello.Err? {
        return Raised(o.outerHello.fault);
      }
      outer := Some(Tunnel(false, false));
      var hello := o.outerHello.value;
      r := SendPacket(Eap.EncodeTeapWithLength(eapId, 0, |hello|, hello), o.exchange(0));
    }

    /** _handle_teap */
    method HandleTeap(payload: bytes, o: Oracle) returns (r: Ending)
      modifies this, assembler
      ensures Outcome(View(), r)
           == Perform(config, Spec.Teap(config, old(View()), payload, o), o)
    {
      hide Spec.Reassembled, Spec.Start, Eap.DecodeTeap, Spec.SendPacket, Spec.SendFragments;
      var decoded := Eap.DecodeTeap(payload);
      if decoded.Err? {
        return Raised(decoded.fault);
      }
      if decoded.value.start {
        r := HandleTeapStart(decoded.value.data, o);
        return;
      }
      var assembled := assembler.Feed(decoded.value);
      if assembler.NeedsAck() {
        r := SendClear([], o);
      } else {
        r := HandleReassembled(assembled, o);
      }
    }

    /** _handle_teap, with what the reassembler handed on. */
    method HandleReassembled(assembled: Option<bytes>, o: Oracle) returns (r: Ending)
      modifies this
      ensures Outcome(View(), r)
           == Perform(config, Spec.Reassembled(config, old(View()), assembled, o), o)
    {
      hide Spec.HandshakeStep, Spec.TunnelData, Spec.SendPacket, Spec.SendFragments;
      if assembled.None? {
        Fail();
        return Nothing;
      }
      if outer.None? || !outer.value.established {
        r := TlsHandshakeStep(assembled.value, o);
      } else {
        r := HandleTunnelData(assembled.value, o);
      }
    }

    // ── The main loop ──

    /** _accept_success */
    method AcceptSuccess()
      modifies this
      ensures Reaction(View(), Stop) == Spec.AcceptSuccess(old(View()))
    {
      state := if acknowledged then Done else Failed;
    }

    method SendIdentity(o: Oracle) returns (r: Ending)
      modifies this
      ensures Outcome(View(), r)
           == Perform(config, Reaction(old(View()), Action.SendIdentity), o)
    {
      r := SendPacket(Eap.EncodeIdentityResponse(eapId, config.outerIdentity), o.exchange(0));
    }

    /** The EAP packet of an Access-Challenge, in _process_response. */
    method HandleChallenge(p: Eap.EapPacket, o: Oracle) returns (r: Ending)
      modifies this, assembler
      ensures Outcome(View(), r) == Perform(config, Spec.Challenge(config, old(View()), p, o), o)
    {
      hide Spec.Teap, Spec.SendPacket, Spec.SendFragments;
      if p.code == Eap.SUCCESS {
        AcceptSuccess();
        return Nothing;
      }
      if p.code != Eap.REQUEST {
        Fail();
        return Nothing;
      }
      eapId := p.id;
      if p.kind == Some(Eap.IDENTITY) {
        r := SendIdentity(o);
        return;
      }
      if p.kind != Some(Eap.TEAP) {
        Fail();
        return Nothing;
      }
      r := HandleTeap(p.payload, o);
    }

    /** _process_response, past the decoding of the reply. */
    method HandleReply(code: byte, eapMessage: Option<bytes>, o: Oracle) returns (r: Ending)
      modifies this, assembler
      ensures Outcome(View(), r)
           == Perform(config, Spec.Answered(config, old(View()), code, eapMessage, o), o)
    {
      hide Spec.Challenge, Eap.DecodeEap, Spec.SendPacket, Spec.SendFragments;
      var hasEap := eapMessage.Some? && eapMessage.value != [];
      if code == Rad.ACCESS_ACCEPT || code == Rad.ACCESS_REJECT || code == Rad.ACCESS_CHALLENGE {
        if hasEap {
          var packet := Eap.DecodeEap(eapMessage.value);
          if packet.Err? {
            return Raised(packet.fault);
          }
          if code == Rad.ACCESS_CHALLENGE {
            r := HandleChallenge(packet.value, o);
            return;
          }
        }
      }
      if code == Rad.ACCESS_ACCEPT {
        AcceptSuccess();
      } else {
        Fail();
      }
      return Nothing;
    }

    /** _process_response */
    method ProcessResponse(reply: bytes, o: Oracle) returns (r: Ending)
      modifies this, assembler
      ensures Outcome(View(), r) == Spec.Step(config, old(View()), reply, o)
      ensures SessionSafety.Kept(config, old(View())) ==>
                && SessionSafety.Sound(config, View())
                && (r.Raised? || SessionSafety.Kept(config, View()))
      ensures config.retries >= 1 ==>
                SessionWire.Progressed(old(View()), Outcome(View(), r))
      ensures SessionWire.SentEchoing(config, old(View()), View(),
                SessionWire.OwedBy(config, Spec.React(config, old(View()), reply, o), o))
      ensures !Terminal(old(View())) ==>
                && (state == Done <==> Verdict.Accepts(config, old(View()), reply))
                && (Verdict.Refuses(config, old(View()), reply) ==> state == Failed && r.Nothing?)
    {
      hide Verdict.Accepts, Verdict.Refuses;
      hide Rad.Decoded, Spec.Answered, Spec.SendPacket, Spec.SendFragments;
      hide SessionSafety.Sound, SessionSafety.Kept, SessionWire.Progressed;
      hide SessionWire.SentEchoing, SessionWire.OwedBy;
      StepPromises(config, View(), reply, o);
      var resp := Rad.DecodeResponse(config.prims, reply, config.secret, authenticator);
      if resp.Err? {
        return Raised(resp.fault);
      }
      radiusState := resp.value.state;
      r := HandleReply(resp.value.code, resp.value.eapMessage, o);
    }

    /** run: whether it reports success. `os` holds the world's answers, one step each; running
        out of them is the overall timeout its caller enforces. */
    method Run(os: seq<Oracle>) returns (success: bool)
      requires View() == Spec.Initial(authenticator)
      modifies this, assembler
      ensures Report(success, View()) == Spec.Run(config, old(authenticator), os)
      ensures success ==> state == Done && SessionRuns.Earned(config, history)
      ensures SessionRuns.AllFrom(inbox, os)
      ensures success <==> Verdict.LastAccepts(config, Verdict.Turns(config, old(authenticator), os))
    {
      hide Spec.Step, Spec.Perform, SessionRuns.Earned, SessionRuns.AllFrom;
      hide Verdict.LastAccepts, Verdict.Turns;
      RunPromises(config, authenticator, os);
      if os == [] {
        return false;
      }
      var r := SendIdentity(os[0]);
      if !r.Reply? {
        return false;
      }
      var i := 1;
      ghost var whole := Spec.RunFrom(config, View(), r.data, os[1..]);
      while state != Done && state != Failed
        invariant 1 <= i <= |os| && r.Reply?
        invariant Spec.RunFrom(config, View(), r.data, os[i..]) == whole
        decreases |os| - i
      {
        if i == |os| {
          return false;
        }
        assert os[i..][0] == os[i] && os[i..][1..] == os[i + 1..];
        r := ProcessResponse(r.data, os[i]);
        if r.Raised? {
          return false;
        }
        if r.Nothing? {
          return state == Done;
        }
        i := i + 1;
      }
      return state == Done;
    }
  }
}
