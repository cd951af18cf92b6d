/** What the peer says in the tunnel, read back TLV by TLV: sections 3.6 and 4.2 of RFC 9930. The
    types, statuses and codes are written as the RFC numbers them. */
module Answers {
  import opened Bytes
  import opened Crypto
  import opened SessionSpec
  import Eap
  import Tlv
  import SessionRuns
  import SessionSafety

  // ── TLVs of the RFC ──

  const SUCCESSFUL := Tlv.Tlv(3, true, [0, 1])
  const FAILED := Tlv.Tlv(3, true, [0, 2])
  const METHOD_SUCCESSFUL := Tlv.Tlv(10, true, [0, 1])
  const METHOD_FAILED := Tlv.Tlv(10, true, [0, 2])

  function Binding(response: bytes): Tlv.Tlv { Tlv.Tlv(12, true, response) }

  function Identity(kind: nat): Tlv.Tlv
    requires kind < 0x1_0000
  {
    Tlv.Tlv(2, true, [kind / 0x100, kind % 0x100])
  }

  /** An EAP-Response in an EAP-Payload TLV. */
  function Response(id: byte, kind: byte, body: bytes): Tlv.Tlv
    requires 5 + |body| < 0x1_0000
  {
    Tlv.Tlv(9, true, [2, id, (5 + |body|) / 0x100, (5 + |body|) % 0x100, kind] + body)
  }

  function Error(code: nat): Tlv.Tlv
    requires code < 0x1_0000
  {
    Tlv.Tlv(5, true, [0, 0, code / 0x100, code % 0x100])
  }

  // ── Reading an answer ──

  /** What is said in the tunnel. */
  function Said(r: Reaction): seq<Tlv.Tlv> {
    if r.action.Encrypted? then Tlv.Tlvs(r.action.plaintext) else []
  }

  predicate Spells(p: bytes, ts: seq<Tlv.Tlv>) {
    Tlv.AllWellSized(ts) && p == Tlv.EncodeAll(ts)
  }

  lemma SpellsReads(p: bytes, ts: seq<Tlv.Tlv>)
    requires Spells(p, ts)
    ensures Tlv.Tlvs(p) == ts
  {
    Tlv.DecodeInvertsEncode(ts, []);
  }

  lemma SpellsNothing()
    ensures Spells([], [])
  {
  }

  lemma SpellsOne(t: Tlv.Tlv)
    requires Tlv.WellSized(t)
    ensures Spells(Tlv.Encoding(t), [t])
  {
    assert Tlv.EncodeFrom([t], 1) == [];
  }

  lemma {:induction false} EncodeBoth(ts: seq<Tlv.Tlv>, us: seq<Tlv.Tlv>, i: nat)
    requires Tlv.AllWellSized(ts) && Tlv.AllWellSized(us) && i <= |ts|
    ensures Tlv.AllWellSized(ts + us)
    ensures Tlv.EncodeFrom(ts + us, i) == Tlv.EncodeFrom(ts, i) + Tlv.EncodeFrom(us, 0)
    decreases |ts| - i
  {
    if i < |ts| {
      EncodeBoth(ts, us, i + 1);
      Assoc(Tlv.Encoding(ts[i]), Tlv.EncodeFrom(ts, i + 1), Tlv.EncodeFrom(us, 0));
    } else {
      EncodeSecond(ts, us, 0);
    }
  }

  lemma {:induction false} EncodeSecond(ts: seq<Tlv.Tlv>, us: seq<Tlv.Tlv>, j: nat)
    requires Tlv.AllWellSized(ts) && Tlv.AllWellSized(us) && j <= |us|
    ensures Tlv.AllWellSized(ts + us)
    ensures Tlv.EncodeFrom(ts + us, |ts| + j) == Tlv.EncodeFrom(us, j)
    decreases |us| - j
  {
    if j < |us| {
      EncodeSecond(ts, us, j + 1);
    }
  }

  lemma SpellsBoth(p: bytes, ts: seq<Tlv.Tlv>, q: bytes, us: seq<Tlv.Tlv>)
    requires Spells(p, ts) && Spells(q, us)
    ensures Spells(p + q, ts + us)
  {
    EncodeBoth(ts, us, 0);
  }

  // ── Builders ──

  lemma StatusSpells()
    ensures Spells(Tlv.ResultTlv(Tlv.SUCCESS), [SUCCESSFUL])
    ensures Spells(Tlv.ResultTlv(Tlv.FAILURE), [FAILED])
    ensures Spells(Tlv.IntermediateResultTlv(Tlv.SUCCESS), [METHOD_SUCCESSFUL])
    ensures Spells(Tlv.IntermediateResultTlv(Tlv.FAILURE), [METHOD_FAILED])
  {
    SpellsOne(SUCCESSFUL);
    SpellsOne(FAILED);
    SpellsOne(METHOD_SUCCESSFUL);
    SpellsOne(METHOD_FAILED);
  }

  lemma BindingSpells(response: bytes)
    requires |response| < 0x1_0000
    ensures Spells(BindingTlv(response), [Binding(response)])
  {
    SpellsOne(Binding(response));
  }

  lemma ErrorSpells(code: nat)
    requires code < 0x1_0000
    ensures Spells(Tlv.ErrorTlv(code), [Error(code)])
  {
    SpellsOne(Error(code));
    assert U32(code) == [0, 0, code / 0x100, code % 0x100];
  }

  lemma IdentitySpells(kind: nat)
    requires kind < 0x1_0000
    ensures Spells(Tlv.IdentityTypeTlv(kind), [Identity(kind)])
  {
    SpellsOne(Identity(kind));
  }

  // ── Failures ──

  lemma FatalSays(s: Protocol, code: nat)
    requires code < 0x1_0000
    ensures Said(Fatal(s, code)) == [FAILED, Error(code)] && Fatal(s, code).action.Encrypted?
  {
    hide Tlv.ResultTlv, Tlv.ErrorTlv, Spells;
    StatusSpells();
    ErrorSpells(code);
    SpellsBoth(Tlv.ResultTlv(Tlv.FAILURE), [FAILED], Tlv.ErrorTlv(code), [Error(code)]);
    SpellsReads(Tlv.ResultTlv(Tlv.FAILURE) + Tlv.ErrorTlv(code), [FAILED] + [Error(code)]);
  }

  lemma AnswerFailureSays(s: Protocol)
    ensures Said(AnswerFailure(s)) == [FAILED]
  {
    hide Tlv.ResultTlv, Spells;
    StatusSpells();
    SpellsReads(Tlv.ResultTlv(Tlv.FAILURE), [FAILED]);
  }

  // ── Results ──

  lemma LastAnsweredSays(b: Binding, success: bool)
    requires b.Bound? ==> |b.response| < 0x1_0000
    ensures Said(LastAnswered(b, success))
         == if b.Refused? then [FAILED, Error(2001)]
            else if !success then [FAILED]
            else [METHOD_SUCCESSFUL, Binding(b.response), SUCCESSFUL]
  {
    hide Tlv.ResultTlv, Tlv.IntermediateResultTlv, BindingTlv, Spells, Fatal, AnswerFailure;
    match b
    case Refused(s) => FatalSays(s, 2001);
    case Bound(s, response) =>
      AnswerFailureSays(s);
      StatusSpells();
      BindingSpells(response);
      var p, q := Tlv.IntermediateResultTlv(Tlv.SUCCESS), BindingTlv(response);
      SpellsBoth(p, [METHOD_SUCCESSFUL], q, [Binding(response)]);
      SpellsBoth(p + q, [METHOD_SUCCESSFUL] + [Binding(response)],
                 Tlv.ResultTlv(Tlv.SUCCESS), [SUCCESSFUL]);
      SpellsReads(p + q + Tlv.ResultTlv(Tlv.SUCCESS),
                  [METHOD_SUCCESSFUL] + [Binding(response)] + [SUCCESSFUL]);
  }

  lemma FinalAnsweredSays(b: Binding, success: bool)
    requires b.Bound? ==> |b.response| < 0x1_0000
    ensures Said(FinalAnswered(b, success))
         == if b.Refused? then [FAILED, Error(2001)]
            else if !success then [FAILED]
            else [SUCCESSFUL, Binding(b.response)]
  {
    hide Tlv.ResultTlv, BindingTlv, Spells, Fatal, AnswerFailure;
    match b
    case Refused(s) => FatalSays(s, 2001);
    case Bound(s, response) =>
      AnswerFailureSays(s);
      StatusSpells();
      BindingSpells(response);
      SpellsBoth(Tlv.ResultTlv(Tlv.SUCCESS), [SUCCESSFUL], BindingTlv(response), [Binding(response)]);
      SpellsReads(Tlv.ResultTlv(Tlv.SUCCESS) + BindingTlv(response), [SUCCESSFUL] + [Binding(response)]);
  }

  lemma LoneResultSays(s: Protocol, value: bytes)
    requires ReadU16(value).Ok?
    ensures Said(LoneResult(s, value))
         == if ReadU16(value).value != 1 then [FAILED]
            else if !s.bindingDone then [FAILED, Error(2002)]
            else [SUCCESSFUL]
  {
    hide Tlv.ResultTlv, Spells, Fatal, AnswerFailure;
    AnswerFailureSays(s);
    FatalSays(s, 2002);
    StatusSpells();
    SpellsReads(Tlv.ResultTlv(Tlv.SUCCESS), [SUCCESSFUL]);
  }

  lemma ResultAndPacSays(s: Protocol, m: Message)
    requires m.result.Some? && ReadU16(m.result.value).Ok?
    ensures Said(ResultAndPac(s, m))
         == if ReadU16(m.result.value).value != 1 then [FAILED] else [SUCCESSFUL]
  {
    hide Tlv.ResultTlv, Spells, AnswerFailure;
    AnswerFailureSays(s);
    StatusSpells();
    SpellsReads(Tlv.ResultTlv(Tlv.SUCCESS), [SUCCESSFUL]);
  }

  lemma IntermediateFailureSays(s: Protocol, m: Message)
    requires m.intermediate.Some? && ReadU16(m.intermediate.value).Ok?
    ensures Said(IntermediateFailure(s, m))
         == if ReadU16(m.intermediate.value).value == 1 then [FAILED, Error(2002)]
            else [METHOD_FAILED]
  {
    hide Tlv.IntermediateResultTlv, Spells, Fatal;
    FatalSays(s, 2002);
    StatusSpells();
    SpellsReads(Tlv.IntermediateResultTlv(Tlv.FAILURE), [METHOD_FAILED]);
  }

  // ── Inner methods ──

  lemma SendInnerEapSays(s: Protocol, kind: byte, body: bytes, extra: bytes, before: seq<Tlv.Tlv>)
    requires Spells(extra, before)
    ensures var r := SendInnerEap(s, kind, body, extra);
            if 5 + |body| < 0x1_0000 then
              r.action.Encrypted? && Said(r) == before + [Response(s.innerEapId, kind, body)]
            else r.action.Raise?
  {
    hide Spells, Tlv.AllWellSized;
    if 5 + |body| < 0x1_0000 {
      var inner := Eap.EncodeEap(Eap.RESPONSE, s.innerEapId, Some(kind), body).value;
      var t := Response(s.innerEapId, kind, body);
      assert inner == t.value;
      SpellsOne(t);
      SpellsBoth(extra, before, Tlv.Encoding(t), [t]);
      SpellsReads(extra + Tlv.Encoding(t), before + [t]);
    }
  }

  /** The identity that goes with an identity type, and its password: 2 is the machine's. */
  function NameOf(c: Config, idType: nat): bytes {
    if idType == 2 && c.machineIdentity != [] then c.machineIdentity else c.identity
  }

  function SecretOf(c: Config, idType: nat): bytes {
    if idType == 2 then c.machinePassword else c.password
  }

  /** An Identity request is answered with the identity; a method this identity has no credential
      for, with a NAK toward the one it has. */
  lemma IdentityOrNakSays(c: Config, s: Protocol, p: Eap.EapPacket, extra: bytes,
                          before: seq<Tlv.Tlv>, o: Oracle)
    requires Spells(extra, before) && |NameOf(c, s.identityType)| < 0xFF00
    ensures var r := InnerRequest(c, s, p, extra, o);
            var secret := SecretOf(c, s.identityType);
            && (p.kind == Some(1) ==>
                  Said(r) == before + [Response(s.innerEapId, 1, NameOf(c, s.identityType))])
            && (p.kind != Some(1) && p.kind != Some(13) && (p.kind == Some(26) ==> secret == []) ==>
                  Said(r) == before + [Response(s.innerEapId, 3, [if secret != [] then 26 else 13])])
  {
    hide InnerTls, InnerMschap, SendInnerEap, Said, Spells;
    var name, nak := NameOf(c, s.identityType), if SecretOf(c, s.identityType) != [] then 26 else 13;
    SendInnerEapSays(s.(state := InnerIdentity), 1, name, extra, before);
    SendInnerEapSays(s, 3, [nak], extra, before);
  }

  /** The TLS data owed to a record of the inner handshake: what the tunnel puts out, or its first
      flight when it puts out nothing at the start. */
  function TlsOwed(s: Protocol, record: bytes, o: Oracle): Option<bytes> {
    if s.inner.Some? && record == [] then Some([])
    else if s.inner.None? && (o.innerHello.Err? || record == []) then
      if o.innerHello.Ok? then Some(o.innerHello.value) else None
    else
      match o.innerFeed(record)
      case Continued(_, outgoing) =>
        Some(if s.inner.None? && outgoing == [] then o.innerHello.value else outgoing)
      case _ => None
  }

  lemma InnerTlsSays(c: Config, s: Protocol, payload: bytes, extra: bytes, before: seq<Tlv.Tlv>,
                     o: Oracle)
    requires Spells(extra, before)
    ensures var r, owed := InnerTls(c, s, payload, extra, o), TlsOwed(s, TlsData(payload), o);
            if owed.Some? && |owed.value| < 0xFF00 then
              r.action.Encrypted?
              && Said(r) == before + [Response(s.innerEapId, 13, [0] + owed.value)]
            else owed.None? ==> r.action.Raise?
  {
    hide SendInnerEap, Said, Spells, TlsData, InnerTlsOver;
    var owed, t := TlsOwed(s, TlsData(payload), o), InnerTls(c, s, payload, extra, o).s;
    if owed.Some? {
      InnerTlsSends(c, s, payload, extra, o);
      SendInnerEapSays(t, 13, [0] + owed.value, extra, before);
    }
  }

  lemma InnerTlsSends(c: Config, s: Protocol, payload: bytes, extra: bytes, o: Oracle)
    requires TlsOwed(s, TlsData(payload), o).Some?
    ensures var owed, r := TlsOwed(s, TlsData(payload), o).value, InnerTls(c, s, payload, extra, o);
            r == SendInnerEap(r.s, 13, [0] + owed, extra) && r.s.innerEapId == s.innerEapId
  {
    hide SendInnerEap, TlsData;
    assert [0] + [] == [0];
  }

  /** tls_data takes back the data of an EAP-TLS packet with or without a length, except that an
      empty one with a length reads as the length. */
  lemma TlsDataReads(flags: byte, total: nat, data: bytes)
    requires total < 0x1_0000_0000
    ensures flags < 0x80 ==> TlsData([flags] + data) == data
    ensures flags >= 0x80 && data != [] ==> TlsData([flags] + U32(total) + data) == data
    ensures flags >= 0x80 ==> TlsData([flags] + U32(total)) == U32(total)
  {
    assert ([flags] + data)[1..] == data;
    assert ([flags] + U32(total) + data)[5..] == data;
    assert ([flags] + U32(total))[1..] == U32(total);
  }

  /** Section 4 of RFC 2759: code 2, the challenge's identifier, the length, 49 octets of peer
      challenge, eight zeros, NT-Response and flags, and the name. The NT-Response is that of the
      two challenges, the name and the password. */
  lemma MschapChallengeSays(c: Config, s: Protocol, auth: Octets16, id: byte, name: bytes,
                            extra: bytes, before: seq<Tlv.Tlv>, o: Oracle)
    requires Spells(extra, before) && SecretOf(c, s.identityType) != []
    requires |NameOf(c, s.identityType)| < 0xFF00
    ensures var r := InnerMschap(c, s, [1, id, 0, 21 + |name| % 0x80, 16] + auth + name, extra, o);
            var user := NameOf(c, s.identityType);
            var nt := c.prims.ntResponse(auth, o.peerChallenge, user, SecretOf(c, s.identityType));
            var length := 54 + |user|;
            Said(r) == before + [Response(s.innerEapId, 26,
                                          [2, id, length / 0x100, length % 0x100, 49]
                                          + o.peerChallenge + Zeros(8) + nt + [0] + user)]
  {
    hide SendInnerEap, Said, Spells;
    var payload := [1, id, 0, 21 + |name| % 0x80, 16] + auth + name;
    assert Slice(payload, 5, 21) == auth;
    var m := MschapAnswer(c, s, auth, o.peerChallenge, id);
    var length := 54 + |m.username|;
    var body := [2, id, length / 0x100, length % 0x100, 49]
                + o.peerChallenge + Zeros(8) + m.ntResponse + [0] + m.username;
    MschapBodyIs(m, body);
    SendInnerEapSays(s.(mschap := Some(m)), 26, body, extra, before);
  }

  lemma MschapBodyIs(m: Mschap, body: bytes)
    requires |m.username| < 0xFF00
    requires var length := 54 + |m.username|;
             body == [2, m.id, length / 0x100, length % 0x100, 49]
                     + m.peerChallenge + Zeros(8) + m.ntResponse + [0] + m.username
    ensures MschapBody(m) == Ok(body)
  {
    var length, value := 54 + |m.username|, m.peerChallenge + Zeros(8) + m.ntResponse + [0];
    var head := [2, m.id, length / 0x100, length % 0x100, 49];
    assert [2, m.id] + U16(length) + [|value|] == head;
    assert head + value + m.username == body;
  }

  // ── Methods that succeed ──

  predicate ShowsAt(payload: bytes, proof: bytes, i: nat) {
    i + |proof| <= |payload| && payload[i..i + |proof|] == proof
  }

  /** The server's proof stands somewhere in its message, past the four octets of the header. */
  predicate Shows(payload: bytes, proof: bytes) {
    exists i :: 4 <= i <= |payload| && ShowsAt(payload, proof, i)
  }

  lemma ContainsShows(payload: bytes, proof: bytes)
    requires proof != []
    ensures Contains(Drop(payload, 4), proof) <==> Shows(payload, proof)
  {
    var text := Drop(payload, 4);
    if Contains(text, proof) {
      var i :| 0 <= i <= |text| && At(text, i, proof);
      assert payload[i + 4..i + 4 + |proof|] == proof;
      assert ShowsAt(payload, proof, i + 4);
    }
    if Shows(payload, proof) {
      var i :| 4 <= i <= |payload| && ShowsAt(payload, proof, i);
      forall k {:trigger proof[k]} | 0 <= k < |proof|
        ensures text[i - 4 + k] == proof[k]
      {
        assert payload[i..i + |proof|][k] == proof[k];
      }
      assert At(text, i - 4, proof);
    }
  }

  /** Section 5 of RFC 2759: MS-CHAPv2 succeeds, with a leg for the identity it was answered as and
      the session key for its MSK, exactly when the server shows the authenticator response to the
      challenge answered before; showing another fails the session. */
  lemma MschapSucceedsExactlyWhen(c: Config, s: Protocol, m: Mschap, rest: bytes, extra: bytes, o: Oracle)
    requires s.mschap == Some(m)
    ensures var r := InnerMschap(c, s, [3] + rest, extra, o);
            var proof := c.prims.authenticatorResponse(m.password, m.ntResponse, m.peerChallenge,
                                                       m.authChallenge, m.username);
            if Shows([3] + rest, proof) then
              && r.s.legs == s.legs + [Leg(s.identityType == 2, MsChapV2, m.username, false)]
              && r.s.innerMsk == c.prims.mschapSessionKey(m.password, m.ntResponse)
            else r == Reaction(s.(state := Failed), Stop)
  {
    hide SendInnerEap, Contains;
    ContainsShows([3] + rest, ExpectedOf(c, m));
  }

  /** A record fed to the inner tunnel makes EAP-TLS succeed exactly when the tunnel is up then:
      with a leg for the current identity, and the exported MSK or 64 zeros. */
  lemma TlsSucceedsExactlyWhen(c: Config, s: Protocol, payload: bytes, extra: bytes, o: Oracle)
    requires s.inner.Some? && TlsData(payload) != [] && o.innerFeed(TlsData(payload)).Continued?
    ensures var r, t := InnerTls(c, s, payload, extra, o).s, o.innerFeed(TlsData(payload)).tunnel;
            && r.inner == Some(t)
            && if t.established then
                 && r.legs == s.legs + [Leg(s.identityType == 2, EapTls, NameOf(c, s.identityType), false)]
                 && r.innerMsk == (if o.innerMsk.Some? then o.innerMsk.value else Zeros(64))
               else r.legs == s.legs && r.innerMsk == s.innerMsk
  {
    hide SendInnerEap, TlsData;
  }

  /** Whatever an inner packet asks, the answer adds at most one TLV to what goes before, an
      EAP-Payload. */
  predicate Adds(r: Reaction, before: seq<Tlv.Tlv>, kinds: set<nat>) {
    r.action.Encrypted? ==>
      before <= Said(r) && forall i :: |before| <= i < |Said(r)| ==> Said(r)[i].kind in kinds
  }

  lemma SendInnerEapAdds(s: Protocol, kind: byte, body: bytes, extra: bytes, before: seq<Tlv.Tlv>)
    requires Spells(extra, before)
    ensures Adds(SendInnerEap(s, kind, body, extra), before, {9})
  {
    hide SendInnerEap, Said, Spells;
    SendInnerEapSays(s, kind, body, extra, before);
  }

  lemma InnerTlsAdds(c: Config, s: Protocol, payload: bytes, extra: bytes, before: seq<Tlv.Tlv>,
                     o: Oracle)
    requires Spells(extra, before)
    ensures Adds(InnerTls(c, s, payload, extra, o), before, {9})
  {
    hide SendInnerEap, Said, Spells, TlsData, Adds, InnerTls;
    var owed, r := TlsOwed(s, TlsData(payload), o), InnerTls(c, s, payload, extra, o);
    if owed.Some? {
      InnerTlsSends(c, s, payload, extra, o);
      SendInnerEapAdds(r.s, 13, [0] + owed.value, extra, before);
    } else {
      InnerTlsSays(c, s, payload, extra, before, o);
      NothingAdded(r, before, {9});
    }
  }

  lemma NothingAdded(r: Reaction, before: seq<Tlv.Tlv>, kinds: set<nat>)
    requires !r.action.Encrypted?
    ensures Adds(r, before, kinds)
  {
  }

  lemma InnerMschapAdds(c: Config, s: Protocol, payload: bytes, extra: bytes, before: seq<Tlv.Tlv>,
                        o: Oracle)
    requires Spells(extra, before)
    ensures Adds(InnerMschap(c, s, payload, extra, o), before, {9})
  {
    hide SendInnerEap, Said, Spells, Adds, MschapBody;
    var r := InnerMschap(c, s, payload, extra, o);
    if !r.action.Encrypted? {
      NothingAdded(r, before, {9});
    } else if payload[0] == 1 {
      var m := r.s.mschap.value;
      SendInnerEapAdds(r.s, 26, MschapBody(m).value, extra, before);
    } else {
      SendInnerEapAdds(r.s, 26, [3], extra, before);
    }
  }

  lemma InnerRequestAdds(c: Config, s: Protocol, p: Eap.EapPacket, extra: bytes,
                         before: seq<Tlv.Tlv>, o: Oracle)
    requires Spells(extra, before)
    ensures Adds(InnerRequest(c, s, p, extra, o), before, {9})
  {
    hide InnerTls, InnerMschap, SendInnerEap, Said, Spells, Adds;
    var r := InnerRequest(c, s, p, extra, o);
    if p.kind == Some(1) {
      SendInnerEapAdds(s.(state := InnerIdentity), 1, InnerIdentityOf(c, s.identityType), extra, before);
    } else if p.kind == Some(13) {
      InnerTlsAdds(c, s, p.payload, extra, before, o);
    } else if p.kind == Some(26) && PasswordFor(c, s.identityType) != [] {
      InnerMschapAdds(c, s, p.payload, extra, before, o);
    } else {
      var want := if PasswordFor(c, s.identityType) != [] then 26 else 13;
      SendInnerEapAdds(s, 3, [want], extra, before);
    }
  }

  /** Inner success is answered with what is owed before it, or acknowledged if that is nothing;
      any packet but a Request or a Success fails the session. */
  lemma InnerSuccessSays(c: Config, s: Protocol, data: bytes, extra: bytes, before: seq<Tlv.Tlv>,
                         o: Oracle)
    requires Spells(extra, before) && Eap.DecodeEap(data).Ok?
    ensures var r, code := InnerEap(c, s, data, extra, o), Eap.DecodeEap(data).value.code;
            && (code == 3 && before == [] ==> r.action == Clear([]))
            && (code == 3 && before != [] ==> r.action.Encrypted? && Said(r) == before)
            && (code != 3 && code != 1 ==> r == Reaction(s.(state := Failed), Stop))
  {
    hide Spells, Eap.DecodeEap;
    SpellsReads(extra, before);
    NothingSpelled(extra, before);
  }

  lemma NothingSpelled(p: bytes, ts: seq<Tlv.Tlv>)
    requires Spells(p, ts)
    ensures p == [] <==> ts == []
  {
    if ts != [] {
      assert Tlv.EncodeAll(ts) == Tlv.Encoding(ts[0]) + Tlv.EncodeFrom(ts, 1);
    }
  }

  lemma InnerEapAdds(c: Config, s: Protocol, data: bytes, extra: bytes, before: seq<Tlv.Tlv>,
                     o: Oracle)
    requires Spells(extra, before)
    ensures Adds(InnerEap(c, s, data, extra, o), before, {9})
  {
    hide InnerRequest, Spells, Eap.DecodeEap;
    var p := Eap.DecodeEap(data);
    if p.Ok? && p.value.code == 1 {
      InnerRequestAdds(c, s.(innerEapId := p.value.id), p.value, extra, before, o);
    } else if p.Ok? && p.value.code == 3 {
      SpellsReads(extra, before);
    }
  }

  // ── Identities ──

  /** A certificate or a password for an identity type. */
  predicate Holds(c: Config, idType: nat) {
    if idType == 2 then c.hasMachineCert || c.machinePassword != []
    else c.hasClientCert || c.password != []
  }

  /** Section 4.2.3: the identity asked for if a credential is held for it, or the other one. */
  function Offered(c: Config, idType: nat): nat {
    if Holds(c, idType) then idType else if idType == 2 then 1 else 2
  }

  /** An Identity-Type request is answered with the identity offered, before anything that answers
      an inner packet beside it; with no credential at all the session fails without a word. */
  lemma IdentityTypeSays(c: Config, s: Protocol, value: bytes, eap: Option<bytes>, extra: bytes,
                         before: seq<Tlv.Tlv>, o: Oracle)
    requires Spells(extra, before) && ReadU16(value).Ok?
    ensures var r := IdentityType(c, s, value, eap, extra, o);
            var offered := Offered(c, ReadU16(value).value);
            && (!Holds(c, offered) ==> r.action.Stop? && r.s.state == Failed)
            && (Holds(c, offered) && offered in {1, 2} ==>
                  && Adds(r, before + [Identity(offered)], {9})
                  && (eap.None? ==>
                        r.action.Encrypted? && Said(r) == before + [Identity(offered)]
                        && r.s.identityType == offered))
            && (Holds(c, offered) && offered !in {1, 2} ==> r.action.Raise?)
  {
    hide InnerEap, Spells, Said, Adds;
    var offered := Offered(c, ReadU16(value).value);
    if Holds(c, offered) && offered in {1, 2} {
      var offer := extra + Tlv.IdentityTypeTlv(offered);
      IdentitySpells(offered);
      SpellsBoth(extra, before, Tlv.IdentityTypeTlv(offered), [Identity(offered)]);
      var s1 := Adopted(s.(identityType := ReadU16(value).value), offered);
      if eap.Some? {
        InnerEapAdds(c, s1, eap.value, offer, before + [Identity(offered)], o);
      } else {
        JustSaid(s1, offer, before + [Identity(offered)]);
      }
    }
  }

  lemma JustSaid(s: Protocol, p: bytes, ts: seq<Tlv.Tlv>)
    requires Spells(p, ts)
    ensures Said(Reaction(s, Encrypted(p))) == ts
    ensures forall kinds :: Adds(Reaction(s, Encrypted(p)), ts, kinds)
  {
    SpellsReads(p, ts);
  }

  lemma IdentityTypeAdds(c: Config, s: Protocol, value: bytes, eap: Option<bytes>, extra: bytes,
                         before: seq<Tlv.Tlv>, o: Oracle)
    requires Spells(extra, before)
    ensures Adds(IdentityType(c, s, value, eap, extra, o), before, {2, 9})
  {
    hide Spells, IdentityType;
    if ReadU16(value).Ok? {
      IdentityTypeSays(c, s, value, eap, extra, before, o);
    } else {
      UnreadIdentity(c, s, value, eap, extra, o);
    }
  }

  lemma UnreadIdentity(c: Config, s: Protocol, value: bytes, eap: Option<bytes>, extra: bytes,
                       o: Oracle)
    requires ReadU16(value).Err?
    ensures IdentityType(c, s, value, eap, extra, o).action.Raise?
  {
  }

  // ── Bindings ──

  /** A verified binding is answered first, then the identity or inner packet beside it. */
  lemma BindingAnsweredSays(c: Config, b: SessionSpec.Binding, m: Message, o: Oracle)
    requires b.Bound? ==> |b.response| < 0x1_0000
    ensures var r := BindingAnswered(c, b, m, o);
            if b.Refused? then Said(r) == [FAILED, Error(2001)] && r.s.state == Failed
            else
              var first := [Binding(b.response), METHOD_SUCCESSFUL];
              && Adds(r, first, {2, 9})
              && (m.identityType.None? && m.eap.None? ==> r.action.Encrypted? && Said(r) == first)
  {
    hide IdentityType, InnerEap, Spells, Said, Adds, BindingTlv, Tlv.IntermediateResultTlv, Fatal;
    match b
    case Refused(s) =>
      FatalSays(s, 2001);
      FatalFails(s, 2001);
    case Bound(s, response) =>
      var p, q := BindingTlv(response), Tlv.IntermediateResultTlv(Tlv.SUCCESS);
      var first := [Binding(response)] + [METHOD_SUCCESSFUL];
      assert first == [Binding(response), METHOD_SUCCESSFUL];
      StatusSpells();
      BindingSpells(response);
      SpellsBoth(p, [Binding(response)], q, [METHOD_SUCCESSFUL]);
      if m.identityType.Some? {
        IdentityTypeAdds(c, s, m.identityType.value, m.eap, p + q, first, o);
      } else if m.eap.Some? {
        InnerEapAdds(c, s, m.eap.value, p + q, first, o);
        AddsMore(InnerEap(c, s, m.eap.value, p + q, o), first);
      } else {
        JustSaid(s.(state := CryptoBinding), p + q, first);
      }
  }

  lemma FatalFails(s: Protocol, code: nat)
    requires code < 0x1_0000
    ensures Fatal(s, code).s.state == Failed
  {
  }

  lemma AddsMore(r: Reaction, before: seq<Tlv.Tlv>)
    requires Adds(r, before, {9})
    ensures Adds(r, before, {2, 9})
  {
  }

  // ── Messages ──

  /** An answer known in full, or up to what answers an identity or inner packet. */
  datatype Answer = Exactly(said: seq<Tlv.Tlv>) | Begins(said: seq<Tlv.Tlv>)

  predicate Says(r: Reaction, a: Answer) {
    match a
    case Exactly(said) => Said(r) == said
    case Begins(said) => Adds(r, said, {2, 9})
  }

  predicate Readable(value: Option<bytes>) { value.Some? ==> ReadU16(value.value).Ok? }

  predicate Successful(value: Option<bytes>) {
    value.Some? && ReadU16(value.value).Ok? && ReadU16(value.value).value == 1
  }

  /** The message's Crypto-Binding is acted on: beside no Result with a PAC, statuses that read,
      and no failed method without a final Result. */
  predicate Consulted(m: Message) {
    && m.binding.Some? && !(m.result.Some? && m.pac.Some?)
    && Readable(m.intermediate) && Readable(m.result)
    && (m.result.None? && m.intermediate.Some? ==> Successful(m.intermediate))
  }

  /** A Result that no other TLV of the message is taken before. */
  predicate Lone(m: Message) {
    && m.result.Some? && m.pac.None? && m.binding.None? && m.identityType.None? && m.eap.None?
  }

  /** What a message is owed in answer. */
  function Owed(c: Config, s: Protocol, m: Message, o: Oracle): Answer {
    if m.result.Some? && m.pac.Some? then
      Exactly(if !Readable(m.result) then [] else [if Successful(m.result) then SUCCESSFUL else FAILED])
    else if Consulted(m) then
      match Bind(c, s, m.binding.value, o)
      case Refused(_) => Exactly([FAILED, Error(2001)])
      case Bound(_, response) =>
        if m.result.None? then Begins([Binding(response), METHOD_SUCCESSFUL])
        else if !Successful(m.result) then Exactly([FAILED])
        else if m.intermediate.None? then Exactly([SUCCESSFUL, Binding(response)])
        else if !Successful(m.intermediate) then Exactly([FAILED])
        else Exactly([METHOD_SUCCESSFUL, Binding(response), SUCCESSFUL])
    else if m.binding.Some? then
      Exactly(if Readable(m.intermediate) && Readable(m.result) then [FAILED, Error(2002)] else [])
    else if m.intermediate.Some? && m.result.None? then
      Exactly(if Successful(m.intermediate) then [FAILED, Error(2002)]
              else if Readable(m.intermediate) then [METHOD_FAILED] else [])
    else if Lone(m) then
      Exactly(if !Readable(m.result) then []
              else if !Successful(m.result) then [FAILED]
              else if s.bindingDone then [SUCCESSFUL] else [FAILED, Error(2002)])
    else Begins([])
  }

  /** Sections 3.6 and 4.2: every message is answered as owed. */
  lemma MessageAnswered(c: Config, s: Protocol, m: Message, o: Oracle)
    ensures Says(DispatchMessage(c, s, m, o), Owed(c, s, m, o))
  {
    hide Bind, IdentityType, InnerEap, LastAnswered, FinalAnswered, BindingAnswered, LoneResult;
    hide ResultAndPac, IntermediateFailure, Fatal, Said, Spells, Adds;
    if m.binding.Some? && !(m.result.Some? && m.pac.Some?) {
      BindingMessageAnswered(c, s, m, o);
    } else {
      OtherMessageAnswered(c, s, m, o);
    }
  }

  lemma BindingMessageAnswered(c: Config, s: Protocol, m: Message, o: Oracle)
    requires m.binding.Some? && !(m.result.Some? && m.pac.Some?)
    ensures Says(DispatchMessage(c, s, m, o), Owed(c, s, m, o))
  {
    hide Bind, LastAnswered, FinalAnswered, BindingAnswered, Fatal, Adds;
    var b := Bind(c, s, m.binding.value, o);
    if Consulted(m) && m.result.Some? {
      var success := Successful(m.result);
      LastAnsweredSays(b, Successful(m.intermediate) && success);
      FinalAnsweredSays(b, success);
    } else if Consulted(m) {
      BindingAnsweredSays(c, b, m, o);
    } else {
      FatalSays(s, 2002);
    }
  }

  lemma OtherMessageAnswered(c: Config, s: Protocol, m: Message, o: Oracle)
    requires m.binding.None? || (m.result.Some? && m.pac.Some?)
    ensures Says(DispatchMessage(c, s, m, o), Owed(c, s, m, o))
  {
    hide IdentityType, InnerEap, LoneResult, ResultAndPac, IntermediateFailure;
    if m.result.Some? && m.pac.Some? {
      if Readable(m.result) {
        ResultAndPacSays(s, m);
      } else {
        UnreadStatus(s, m);
      }
    } else if m.intermediate.Some? && m.result.None? {
      if Readable(m.intermediate) {
        IntermediateFailureSays(s, m);
      } else {
        UnreadStatus(s, m);
      }
    } else if m.identityType.Some? {
      SpellsNothing();
      IdentityTypeAdds(c, s, m.identityType.value, m.eap, [], [], o);
    } else if m.eap.Some? {
      SpellsNothing();
      InnerEapAdds(c, s, m.eap.value, [], [], o);
    } else if m.result.Some? {
      if Readable(m.result) {
        LoneResultSays(s, m.result.value);
      } else {
        UnreadStatus(s, m);
      }
    }
  }

  /** A status that does not read raises, and nothing is said. */
  lemma UnreadStatus(s: Protocol, m: Message)
    ensures m.result.Some? && !Readable(m.result) ==>
              Said(ResultAndPac(s, m)) == [] && Said(LoneResult(s, m.result.value)) == []
    ensures m.intermediate.Some? && !Readable(m.intermediate) ==> Said(IntermediateFailure(s, m)) == []
  {
  }

  /** A message that makes the peer acknowledge the Result is answered with Result(Success), with
      the Binding Response exactly when it had a Crypto-Binding, and with
      Intermediate-Result(Success) exactly when it had one beside that binding. */
  lemma AcknowledgementSays(c: Config, s: Protocol, m: Message, o: Oracle)
    requires !s.acknowledged && DispatchMessage(c, s, m, o).s.acknowledged
    ensures Said(DispatchMessage(c, s, m, o))
         == if m.binding.None? then [SUCCESSFUL]
            else
              var b := Binding(Bind(c, s, m.binding.value, o).response);
              if m.intermediate.None? then [SUCCESSFUL, b] else [METHOD_SUCCESSFUL, b, SUCCESSFUL]
  {
    hide DispatchMessage, Bind, Said;
    SessionRuns.AcknowledgesExactlyWhen(c, s, m, o);
    MessageAnswered(c, s, m, o);
  }

  /** What an answer can hold: what is owed and, if that is the beginning, more of two types. */
  lemma InAnswer(r: Reaction, a: Answer, t: Tlv.Tlv)
    requires Says(r, a)
    ensures a.Exactly? ==> (t in Said(r) <==> t in a.said)
    ensures a.Begins? && t in Said(r) ==> t in a.said || t.kind in {2, 9}
  {
    if a.Begins? && t in Said(r) {
      var i :| 0 <= i < |Said(r)| && Said(r)[i] == t;
      if i < |a.said| {
        assert a.said[i] == t;
      }
    }
  }

  /** The peer says Result(Success) exactly when it acknowledges the Result, or a PAC. */
  lemma SuccessSaidExactlyWhen(c: Config, s: Protocol, m: Message, o: Oracle)
    ensures SUCCESSFUL in Said(DispatchMessage(c, s, m, o))
       <==> SessionRuns.EarnsAcknowledgement(c, s, m, o) || (m.pac.Some? && Successful(m.result))
  {
    hide DispatchMessage, Bind, Says;
    MessageAnswered(c, s, m, o);
    InAnswer(DispatchMessage(c, s, m, o), Owed(c, s, m, o), SUCCESSFUL);
  }

  /** Types that nothing fits in this message: a Crypto-Binding beside a failed method, a
      successful one without a Crypto-Binding, or a Result(Success) before any. */
  predicate Unexpected(s: Protocol, m: Message) {
    !(m.result.Some? && m.pac.Some?)
    && if m.binding.Some? then
         !Consulted(m) && Readable(m.intermediate) && Readable(m.result)
       else if m.result.None? then Successful(m.intermediate)
       else Lone(m) && Successful(m.result) && !s.bindingDone
  }

  /** Errors are Tunnel-Compromise for a binding that does not verify, and
      Unexpected-TLVs-Exchanged for TLVs that do not fit together; no other is ever said. */
  lemma ErrorSaidExactlyWhen(c: Config, s: Protocol, m: Message, o: Oracle)
    ensures var said := Said(DispatchMessage(c, s, m, o));
            && (Error(2001) in said <==> Consulted(m) && Bind(c, s, m.binding.value, o).Refused?)
            && (Error(2002) in said <==> Unexpected(s, m))
            && (forall t :: t in said && t.kind == 5 ==> t == Error(2001) || t == Error(2002))
  {
    hide DispatchMessage, Bind, Says, Owed, Consulted, Unexpected;
    MessageAnswered(c, s, m, o);
    var r, a := DispatchMessage(c, s, m, o), Owed(c, s, m, o);
    InAnswer(r, a, Error(2001));
    InAnswer(r, a, Error(2002));
    TwoErrorsOwed(c, s, m, o);
    forall t | t in Said(r) && t.kind == 5
      ensures t == Error(2001) || t == Error(2002)
    {
      InAnswer(r, a, t);
    }
  }

  lemma TwoErrorsOwed(c: Config, s: Protocol, m: Message, o: Oracle)
    ensures forall t :: t in Owed(c, s, m, o).said && t.kind == 5 ==> t == Error(2001) || t == Error(2002)
    ensures Error(2001) in Owed(c, s, m, o).said
       <==> Consulted(m) && Bind(c, s, m.binding.value, o).Refused?
    ensures Error(2002) in Owed(c, s, m, o).said <==> Unexpected(s, m)
    ensures Owed(c, s, m, o).Begins? ==>
              Error(2001) !in Owed(c, s, m, o).said && Error(2002) !in Owed(c, s, m, o).said
  {
    hide Bind;
    if m.binding.Some? && !(m.result.Some? && m.pac.Some?) {
    } else if m.intermediate.Some? && m.result.None? {
    } else if Lone(m) {
    }
  }

  /** The peer says Result(Failure) exactly when this message fails the session and an answer is
      sent at all; it then says at most an Error besides. */
  lemma FailureSaidExactlyWhen(c: Config, s: Protocol, m: Message, o: Oracle)
    requires s.state != Failed
    ensures var r := DispatchMessage(c, s, m, o);
            && (FAILED in Said(r) <==> r.s.state == Failed && r.action.Encrypted?)
            && (FAILED in Said(r) ==> Said(r)[0] == FAILED && |Said(r)| <= 2)
            && (r.s.state == Failed && !r.action.Encrypted? ==> r.action.Stop?)
  {
    hide DispatchMessage, Bind;
    MessageAnswered(c, s, m, o);
    InAnswer(DispatchMessage(c, s, m, o), Owed(c, s, m, o), FAILED);
    FailsAsOwed(c, s, m, o);
  }

  /** A handler that fails the session without an answer. */
  predicate SilentFailure(s: Protocol, r: Reaction) {
    r.s.state == Failed && s.state != Failed ==> r.action.Stop?
  }

  lemma InnerTlsFails(c: Config, s: Protocol, payload: bytes, extra: bytes, o: Oracle)
    ensures SilentFailure(s, InnerTls(c, s, payload, extra, o))
  {
    hide SendInnerEap, TlsData;
  }

  lemma MschapChallengeFails(c: Config, s: Protocol, payload: bytes, extra: bytes, o: Oracle)
    requires payload != []
    ensures SilentFailure(s, MschapChallenge(c, s, payload, extra, o))
  {
    hide SendInnerEap, MschapBody, MschapAnswer;
  }

  lemma MschapSuccessFails(c: Config, s: Protocol, payload: bytes, extra: bytes)
    ensures SilentFailure(s, MschapSuccess(c, s, payload, extra))
  {
    hide SendInnerEap, ExpectedOf, Contains;
  }

  lemma InnerMschapFails(c: Config, s: Protocol, payload: bytes, extra: bytes, o: Oracle)
    ensures SilentFailure(s, InnerMschap(c, s, payload, extra, o))
  {
    hide MschapChallenge, MschapSuccess;
    if payload != [] {
      MschapChallengeFails(c, s, payload, extra, o);
      MschapSuccessFails(c, s, payload, extra);
    }
  }

  lemma InnerEapFails(c: Config, s: Protocol, data: bytes, extra: bytes, o: Oracle)
    ensures SilentFailure(s, InnerEap(c, s, data, extra, o))
  {
    hide InnerTls, InnerMschap, SendInnerEap, Eap.DecodeEap;
    var p := Eap.DecodeEap(data);
    if p.Ok? {
      InnerTlsFails(c, s.(innerEapId := p.value.id), p.value.payload, extra, o);
      InnerMschapFails(c, s.(innerEapId := p.value.id), p.value.payload, extra, o);
    }
  }

  lemma IdentityTypeFails(c: Config, s: Protocol, value: bytes, eap: Option<bytes>, extra: bytes,
                          o: Oracle)
    requires s.state != Failed
    ensures SilentFailure(s, IdentityType(c, s, value, eap, extra, o))
  {
    hide InnerEap;
    if ReadU16(value).Ok? && eap.Some? {
      var idType := ReadU16(value).value;
      var offered := Offered(c, idType);
      if offered in {1, 2} {
        InnerEapFails(c, Adopted(s.(identityType := idType), offered), eap.value,
                      extra + Tlv.IdentityTypeTlv(offered), o);
      }
    }
  }

  lemma BindingAnsweredFails(c: Config, b: SessionSpec.Binding, m: Message, o: Oracle)
    requires b.Bound? && b.s.state != Failed && |b.response| < 0x1_0000
    ensures SilentFailure(b.s, BindingAnswered(c, b, m, o))
  {
    hide IdentityType, InnerEap;
    var reply := BindingTlv(b.response) + Tlv.IntermediateResultTlv(Tlv.SUCCESS);
    if m.identityType.Some? {
      IdentityTypeFails(c, b.s, m.identityType.value, m.eap, reply, o);
    } else if m.eap.Some? {
      InnerEapFails(c, b.s, m.eap.value, reply, o);
    }
  }

  /** The state is Failed exactly where Result(Failure) is owed, but for a silent failure. */
  lemma FailsAsOwed(c: Config, s: Protocol, m: Message, o: Oracle)
    requires s.state != Failed
    ensures var r, a := DispatchMessage(c, s, m, o), Owed(c, s, m, o);
            && (a.Exactly? ==> (r.s.state == Failed <==> FAILED in a.said))
            && (a.Exactly? && a.said != [] ==> r.action.Encrypted?)
            && (a.Begins? ==> SilentFailure(s, r))
  {
    hide Bind, IdentityType, InnerEap, BindingAnswered, LastAnswered, FinalAnswered;
    if m.binding.Some? && !(m.result.Some? && m.pac.Some?) {
      BindingFailsAsOwed(c, s, m, o);
    } else if m.identityType.Some? {
      IdentityTypeFails(c, s, m.identityType.value, m.eap, [], o);
    } else if m.eap.Some? {
      InnerEapFails(c, s, m.eap.value, [], o);
    }
  }

  lemma BindingFailsAsOwed(c: Config, s: Protocol, m: Message, o: Oracle)
    requires s.state != Failed && m.binding.Some? && !(m.result.Some? && m.pac.Some?)
    ensures var r, a := DispatchMessage(c, s, m, o), Owed(c, s, m, o);
            && (a.Exactly? ==> (r.s.state == Failed <==> FAILED in a.said))
            && (a.Exactly? && a.said != [] ==> r.action.Encrypted?)
            && (a.Begins? ==> SilentFailure(s, r))
  {
    hide Bind, BindingAnswered, LastAnswered, FinalAnswered;
    var b := Bind(c, s, m.binding.value, o);
    if Consulted(m) && m.result.Some? {
      ResultFails(b, Successful(m.intermediate) && Successful(m.result));
      ResultFails(b, Successful(m.result));
    } else if Consulted(m) && b.Bound? {
      BindingAnsweredFails(c, b, m, o);
    } else if Consulted(m) {
      RefusedFails(c, b, m, o);
    }
  }

  lemma ResultFails(b: SessionSpec.Binding, success: bool)
    requires b.s.state != Failed && (b.Bound? ==> |b.response| < 0x1_0000)
    ensures var r := LastAnswered(b, success);
            r.action.Encrypted? && (r.s.state == Failed <==> b.Refused? || !success)
    ensures var r := FinalAnswered(b, success);
            r.action.Encrypted? && (r.s.state == Failed <==> b.Refused? || !success)
  {
  }

  lemma RefusedFails(c: Config, b: SessionSpec.Binding, m: Message, o: Oracle)
    requires b.Refused?
    ensures var r := BindingAnswered(c, b, m, o); r.action.Encrypted? && r.s.state == Failed
  {
  }

  // ── Unsupported TLVs ──

  /** Section 4.3: a mandatory TLV of a type that this peer does not support. */
  predicate Foreign(t: Tlv.Tlv) { t.mandatory && t.kind !in {2, 3, 4, 5, 9, 10, 11, 12} }

  function ForeignOf(ts: seq<Tlv.Tlv>): seq<Tlv.Tlv> {
    if ts == [] then [] else (if Foreign(ts[0]) then [ts[0]] else []) + ForeignOf(ts[1..])
  }

  /** Section 4.2.5: the vendor, or zeros, and the type. */
  function Nak(t: Tlv.Tlv): Tlv.Tlv
    requires t.kind < 0x4000
  {
    var vendor := if t.kind == 7 && |t.value| >= 4 then t.value[..4] else [0, 0, 0, 0];
    Tlv.Tlv(4, true, vendor + [t.kind / 0x100, t.kind % 0x100])
  }

  function NaksOf(ts: seq<Tlv.Tlv>): seq<Tlv.Tlv>
    requires Tlv.AllWellSized(ts)
  {
    if ts == [] then [] else [Nak(ts[0])] + NaksOf(ts[1..])
  }

  lemma {:induction false} ForeignAreUnsupported(ts: seq<Tlv.Tlv>)
    requires Tlv.AllWellSized(ts)
    ensures ForeignOf(ts) == UnsupportedOf(ts) && Tlv.AllWellSized(ForeignOf(ts))
  {
    if ts != [] {
      ForeignAreUnsupported(ts[1..]);
    }
  }

  lemma VendorOctets(v: bytes)
    requires |v| >= 4
    ensures U32(GetU32(v, 0)) == v[..4]
  {
    var high, low := GetU16(v, 0), GetU16(v, 2);
    assert GetU32(v, 0) == high * 0x1_0000 + low;
    assert U32(high * 0x1_0000 + low) == U16(high) + U16(low);
    TwoOctets(v[0], v[1]);
    TwoOctets(v[2], v[3]);
    assert v[..4] == [v[0], v[1]] + [v[2], v[3]];
  }

  lemma TwoOctets(a: byte, b: byte)
    ensures U16(a as int * 0x100 + b as int) == [a, b]
  {
  }

  lemma {:induction false} NaksSpell(ts: seq<Tlv.Tlv>)
    requires Tlv.AllWellSized(ts)
    ensures Naks(ts).Ok? && Spells(Naks(ts).value, NaksOf(ts))
  {
    hide Spells, U32, GetU32;
    if ts == [] {
      SpellsNothing();
    } else {
      NaksSpell(ts[1..]);
      var t := ts[0];
      if t.kind == 7 && |t.value| >= 4 {
        VendorOctets(t.value);
      } else {
        assert U32(0) == [0, 0, 0, 0] by { ZeroOctets(); }
      }
      assert Tlv.WellSized(t);
      SpellsOne(Nak(t));
      SpellsBoth(Tlv.Encoding(Nak(t)), [Nak(t)], Naks(ts[1..]).value, NaksOf(ts[1..]));
    }
  }

  lemma ZeroOctets()
    ensures U32(0) == [0, 0, 0, 0]
  {
  }

  /** Sections 4.3 and 4.2.5: a plaintext with unsupported mandatory TLVs is answered with a NAK
      for each, in order, and the rest of it is ignored; beside a Result it is fatal. Any other is
      answered as its message is owed. */
  lemma PlaintextAnswered(c: Config, s: Protocol, plaintext: bytes, o: Oracle)
    ensures var tlvs := Tlv.Tlvs(plaintext);
            var r, foreign := Dispatch(c, s, tlvs, o), ForeignOf(tlvs);
            && Tlv.AllWellSized(foreign)
            && if foreign == [] then Says(r, Owed(c, s, SessionSpec.Read(tlvs), o))
               else if exists i :: 0 <= i < |tlvs| && tlvs[i].kind == 3 then
                 Said(r) == [FAILED, Error(2002)] && r.s.state == Failed
               else Said(r) == NaksOf(foreign) && r.s == s && r.action.Encrypted?
  {
    hide DispatchMessage, Owed, Fatal, Spells;
    var tlvs := Tlv.Tlvs(plaintext);
    Tlv.WalkConsumes(plaintext, 0);
    ForeignAreUnsupported(tlvs);
    LookupFinds(tlvs, 3);
    if ForeignOf(tlvs) == [] {
      MessageAnswered(c, s, SessionSpec.Read(tlvs), o);
    } else if Lookup(tlvs, 3).Some? {
      FatalSays(s, 2002);
      FatalFails(s, 2002);
    } else {
      NaksSpell(ForeignOf(tlvs));
      SpellsReads(Naks(ForeignOf(tlvs)).value, NaksOf(ForeignOf(tlvs)));
    }
  }

  /** What the dispatch sees of a plaintext: the last value of each of six types. */
  lemma MessageReads(ts: seq<Tlv.Tlv>)
    ensures var m := SessionSpec.Read(ts);
            && m.identityType == Lookup(ts, 2) && m.result == Lookup(ts, 3)
            && m.eap == Lookup(ts, 9) && m.intermediate == Lookup(ts, 10)
            && m.pac == Lookup(ts, 11) && m.binding == Lookup(ts, 12)
  {
  }

  /** The look-up answers exactly for the types there, with the last value of the type. */
  lemma {:induction false} LookupFinds(ts: seq<Tlv.Tlv>, kind: nat)
    ensures Lookup(ts, kind).Some? <==> exists i :: 0 <= i < |ts| && ts[i].kind == kind
    ensures Lookup(ts, kind).Some? ==>
              exists i :: 0 <= i < |ts| && ts[i].kind == kind && ts[i].value == Lookup(ts, kind).value
                          && forall j :: i < j < |ts| ==> ts[j].kind != kind
  {
    if ts != [] {
      var front, last := ts[..|ts| - 1], ts[|ts| - 1];
      LookupFinds(front, kind);
      if last.kind != kind && Lookup(front, kind).Some? {
        var i :| 0 <= i < |front| && front[i].kind == kind && front[i].value == Lookup(front, kind).value
                 && forall j :: i < j < |front| ==> front[j].kind != kind;
        assert ts[i] == front[i];
        assert forall j :: i < j < |ts| - 1 ==> ts[j] == front[j];
      }
      if exists i :: 0 <= i < |ts| && ts[i].kind == kind {
        var i :| 0 <= i < |ts| && ts[i].kind == kind;
        assert i < |front| ==> front[i].kind == kind;
      }
    }
  }
}
