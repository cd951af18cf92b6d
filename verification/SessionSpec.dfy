/** What one step of a TEAP session does, as functions of its state and of the answers the
    outside world gives: teap_tester/state_machine.py, inner_tls.py and inner_mschapv2.py.

    A handler is a reaction: the new state, and the one thing the source then does in tail
    position (send an encrypted or a clear reply, stop, or raise). Performing the action is a
    separate function. */
module SessionSpec {
  import opened Bytes
  import opened Crypto
  import Eap
  import Tlv
  import Rad = Radius
  import Authz = Authorization
  import CB = CryptoBinding

  // ── State ──

  datatype State = Init | TlsHandshake | TunnelUp | InnerIdentity | InnerTlsHandshake
                 | InnerTlsDone | CryptoBinding | ResultPac | Done | Failed

  /** A TLS tunnel: whether its handshake is over, and whether its cipher suite uses SHA-384. */
  datatype Tunnel = Tunnel(established: bool, sha384: bool)

  datatype Method = EapTls | MsChapV2

  datatype Leg = Leg(machine: bool, how: Method, identity: bytes, bound: bool)

  datatype Mschap = Mschap(authChallenge: bytes, peerChallenge: Octets16, ntResponse: Octets24,
                           username: bytes, password: bytes, id: byte)

  datatype Keys = Keys(sImck: bytes, sImckEmsk: bytes, cmk: bytes, emskCmk: bytes)

  /** Milestones of a run, oldest first: a TEAP/Start brought these outer TLVs; an outer tunnel
      came up with this session key seed and hash; it delivered this plaintext; an Identity-Type
      was settled, which drops any inner tunnel; an inner tunnel was opened; an inner method
      succeeded and gave this MSK; keys were derived from this seed, MSK and EMSK; a Binding
      Request was verified under these keys; the final Result was acknowledged. */
  datatype Event =
    | OuterTlvs(serverOuter: bytes)
    | Up(seed: bytes, alg: HashAlg)
    | Heard(plaintext: bytes)
    | IdentitySettled
    | InnerOpened
    | Ran(how: Method, msk: bytes)
    | Derived(alg: HashAlg, from: bytes, msk: bytes, emsk: Option<bytes>)
    | Verified(alg: HashAlg, cb: bytes, serverOuter: bytes, cmk: bytes, emskCmk: bytes)
    | Acknowledged

  datatype Protocol = Protocol(
    state: State, eapId: byte, radiusId: byte, radiusState: Option<bytes>,
    authenticator: Octets16, outer: Option<Tunnel>, inner: Option<Tunnel>,
    assembly: Eap.Assembly, seed: bytes, replyAttrs: Authz.Store, replyCode: nat,
    innerMsk: bytes, mschap: Option<Mschap>, keys: Keys, bindingDone: bool, rounds: nat,
    acknowledged: bool, innerEapId: byte, serverOuter: bytes, identityType: nat,
    legs: seq<Leg>, history: seq<Event>, inbox: seq<bytes>, wire: seq<Sending>)

  /** A request, and how many times it went out. */
  datatype Sending = Sending(packet: bytes, times: nat)

  predicate Terminal(s: Protocol) { s.state == Done || s.state == Failed }

  datatype Config = Config(
    prims: Primitives, secret: bytes, outerIdentity: bytes, identity: bytes,
    machineIdentity: bytes, password: bytes, machinePassword: bytes, hasClientCert: bool,
    hasMachineCert: bool, head: seq<Builtin>, tail: seq<Rad.Attr>, retries: nat)

  /** An attribute that a request always begins with: none of the types that are the exchange's. */
  type Builtin = a: Rad.Attr
    | a.kind != Rad.EAP_MESSAGE && a.kind != Rad.STATE && a.kind != Rad.MESSAGE_AUTHENTICATOR
    witness Rad.Attr(1, [])

  // ── The outside world ──

  /** What follows one transmission within its timeout: a datagram, nothing, or a socket error. */
  datatype Attempt = Got(data: bytes) | Silence | Broken

  /** One RADIUS exchange: the random authenticator drawn, whether a socket could be opened, and
      what followed each transmission. */
  datatype Exchanged = Exchanged(authenticator: Octets16, reachable: bool, attempts: nat -> Attempt)

  /** What feeding a TLS tunnel does. */
  datatype Feed = Continued(tunnel: Tunnel, outgoing: bytes) | BadCertificate(alert: bytes)
                | TlsBroken

  /** Every answer the world gives during one step. */
  datatype Oracle = Oracle(
    exchange: nat -> Exchanged,
    outerHello: Result<bytes>, outerFeed: bytes -> Feed, exportSeed: Result<Octets40>,
    pending: Result<bytes>, decrypt: bytes -> Result<bytes>, encrypt: bytes -> Result<bytes>,
    innerHello: Result<bytes>, innerFeed: bytes -> Feed, innerMsk: Option<Octets64>,
    innerEmsk: Option<Octets64>, peerChallenge: Octets16)

  datatype Action =
    | Encrypted(plaintext: bytes)
    | Clear(data: bytes)
    | Hello(hello: bytes)
    | SendIdentity
    | Fragmented(flight: bytes)
    | Alert(alert: bytes)
    | Stop
    | Raise(fault: Fault)

  datatype Reaction = Reaction(s: Protocol, action: Action)

  /** The states agree on what the next packet echoes and on what was sent. */
  predicate SameChannel(s: Protocol, t: Protocol) {
    && s.eapId == t.eapId && s.radiusState == t.radiusState && s.radiusId == t.radiusId
    && s.wire == t.wire
  }

  /** A reaction stops only in a terminal state, and never fragments an empty flight. */
  predicate WellActed(r: Reaction) {
    (r.action.Stop? ==> Terminal(r.s)) && (r.action.Fragmented? ==> r.action.flight != [])
  }

  /** What every handler's reaction keeps to: none of them ends the session with success. */
  predicate Speaks(s: Protocol, r: Reaction) {
    && SameChannel(s, r.s) && s.inbox == r.s.inbox && WellActed(r)
    && (r.s.state == Done ==> s.state == Done)
  }

  /** A plaintext the outer tunnel gave: with its last flight, or decrypted. */
  ghost predicate FromTunnel(o: Oracle, plaintext: bytes) {
    o.pending == Ok(plaintext) || exists c :: o.decrypt(c) == Ok(plaintext)
  }

  /** At most one plaintext was taken, and the tunnel gave it. */
  ghost predicate Takes(before: seq<bytes>, after: seq<bytes>, o: Oracle) {
    after == before
    || (|after| == |before| + 1 && before <= after && FromTunnel(o, after[|before|]))
  }

  /** What the handlers of the outer tunnel keep to. */
  ghost predicate Hears(s: Protocol, r: Reaction, o: Oracle) {
    && SameChannel(s, r.s) && Takes(s.inbox, r.s.inbox, o) && WellActed(r)
    && (r.s.state == Done ==> s.state == Done)
  }

  /** What every handler but those of a final Result keeps to. */
  predicate Quiet(s: Protocol, r: Reaction) {
    Speaks(s, r) && r.s.acknowledged == s.acknowledged
  }

  function Fail(s: Protocol): (r: Reaction)
    ensures Quiet(s, r)
  {
    Reaction(s.(state := Failed), Stop)
  }

  // ── Identities and credentials ──

  const USER := 1
  const MACHINE := 2

  function PasswordFor(c: Config, idType: nat): bytes {
    if idType == MACHINE then c.machinePassword else c.password
  }

  function InnerIdentityOf(c: Config, idType: nat): bytes {
    if idType == MACHINE && c.machineIdentity != [] then c.machineIdentity else c.identity
  }

  predicate HasCredential(c: Config, idType: nat) {
    if idType == MACHINE then c.hasMachineCert || c.machinePassword != []
    else c.hasClientCert || c.password != []
  }

  function RecordLeg(s: Protocol, how: Method, identity: bytes): Protocol {
    s.(legs := s.legs + [Leg(s.identityType == MACHINE, how, identity, false)])
  }

  /** A method that succeeded: its leg is recorded, and it gives an MSK. */
  function MethodOver(s: Protocol, how: Method, identity: bytes, msk: bytes): Protocol {
    RecordLeg(s, how, identity).(innerMsk := msk, history := s.history + [Ran(how, msk)])
  }

  function BindLast(legs: seq<Leg>): seq<Leg> {
    if legs == [] then [] else legs[|legs| - 1 := legs[|legs| - 1].(bound := true)]
  }

  // ── Crypto-Binding ──

  function AlgOf(s: Protocol): HashAlg {
    if s.outer.Some? && s.outer.value.sha384 then Sha384 else Sha256
  }

  /** Both chains start from S-IMCK[0], the session key seed. */
  function Started(k: Keys, seed: bytes): Keys {
    if k.sImck == [] then k.(sImck := Take(seed, 40), sImckEmsk := Take(seed, 40)) else k
  }

  function MskStep(mac: Mac, k: Keys, msk: bytes): Keys {
    var imck := CB.Imck(mac, k.sImck, Take(msk, 32));
    k.(sImck := imck[..40], cmk := imck[40..60])
  }

  function EmskStep(mac: Mac, k: Keys, emsk: Option<bytes>): Keys {
    match emsk
    case None => k.(emskCmk := [])
    case Some(e) =>
      var imck := CB.Imck(mac, k.sImckEmsk, CB.EmskImsk(mac, e));
      k.(sImckEmsk := imck[..40], emskCmk := imck[40..60])
  }

  /** The keys after one derivation. */
  function Advance(mac: Mac, k: Keys, seed: bytes, msk: bytes, emsk: Option<bytes>): Keys {
    EmskStep(mac, MskStep(mac, Started(k, seed), msk), emsk)
  }

  function EmskOf(s: Protocol, o: Oracle): Option<bytes> {
    if s.inner.Some? then o.innerEmsk else None
  }

  function DeriveKeys(c: Config, s: Protocol, o: Oracle): Protocol {
    var alg, emsk := AlgOf(s), EmskOf(s, o);
    s.(keys := Advance(c.prims.hmac(alg), s.keys, s.seed, s.innerMsk, emsk),
       history := s.history + [Derived(alg, s.seed, s.innerMsk, emsk)])
  }

  /** A binding with keys of its own to derive: the first, or one for a method not yet bound. */
  predicate NeedsKeys(s: Protocol) { |s.legs| > s.rounds || s.rounds == 0 }

  function Keyed(c: Config, s: Protocol, o: Oracle): Protocol {
    if NeedsKeys(s) then DeriveKeys(c, s, o).(rounds := s.rounds + 1) else s
  }

  datatype Binding = Bound(s: Protocol, response: bytes) | Refused(s: Protocol)

  /** Every Compound MAC of the request that can be checked with these keys verifies. */
  predicate MacsVerify(mac: Mac, cb: bytes, serverOuter: bytes, keys: Keys)
    requires 76 <= |cb|
  {
    var p := CB.Parse(cb).value;
    && (CB.HasMsk(p.flags) ==> CB.CompoundMac(mac, cb, keys.cmk, serverOuter, []) == p.mskMac)
    && (CB.HasEmsk(p.flags) && keys.emskCmk != [] ==>
          CB.CompoundMac(mac, cb, keys.emskCmk, serverOuter, []) == p.emskMac)
  }

  /** The Binding Response to a request whose Compound MACs verify. */
  function BindingResponse(mac: Mac, cb: bytes, serverOuter: bytes, keys: Keys)
    : (r: Option<bytes>)
    requires 76 <= |cb|
    ensures r.Some? ==> |r.value| == 76
  {
    if !MacsVerify(mac, cb, serverOuter, keys) then None
    else
      match CB.Response(mac, cb, keys.cmk, serverOuter, [], keys.emskCmk,
                        CB.HasMsk(CB.Parse(cb).value.flags))
      case Err(_) => None
      case Ok(response) => Some(response)
  }

  /** The state once a request has been verified. */
  function BoundBy(s: Protocol, alg: HashAlg, cb: bytes): Protocol {
    s.(bindingDone := true, legs := BindLast(s.legs),
       history := s.history + [Verified(alg, cb, s.serverOuter, s.keys.cmk, s.keys.emskCmk)])
  }

  /** _bind */
  function Bind(c: Config, s: Protocol, cb: bytes, o: Oracle): (b: Binding)
    ensures SameChannel(s, b.s) && b.s.inbox == s.inbox && b.s.acknowledged == s.acknowledged
    ensures b.s.state == s.state
    ensures b.Bound? ==> |b.response| == 76
  {
    if !CB.ValidRequest(cb) then Refused(s)
    else
      var alg, k := AlgOf(s), Keyed(c, s, o);
      match BindingResponse(c.prims.hmac(alg), cb, k.serverOuter, k.keys)
      case None => Refused(k)
      case Some(response) => Bound(BoundBy(k, alg, cb), response)
  }

  const TUNNEL_COMPROMISE := 2001
  const UNEXPECTED_TLVS := 2002

  /** _fatal: Result(Failure) with an Error TLV. */
  function Fatal(s: Protocol, code: nat): (r: Reaction)
    requires code < 0x1_0000_0000
    ensures Quiet(s, r)
  {
    Reaction(s.(state := Failed), Encrypted(Tlv.ResultTlv(Tlv.FAILURE) + Tlv.ErrorTlv(code)))
  }

  function AnswerFailure(s: Protocol): (r: Reaction)
    ensures Quiet(s, r)
  {
    Reaction(s.(state := Failed), Encrypted(Tlv.ResultTlv(Tlv.FAILURE)))
  }

  function Acknowledge(s: Protocol, plaintext: bytes): (r: Reaction)
    ensures Speaks(s, r)
  {
    Reaction(s.(acknowledged := true, history := s.history + [Acknowledged]),
             Encrypted(plaintext))
  }

  function BindingTlv(response: bytes): bytes
    requires |response| < 0x1_0000
  {
    Tlv.Encoding(Tlv.Tlv(Tlv.CRYPTO_BINDING, true, response))
  }

  // ── TLV messages ──

  /** tlv_map[kind]: the last value of that type. */
  function Lookup(tlvs: seq<Tlv.Tlv>, kind: nat): Option<bytes> {
    if tlvs == [] then None
    else
      var last := tlvs[|tlvs| - 1];
      if last.kind == kind then Some(last.value) else Lookup(tlvs[..|tlvs| - 1], kind)
  }

  /** The types Lookup answers, each asked for once. */
  datatype Message = Message(
    identityType: Option<bytes>, result: Option<bytes>, eap: Option<bytes>,
    intermediate: Option<bytes>, pac: Option<bytes>, binding: Option<bytes>)

  function Read(tlvs: seq<Tlv.Tlv>): Message {
    Message(Lookup(tlvs, Tlv.IDENTITY_TYPE), Lookup(tlvs, Tlv.RESULT),
            Lookup(tlvs, Tlv.EAP_PAYLOAD), Lookup(tlvs, Tlv.INTERMEDIATE_RESULT),
            Lookup(tlvs, Tlv.PAC), Lookup(tlvs, Tlv.CRYPTO_BINDING))
  }

  predicate Unsupported(t: Tlv.Tlv) {
    t.mandatory
    && t.kind !in {Tlv.IDENTITY_TYPE, Tlv.RESULT, Tlv.NAK, Tlv.ERROR, Tlv.EAP_PAYLOAD,
                   Tlv.INTERMEDIATE_RESULT, Tlv.PAC, Tlv.CRYPTO_BINDING}
  }

  function UnsupportedOf(tlvs: seq<Tlv.Tlv>): seq<Tlv.Tlv> {
    if tlvs == [] then []
    else (if Unsupported(tlvs[0]) then [tlvs[0]] else []) + UnsupportedOf(tlvs[1..])
  }

  /** The NAK TLVs answering a list of unsupported TLVs. */
  function Naks(tlvs: seq<Tlv.Tlv>): Result<bytes> {
    if tlvs == [] then Ok([])
    else if tlvs[0].kind >= 0x1_0000 then Err(PackError)
    else
      var v := tlvs[0].value;
      var vendor := if tlvs[0].kind == Tlv.VENDOR_SPECIFIC && |v| >= 4 then GetU32(v, 0) else 0;
      var rest :- Naks(tlvs[1..]);
      Ok(Tlv.NakTlv(tlvs[0].kind, vendor) + rest)
  }

  // ── Inner methods ──

  /** _send_inner_eap */
  function SendInnerEap(s: Protocol, kind: byte, body: bytes, extra: bytes): (r: Reaction)
    ensures r.s == s
    ensures Quiet(s, r)
  {
    match Eap.EncodeEap(Eap.RESPONSE, s.innerEapId, Some(kind), body)
    case Err(f) => Reaction(s, Raise(f))
    case Ok(inner) =>
      match Tlv.EapPayloadTlv(inner)
      case Err(f) => Reaction(s, Raise(f))
      case Ok(payload) => Reaction(s, Encrypted(extra + payload))
  }

  /** tls_data */
  function TlsData(payload: bytes): bytes {
    if |payload| <= 1 then []
    else if payload[0] >= 0x80 && |payload| > 5 then payload[5..]
    else payload[1..]
  }

  function InnerStarted(s: Protocol): Protocol {
    s.(inner := Some(Tunnel(false, false)), history := s.history + [InnerOpened])
  }

  /** _handle_inner_tls with no inner tunnel yet. */
  function InnerTlsStart(s: Protocol, body: bytes, extra: bytes, o: Oracle): (r: Reaction)
    ensures Quiet(s, r)
  {
    var s1 := s.(state := InnerTlsHandshake);
    match o.innerHello
    case Err(f) => Reaction(s1, Raise(f))
    case Ok(hello) =>
      var s2 := InnerStarted(s1);
      if body == [] then SendInnerEap(s2, Eap.TLS, [0] + hello, extra)
      else
        match o.innerFeed(body)
        case Continued(t, outgoing) =>
          SendInnerEap(s2.(inner := Some(t)), Eap.TLS,
                       [0] + (if outgoing != [] then outgoing else hello), extra)
        case BadCertificate(_) => Reaction(s2, Raise(ServerCertificate))
        case TlsBroken => Reaction(s2, Raise(TlsError))
  }

  /** _handle_inner_tls */
  function InnerTls(c: Config, s: Protocol, payload: bytes, extra: bytes, o: Oracle): (r: Reaction)
    ensures Quiet(s, r)
  {
    var body := TlsData(payload);
    if s.inner.None? then InnerTlsStart(s, body, extra, o)
    else if body == [] then SendInnerEap(s, Eap.TLS, [0], extra)
    else
      match o.innerFeed(body)
      case BadCertificate(_) =>
        Reaction(s.(inner := Some(Tunnel(false, false))), Raise(ServerCertificate))
      case TlsBroken => Reaction(s.(inner := Some(Tunnel(false, false))), Raise(TlsError))
      case Continued(t, outgoing) =>
        var s1 := s.(inner := Some(t));
        var s2 := if t.established then InnerTlsOver(c, s1, o) else s1;
        SendInnerEap(s2, Eap.TLS, [0] + outgoing, extra)
  }

  /** An inner handshake that is over: the leg ran, and its MSK is exported, or zeros. */
  function InnerTlsOver(c: Config, s: Protocol, o: Oracle): Protocol {
    MethodOver(s, EapTls, InnerIdentityOf(c, s.identityType),
               match o.innerMsk case Some(msk) => msk case None => Zeros(64))
    .(state := InnerTlsDone)
  }

  predicate Contains(text: bytes, part: bytes) {
    exists i :: 0 <= i <= |text| && At(text, i, part)
  }

  /** _answer_mschap_challenge */
  function MschapChallenge(c: Config, s: Protocol, payload: bytes, extra: bytes, o: Oracle)
    : (r: Reaction)
    requires payload != []
    ensures Quiet(s, r)
  {
    if |payload| < 5 then Fail(s)
    else
      var auth := Slice(payload, 5, 5 + (payload[4] as int));
      if |auth| != 16 then Fail(s)
      else if PasswordFor(c, s.identityType) == [] then Fail(s)
      else
        var m := MschapAnswer(c, s, auth, o.peerChallenge, payload[1]);
        var s1 := s.(mschap := Some(m));
        match MschapBody(m)
        case Err(f) => Reaction(s1, Raise(f))
        case Ok(body) => SendInnerEap(s1, Eap.MSCHAPV2, body, extra)
  }

  /** What is remembered of a challenge, to check the server's Success message against. */
  function MschapAnswer(c: Config, s: Protocol, auth: bytes, peer: Octets16, id: byte): Mschap {
    var user, password := InnerIdentityOf(c, s.identityType), PasswordFor(c, s.identityType);
    Mschap(auth, peer, c.prims.ntResponse(auth, peer, user, password), user, password, id)
  }

  /** The MS-CHAPv2 Response packet. */
  function MschapBody(m: Mschap): Result<bytes> {
    var value := m.peerChallenge + Zeros(8) + m.ntResponse + [0];
    if 5 + |value| + |m.username| >= 0x1_0000 then Err(PackError)
    else Ok([2, m.id] + U16(5 + |value| + |m.username|) + [|value|] + value + m.username)
  }

  /** What the server's Success message must hold. */
  function ExpectedOf(c: Config, m: Mschap): Octets42 {
    c.prims.authenticatorResponse(m.password, m.ntResponse, m.peerChallenge, m.authChallenge,
                                  m.username)
  }

  /** The server's Success message, checked against the challenge answered before, if any. */
  function MschapSuccess(c: Config, s: Protocol, payload: bytes, extra: bytes): (r: Reaction)
    ensures Quiet(s, r)
  {
    match s.mschap
    case None => SendInnerEap(s, Eap.MSCHAPV2, [3], extra)
    case Some(m) =>
      if !Contains(Drop(payload, 4), ExpectedOf(c, m)) then Fail(s)
      else
        var msk := c.prims.mschapSessionKey(m.password, m.ntResponse);
        var s1 := MethodOver(s, MsChapV2, m.username, msk);
        SendInnerEap(s1, Eap.MSCHAPV2, [3], extra)
  }

  /** _handle_inner_mschapv2 */
  function InnerMschap(c: Config, s: Protocol, payload: bytes, extra: bytes, o: Oracle): (r: Reaction)
    ensures Quiet(s, r)
  {
    if payload == [] then Fail(s)
    else if payload[0] == 1 then MschapChallenge(c, s, payload, extra, o)
    else if payload[0] == 3 then MschapSuccess(c, s, payload, extra)
    else Fail(s)
  }

  /** The inner method a request asks for, or a NAK toward the one this identity has. */
  function InnerRequest(c: Config, s: Protocol, p: Eap.EapPacket, extra: bytes, o: Oracle)
    : (r: Reaction)
    ensures Quiet(s, r)
  {
    if p.kind == Some(Eap.IDENTITY) then
      SendInnerEap(s.(state := InnerIdentity), Eap.IDENTITY, InnerIdentityOf(c, s.identityType), extra)
    else if p.kind == Some(Eap.TLS) then InnerTls(c, s, p.payload, extra, o)
    else if p.kind == Some(Eap.MSCHAPV2) && PasswordFor(c, s.identityType) != [] then
      InnerMschap(c, s, p.payload, extra, o)
    else
      SendInnerEap(s, Eap.NAK, [if PasswordFor(c, s.identityType) != [] then Eap.MSCHAPV2 else Eap.TLS], extra)
  }

  function InnerSuccess(s: Protocol, extra: bytes): (r: Reaction)
    ensures Quiet(s, r)
  {
    Reaction(s.(state := InnerTlsDone), if extra != [] then Encrypted(extra) else Clear([]))
  }

  /** _handle_inner_eap */
  function InnerEap(c: Config, s: Protocol, data: bytes, extra: bytes, o: Oracle): (r: Reaction)
    ensures Quiet(s, r)
  {
    match Eap.DecodeEap(data)
    case Err(f) => Reaction(s, Raise(f))
    case Ok(p) =>
      if p.code == Eap.SUCCESS then InnerSuccess(s, extra)
      else if p.code != Eap.REQUEST then Fail(s)
      else InnerRequest(c, s.(innerEapId := p.id), p, extra, o)
  }

  /** A settled identity starts its own inner method. */
  function Adopted(s: Protocol, idType: nat): Protocol {
    s.(identityType := idType, state := InnerIdentity, inner := None,
       history := s.history + [IdentitySettled])
  }

  /** What answers an Identity-Type once the identity is settled. */
  function AsIdentity(c: Config, s: Protocol, idType: nat, eap: Option<bytes>, extra: bytes,
                      o: Oracle): (r: Reaction)
    ensures Quiet(s, r)
  {
    var s1 := Adopted(s, idType);
    if idType != USER && idType != MACHINE then Reaction(s1, Raise(ValueError))
    else
      var offer := extra + Tlv.IdentityTypeTlv(idType);
      if eap.Some? then InnerEap(c, s1, eap.value, offer, o) else Reaction(s1, Encrypted(offer))
  }

  function Other(idType: nat): nat { if idType == MACHINE then USER else MACHINE }

  /** _handle_identity_type */
  function IdentityType(c: Config, s: Protocol, value: bytes, eap: Option<bytes>, extra: bytes,
                        o: Oracle): (r: Reaction)
    ensures Quiet(s, r)
  {
    match ReadU16(value)
    case Err(f) => Reaction(s, Raise(f))
    case Ok(idType) =>
      var s1 := s.(identityType := idType);
      if HasCredential(c, idType) then AsIdentity(c, s1, idType, eap, extra, o)
      else if !HasCredential(c, Other(idType)) then Fail(s1)
      else AsIdentity(c, s1, Other(idType), eap, extra, o)
  }

  // ── Results and bindings ──

  /** What a binding is answered with: a message may start the next method along with it. */
  function BindingAnswered(c: Config, b: Binding, m: Message, o: Oracle): (r: Reaction)
    requires b.Bound? ==> |b.response| < 0x1_0000
    ensures Quiet(b.s, r)
  {
    match b
    case Refused(s) => Fatal(s, TUNNEL_COMPROMISE)
    case Bound(s, response) =>
      var reply := BindingTlv(response) + Tlv.IntermediateResultTlv(Tlv.SUCCESS);
      if m.identityType.Some? then IdentityType(c, s, m.identityType.value, m.eap, reply, o)
      else if m.eap.Some? then InnerEap(c, s, m.eap.value, reply, o)
      else Reaction(s.(state := CryptoBinding), Encrypted(reply))
  }

  /** _handle_crypto_binding */
  function BindingAlone(c: Config, s: Protocol, m: Message, o: Oracle): (r: Reaction)
    requires m.binding.Some?
    ensures Quiet(s, r)
  {
    BindingAnswered(c, Bind(c, s, m.binding.value, o), m, o)
  }

  /** _handle_intermediate_result_crypto */
  function IntermediateAndBinding(c: Config, s: Protocol, m: Message, o: Oracle): (r: Reaction)
    requires m.binding.Some? && m.intermediate.Some?
    ensures Quiet(s, r)
  {
    match ReadU16(m.intermediate.value)
    case Err(f) => Reaction(s, Raise(f))
    case Ok(status) =>
      if status != Tlv.SUCCESS then Fatal(s, UNEXPECTED_TLVS) else BindingAlone(c, s, m, o)
  }

  /** A binding that came with an Intermediate-Result and the final Result. */
  function LastAnswered(b: Binding, success: bool): (r: Reaction)
    requires b.Bound? ==> |b.response| < 0x1_0000
    ensures Speaks(b.s, r)
  {
    match b
    case Refused(s) => Fatal(s, TUNNEL_COMPROMISE)
    case Bound(s, response) =>
      if !success then AnswerFailure(s)
      else Acknowledge(s, Tlv.IntermediateResultTlv(Tlv.SUCCESS) + BindingTlv(response)
                          + Tlv.ResultTlv(Tlv.SUCCESS))
  }

  /** _handle_last_binding_and_result */
  function LastBindingAndResult(c: Config, s: Protocol, m: Message, o: Oracle): (r: Reaction)
    requires m.binding.Some? && m.intermediate.Some? && m.result.Some?
    ensures Speaks(s, r)
  {
    match (ReadU16(m.intermediate.value), ReadU16(m.result.value))
    case (Ok(intermediate), Ok(result)) =>
      LastAnswered(Bind(c, s, m.binding.value, o),
                   intermediate == Tlv.SUCCESS && result == Tlv.SUCCESS)
    case _ => Reaction(s, Raise(PackError))
  }

  /** A binding that came with the final Result. */
  function FinalAnswered(b: Binding, success: bool): (r: Reaction)
    requires b.Bound? ==> |b.response| < 0x1_0000
    ensures Speaks(b.s, r)
  {
    match b
    case Refused(s) => Fatal(s, TUNNEL_COMPROMISE)
    case Bound(s, response) =>
      if !success then AnswerFailure(s)
      else Acknowledge(s, Tlv.ResultTlv(Tlv.SUCCESS) + BindingTlv(response))
  }

  /** _handle_final_result */
  function FinalResult(c: Config, s: Protocol, m: Message, o: Oracle): (r: Reaction)
    requires m.binding.Some? && m.result.Some?
    ensures Speaks(s, r)
  {
    match ReadU16(m.result.value)
    case Err(f) => Reaction(s, Raise(f))
    case Ok(result) => FinalAnswered(Bind(c, s, m.binding.value, o), result == Tlv.SUCCESS)
  }

  /** _handle_result_pac */
  function ResultAndPac(s: Protocol, m: Message): (r: Reaction)
    requires m.result.Some?
    ensures Quiet(s, r)
  {
    match ReadU16(m.result.value)
    case Err(f) => Reaction(s, Raise(f))
    case Ok(result) =>
      if result != Tlv.SUCCESS then AnswerFailure(s)
      else Reaction(s.(state := ResultPac), Encrypted(Tlv.ResultTlv(Tlv.SUCCESS)))
  }

  /** _handle_intermediate_failure */
  function IntermediateFailure(s: Protocol, m: Message): (r: Reaction)
    requires m.intermediate.Some?
    ensures Quiet(s, r)
  {
    match ReadU16(m.intermediate.value)
    case Err(f) => Reaction(s, Raise(f))
    case Ok(status) =>
      if status == Tlv.SUCCESS then Fatal(s, UNEXPECTED_TLVS)
      else Reaction(s, Encrypted(Tlv.IntermediateResultTlv(Tlv.FAILURE)))
  }

  /** A Result on its own, at the end of _dispatch_tlvs. */
  function LoneResult(s: Protocol, value: bytes): (r: Reaction)
    ensures Speaks(s, r)
  {
    match ReadU16(value)
    case Err(f) => Reaction(s, Raise(f))
    case Ok(result) =>
      if result != Tlv.SUCCESS then AnswerFailure(s)
      else if !s.bindingDone then Fatal(s, UNEXPECTED_TLVS)
      else Acknowledge(s, Tlv.ResultTlv(Tlv.SUCCESS))
  }

  /** _dispatch_tlvs, past the NAK of unsupported TLVs. */
  function DispatchMessage(c: Config, s: Protocol, m: Message, o: Oracle): (r: Reaction)
    ensures Speaks(s, r)
  {
    if m.result.Some? && m.pac.Some? then ResultAndPac(s, m)
    else if m.intermediate.Some? && m.result.Some? && m.binding.Some? then
      LastBindingAndResult(c, s, m, o)
    else if m.result.Some? && m.binding.Some? then FinalResult(c, s, m, o)
    else if m.intermediate.Some? && m.binding.Some? then IntermediateAndBinding(c, s, m, o)
    else if m.intermediate.Some? && m.result.None? then IntermediateFailure(s, m)
    else if m.binding.Some? then BindingAlone(c, s, m, o)
    else if m.identityType.Some? then IdentityType(c, s, m.identityType.value, m.eap, [], o)
    else if m.eap.Some? then InnerEap(c, s, m.eap.value, [], o)
    else if m.result.Some? then LoneResult(s, m.result.value)
    else Reaction(s, Clear([]))
  }

  /** _dispatch_tlvs */
  function Dispatch(c: Config, s: Protocol, tlvs: seq<Tlv.Tlv>, o: Oracle): (r: Reaction)
    ensures Speaks(s, r)
  {
    var unsupported := UnsupportedOf(tlvs);
    if unsupported == [] then DispatchMessage(c, s, Read(tlvs), o)
    else if Lookup(tlvs, Tlv.RESULT).Some? then Fatal(s, UNEXPECTED_TLVS)
    else
      match Naks(unsupported)
      case Err(f) => Reaction(s, Raise(f))
      case Ok(naks) => Reaction(s, Encrypted(naks))
  }

  // ── The outer tunnel ──

  function HandshakeGoesOn(s: Protocol, outgoing: bytes): (r: Reaction)
    ensures Speaks(s, r)
  {
    Reaction(s, if outgoing != [] then Fragmented(outgoing) else Clear([]))
  }

  function CertificateRefused(s: Protocol, alert: bytes): (r: Reaction)
    ensures Speaks(s, r)
  {
    Reaction(s, if alert != [] then Alert(alert) else Raise(ServerCertificate))
  }

  /** _tls_handshake_step */
  function HandshakeStep(c: Config, s: Protocol, data: bytes, o: Oracle): (r: Reaction)
    ensures Hears(s, r, o)
  {
    if s.outer.None? then Reaction(s, Raise(LookupError))
    else
      match o.outerFeed(data)
      case BadCertificate(alert) =>
        CertificateRefused(s.(outer := Some(Tunnel(false, false))), alert)
      case TlsBroken => Reaction(s.(outer := Some(Tunnel(false, false))), Raise(TlsError))
      case Continued(t, outgoing) =>
        var s1 := s.(outer := Some(t));
        if t.established then Established(c, s1.(state := TunnelUp), outgoing, o)
        else HandshakeGoesOn(s1, outgoing)
  }

  function Seeded(s: Protocol, seed: bytes): Protocol {
    s.(seed := seed, history := s.history + [Up(seed, AlgOf(s))])
  }

  function Hear(s: Protocol, plaintext: bytes): Protocol {
    s.(inbox := s.inbox + [plaintext], history := s.history + [Heard(plaintext)])
  }

  /** The handshake is over: take the session key seed, and answer TLVs that came with it. */
  function Established(c: Config, s: Protocol, outgoing: bytes, o: Oracle): (r: Reaction)
    ensures Hears(s, r, o)
  {
    match o.exportSeed
    case Err(f) => Reaction(s, Raise(f))
    case Ok(seed) =>
      var s1 := Seeded(s, seed);
      if outgoing != [] then Reaction(s1, Clear(outgoing))
      else
        match o.pending
        case Err(f) => Reaction(s1, Raise(f))
        case Ok(early) =>
          if early != [] then Dispatch(c, Hear(s1, early), Tlv.Tlvs(early), o)
          else Reaction(s1, Clear([]))
  }

  /** _handle_tunnel_data */
  function TunnelData(c: Config, s: Protocol, ciphertext: bytes, o: Oracle): (r: Reaction)
    ensures Hears(s, r, o)
  {
    match o.decrypt(ciphertext)
    case Err(f) => Reaction(s, Raise(f))
    case Ok(plaintext) =>
      if plaintext == [] then Reaction(s, Clear([]))
      else Dispatch(c, Hear(s, plaintext), Tlv.Tlvs(plaintext), o)
  }

  /** TEAP/Start: the Authority-ID TLV is kept without its header, as the Compound MACs take it. */
  function Greeted(s: Protocol, authorityId: bytes): Protocol {
    var serverOuter := if |authorityId| > 4 then authorityId[4..] else authorityId;
    s.(serverOuter := serverOuter, state := TlsHandshake,
       history := s.history + [OuterTlvs(serverOuter)])
  }

  /** _handle_teap_start */
  function Start(s: Protocol, authorityId: bytes, o: Oracle): (r: Reaction)
    ensures Speaks(s, r)
  {
    var s1 := Greeted(s, authorityId);
    match o.outerHello
    case Err(f) => Reaction(s1, Raise(f))
    case Ok(hello) => Reaction(s1.(outer := Some(Tunnel(false, false))), Hello(hello))
  }

  /** _handle_teap, with what the reassembler handed on. */
  function Reassembled(c: Config, s: Protocol, assembled: Option<bytes>, o: Oracle): (r: Reaction)
    ensures Hears(s, r, o)
  {
    if assembled.None? then Fail(s)
    else if s.outer.None? || !s.outer.value.established then
      HandshakeStep(c, s, assembled.value, o)
    else TunnelData(c, s, assembled.value, o)
  }

  /** _handle_teap */
  function Teap(c: Config, s: Protocol, payload: bytes, o: Oracle): (r: Reaction)
    ensures Hears(s, r, o)
  {
    match Eap.DecodeTeap(payload)
    case Err(f) => Reaction(s, Raise(f))
    case Ok(teap) =>
      if teap.start then Start(s, teap.data, o)
      else
        var (assembly, assembled) := Eap.Fed(s.assembly, teap);
        var s1 := s.(assembly := assembly);
        if assembly.assembling then Reaction(s1, Clear([])) else Reassembled(c, s1, assembled, o)
  }

  /** _accept_success: EAP-Success counts only after the protected Result. */
  function AcceptSuccess(s: Protocol): (r: Reaction)
    ensures SameChannel(s, r.s) && s.inbox == r.s.inbox && WellActed(r)
  {
    if s.acknowledged then Reaction(s.(state := Done), Stop) else Fail(s)
  }

  /** The EAP packet of an Access-Challenge. */
  function Challenge(c: Config, s: Protocol, p: Eap.EapPacket, o: Oracle): (r: Reaction)
    ensures r.s.wire == s.wire && r.s.radiusState == s.radiusState && r.s.radiusId == s.radiusId
    ensures WellActed(r)
    ensures Takes(s.inbox, r.s.inbox, o)
    ensures !r.action.Stop? && !r.action.Raise? ==>
              p.code == Eap.REQUEST && r.s.eapId == p.id
  {
    if p.code == Eap.SUCCESS then AcceptSuccess(s)
    else if p.code != Eap.REQUEST then Fail(s)
    else
      var s1 := s.(eapId := p.id);
      if p.kind == Some(Eap.IDENTITY) then Reaction(s1, SendIdentity)
      else if p.kind != Some(Eap.TEAP) then Fail(s1)
      else Teap(c, s1, p.payload, o)
  }

  /** A decoded RADIUS reply. */
  function Answered(c: Config, s: Protocol, code: byte, eap: Option<bytes>, o: Oracle)
    : (r: Reaction)
    ensures r.s.wire == s.wire && r.s.radiusState == s.radiusState && r.s.radiusId == s.radiusId
    ensures WellActed(r)
    ensures Takes(s.inbox, r.s.inbox, o)
    ensures !r.action.Stop? && !r.action.Raise? ==>
              && code == Rad.ACCESS_CHALLENGE && eap.Some? && Eap.DecodeEap(eap.value).Ok?
              && Eap.DecodeEap(eap.value).value.code == Eap.REQUEST
              && r.s.eapId == Eap.DecodeEap(eap.value).value.id
  {
    var packet := if eap.Some? && eap.value != [] then Some(Eap.DecodeEap(eap.value)) else None;
    if packet.Some? && packet.value.Err?
       && code in {Rad.ACCESS_ACCEPT, Rad.ACCESS_REJECT, Rad.ACCESS_CHALLENGE} then
      Reaction(s, Raise(packet.value.fault))
    else if code == Rad.ACCESS_ACCEPT then AcceptSuccess(s)
    else if code != Rad.ACCESS_CHALLENGE then Fail(s)
    else if packet.None? then Fail(s)
    else Challenge(c, s, packet.value.value, o)
  }

  /** _process_response, up to the action its handler ends with. */
  function React(c: Config, s: Protocol, reply: bytes, o: Oracle): (r: Reaction)
    ensures r.s.wire == s.wire && r.s.radiusId == s.radiusId
    ensures Takes(s.inbox, r.s.inbox, o) && WellActed(r)
  {
    match Rad.Decoded(c.prims, reply, c.secret, s.authenticator)
    case Err(f) => Reaction(s, Raise(f))
    case Ok(r) => Answered(c, s.(radiusState := r.state), r.code, r.eapMessage, o)
  }

  // ── Performing actions ──

  datatype Ending = Reply(data: bytes) | Nothing | Raised(fault: Fault)

  datatype Outcome = Outcome(s: Protocol, ending: Ending)

  function RequestAttrs(c: Config, eapMessage: bytes, radiusState: Option<bytes>): seq<Rad.Attr> {
    c.head
    + (if eapMessage != [] then [Rad.Attr(Rad.EAP_MESSAGE, eapMessage)] else [])
    + c.tail
    + (if radiusState.Some? && radiusState.value != [] then
         [Rad.Attr(Rad.STATE, radiusState.value)] else [])
  }

  /** _capture_reply_attrs */
  function Captured(c: Config, s: Protocol, reply: bytes): Protocol {
    match Rad.Decoded(c.prims, reply, c.secret, s.authenticator)
    case Err(_) => s
    case Ok(r) => s.(replyAttrs := Authz.Captured(r.attrs), replyCode := r.code)
  }

  /** The Access-Request of an exchange. */
  function RequestFor(c: Config, s: Protocol, eapMessage: bytes, authenticator: Octets16)
    : Result<bytes>
  {
    Rad.RequestPacket(c.prims, Rad.ACCESS_REQUEST, s.radiusId, authenticator, c.secret,
                      RequestAttrs(c, eapMessage, s.radiusState))
  }

  /** The state once a request has taken its authenticator and identifier. */
  function Asking(s: Protocol, authenticator: Octets16): Protocol {
    s.(authenticator := authenticator, radiusId := (s.radiusId + 1) % 256)
  }

  /** send_receive from its k-th attempt: the reply to this identifier, or why there is none. */
  function Awaited(attempts: nat -> Attempt, radiusId: byte, k: nat, retries: nat): (r: Ending)
    ensures r.Nothing? <==> k >= retries
    decreases retries - k
  {
    if k >= retries then Nothing
    else
      var a := attempts(k);
      if a.Broken? then Raised(SocketError)
      else if Answers(a, radiusId) then Reply(a.data)
      else if k == retries - 1 then Raised(Timeout)
      else Awaited(attempts, radiusId, k + 1, retries)
  }

  /** A datagram that answers this request: anything else is ignored by the receiver. */
  predicate Answers(a: Attempt, radiusId: byte)
    ensures Answers(a, radiusId) ==> a.Got?
  {
    a.Got? && 2 <= |a.data| && a.data[1] == radiusId
  }

  /** How many transmissions that takes. */
  function Transmissions(attempts: nat -> Attempt, radiusId: byte, k: nat, retries: nat): (n: nat)
    ensures n > 0 <==> k < retries
    decreases retries - k
  {
    if k >= retries then 0
    else if attempts(k).Broken? || Answers(attempts(k), radiusId) then 1
    else 1 + Transmissions(attempts, radiusId, k + 1, retries)
  }

  /** send_receive */
  function SendReceive(c: Config, s: Protocol, packet: bytes, radiusId: byte, x: Exchanged): Outcome {
    if !x.reachable then Outcome(s, Raised(SocketError))
    else
      var times := Transmissions(x.attempts, radiusId, 0, c.retries);
      Outcome(if times == 0 then s else s.(wire := s.wire + [Sending(packet, times)]),
              Awaited(x.attempts, radiusId, 0, c.retries))
  }

  /** _radius_exchange */
  function Exchange(c: Config, s: Protocol, eapMessage: bytes, x: Exchanged): Outcome {
    var s1 := Asking(s, x.authenticator);
    match RequestFor(c, s, eapMessage, x.authenticator)
    case Err(f) => Outcome(s1, Raised(f))
    case Ok(packet) =>
      var out := SendReceive(c, s1, packet, s.radiusId, x);
      if out.ending.Reply? then Outcome(Captured(c, out.s, out.ending.data), out.ending) else out
  }

  /** An EAP packet, or the fault of encoding it, sent in one exchange. */
  function SendPacket(c: Config, s: Protocol, packet: Result<bytes>, x: Exchanged): Outcome {
    match packet
    case Err(f) => Outcome(s, Raised(f))
    case Ok(eap) => Exchange(c, s, eap, x)
  }

  const CHUNK: nat := 1014

  /** The EAP packet of the fragment of `data` at `offset`. */
  function FragmentPacket(id: byte, data: bytes, offset: nat): (r: Result<bytes>)
    ensures r.Ok? ==> |r.value| >= 4
  {
    var chunk := Slice(data, offset, offset + CHUNK);
    var flags := if offset + CHUNK < |data| then Eap.FLAG_M else 0;
    if offset == 0 then Eap.EncodeTeapWithLength(id, flags, |data|, chunk)
    else Eap.EncodeTeap(id, flags, chunk)
  }

  /** The state after the reply to a fragment, and the fault of decoding it, if any. */
  function Acked(c: Config, s: Protocol, reply: bytes): (Protocol, Option<Fault>) {
    match Rad.Decoded(c.prims, reply, c.secret, s.authenticator)
    case Err(f) => (s, Some(f))
    case Ok(r) =>
      var s1 := if r.state.Some? && r.state.value != [] then s.(radiusState := r.state) else s;
      if r.eapMessage.None? || r.eapMessage.value == [] then (s1, None)
      else
        match Eap.DecodeEap(r.eapMessage.value)
        case Err(f) => (s1, Some(f))
        case Ok(p) => (s1.(eapId := p.id), None)
  }

  /** What sending one fragment leads to: the end of the loop, or `more` of it. */
  datatype Sent = Sent(out: Outcome, more: bool)

  /** One iteration of _send_fragmented. */
  function SendFragment(c: Config, s: Protocol, data: bytes, offset: nat, x: Exchanged)
    : (sent: Sent)
    ensures sent.more ==> offset + CHUNK < |data|
    ensures !sent.more && sent.out.ending.Reply? ==> offset + CHUNK >= |data|
  {
    var out := SendPacket(c, s, FragmentPacket(s.eapId, data, offset), x);
    if offset + CHUNK >= |data| || out.ending.Raised? then Sent(out, false)
    else if out.ending.Nothing? then Sent(Outcome(out.s.(state := Failed), Nothing), false)
    else
      var (s1, fault) := Acked(c, out.s, out.ending.data);
      if fault.Some? then Sent(Outcome(s1, Raised(fault.value)), false)
      else Sent(Outcome(s1, Nothing), true)
  }

  /** _send_fragmented from `offset`, the k-th exchange of the step. */
  function SendFragments(c: Config, s: Protocol, data: bytes, offset: nat, k: nat,
                         xs: nat -> Exchanged): Outcome
    decreases |data| - offset
  {
    if offset >= |data| then Outcome(s, Nothing)
    else
      var sent := SendFragment(c, s, data, offset, xs(k));
      if sent.more then SendFragments(c, sent.out.s, data, offset + CHUNK, k + 1, xs)
      else sent.out
  }

  function Perform(c: Config, r: Reaction, o: Oracle): Outcome {
    match r.action
    case Stop => Outcome(r.s, Nothing)
    case Raise(f) => Outcome(r.s, Raised(f))
    case Clear(data) => SendPacket(c, r.s, Eap.EncodeTeap(r.s.eapId, 0, data), o.exchange(0))
    case Encrypted(plaintext) =>
      (match o.encrypt(plaintext)
       case Err(f) => Outcome(r.s, Raised(f))
       case Ok(data) => SendPacket(c, r.s, Eap.EncodeTeap(r.s.eapId, 0, data), o.exchange(0)))
    case Hello(hello) =>
      SendPacket(c, r.s, Eap.EncodeTeapWithLength(r.s.eapId, 0, |hello|, hello), o.exchange(0))
    case SendIdentity =>
      SendPacket(c, r.s, Eap.EncodeIdentityResponse(r.s.eapId, c.outerIdentity), o.exchange(0))
    case Fragmented(data) => SendFragments(c, r.s, data, 0, 0, o.exchange)
    case Alert(alert) =>
      var packet := Eap.EncodeTeap(r.s.eapId, 0, alert);
      var out := SendPacket(c, r.s, packet, o.exchange(0));
      Outcome(out.s, Raised(if packet.Err? then packet.fault else ServerCertificate))
  }

  /** _process_response */
  function Step(c: Config, s: Protocol, reply: bytes, o: Oracle): Outcome {
    Perform(c, React(c, s, reply, o), o)
  }

  // ── Whole runs ──

  function Initial(authenticator: Octets16): Protocol {
    Protocol(Init, 0, 0, None, authenticator, None, None, Eap.Assembly([], 0, false), [], map[],
             0, [], None, Keys([], [], [], []), false, 0, false, 0, [], 0, [], [], [], [])
  }

  /** What a run reports, and the state it ended in. */
  datatype Report = Report(success: bool, s: Protocol)

  /** The loop of run, given the last reply. Running out of oracles is the caller's overall
      timeout, which may strike between any two steps. */
  function RunFrom(c: Config, s: Protocol, reply: bytes, os: seq<Oracle>): Report
    decreases |os|
  {
    if Terminal(s) then Report(s.state == Done, s)
    else if os == [] then Report(false, s)
    else
      var out := Step(c, s, reply, os[0]);
      match out.ending
      case Raised(_) => Report(false, out.s)
      case Nothing => Report(out.s.state == Done, out.s)
      case Reply(next) => RunFrom(c, out.s, next, os[1..])
  }

  /** run */
  function Run(c: Config, authenticator: Octets16, os: seq<Oracle>): Report {
    var s := Initial(authenticator);
    if os == [] then Report(false, s)
    else
      var out := Perform(c, Reaction(s, SendIdentity), os[0]);
      if out.ending.Reply? then RunFrom(c, out.s, out.ending.data, os[1..])
      else Report(false, out.s)
  }
}
