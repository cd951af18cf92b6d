/** What every run of a session keeps: the history of a run replays to the keys and flags of its
    state, every event in it was admissible where it stands, and success is reported only after
    the events that earn it (section 3.6.6 of RFC 9930). */
module SessionSafety {
  import opened Bytes
  import opened Crypto
  import opened SessionSpec
  import Eap
  import Tlv
  import Rad = Radius
  import CB = CryptoBinding

  // ── Replaying a history ──

  /** Where a history stands with its outer tunnel: the hash in force, whether a binding was
      verified since the tunnel came up, and whether one had been when the last message came. */
  datatype Standing = Standing(alg: HashAlg, bound: bool, boundBefore: bool)

  /** What a history amounts to: the outer TLVs in force, where it stands with its tunnel, the
      seed, whether an inner tunnel is open, the plaintexts heard, the MSK and kind of the last
      method and how many ran, and what was made of them. */
  datatype Summary = Summary(
    serverOuter: bytes, standing: Standing, seed: bytes, inner: bool, inbox: seq<bytes>, msk: bytes,
    last: Option<Method>, legs: nat, keys: Keys, rounds: nat, verified: bool, acknowledged: bool)

  const NOTHING_YET :=
    Summary([], Standing(Sha256, false, false), [], false, [], [], None, 0, Keys([], [], [], []), 0,
            false, false)

  function After(c: Config, t: Summary, e: Event): Summary {
    match e
    case OuterTlvs(serverOuter) => t.(serverOuter := serverOuter)
    case Up(seed, alg) => t.(seed := seed, standing := t.standing.(alg := alg, bound := false))
    case Heard(plaintext) =>
      t.(inbox := t.inbox + [plaintext],
         standing := t.standing.(boundBefore := t.standing.bound))
    case IdentitySettled => t.(inner := false)
    case InnerOpened => t.(inner := true)
    case Ran(how, msk) => t.(msk := msk, last := Some(how), legs := t.legs + 1)
    case Derived(alg, from, msk, emsk) =>
      t.(keys := Advance(c.prims.hmac(alg), t.keys, from, msk, emsk), rounds := t.rounds + 1)
    case Verified(_, _, _, _, _) => t.(verified := true, standing := t.standing.(bound := true))
    case Acknowledged => t.(acknowledged := true)
  }

  function Replay(c: Config, h: seq<Event>): Summary {
    if h == [] then NOTHING_YET else After(c, Replay(c, h[..|h| - 1]), h[|h| - 1])
  }

  /** A request whose fields are valid, with at least one Compound MAC that these keys could
      check, and every such MAC the Compound MAC recomputed over the request itself. */
  predicate Genuine(c: Config, alg: HashAlg, cb: bytes, serverOuter: bytes, cmk: bytes, emskCmk: bytes) {
    CB.ValidRequest(cb)
    && var p := CB.Parse(cb).value;
       && (CB.HasMsk(p.flags) || (CB.HasEmsk(p.flags) && emskCmk != []))
       && (CB.HasMsk(p.flags) ==>
             p.mskMac == CB.CompoundMac(c.prims.hmac(alg), cb, cmk, serverOuter, []))
       && (CB.HasEmsk(p.flags) && emskCmk != [] ==>
             p.emskMac == CB.CompoundMac(c.prims.hmac(alg), cb, emskCmk, serverOuter, []))
  }

  /** The last TLV of a kind in the plaintext heard last. */
  function Told(inbox: seq<bytes>, kind: nat): Option<bytes> {
    if inbox == [] then None else Lookup(Tlv.Tlvs(inbox[|inbox| - 1]), kind)
  }

  predicate SaysSuccess(value: Option<bytes>) {
    value.Some? && ReadU16(value.value) == Ok(Tlv.SUCCESS)
  }

  /** Whether an event may follow a history that amounts to `t`: keys are derived under the hash
      and seed of the tunnel, from the MSK of the last method, with an EMSK only while an inner
      tunnel is open, for the first binding or a method not yet counted; what is verified is the
      Crypto-Binding of the message heard last, under the tunnel's hash and outer TLVs and the
      keys of that moment; only a Result(Success) heard last is acknowledged, in a tunnel where a
      binding was verified exactly if the message has one or one had been when it came. */
  predicate Admissible(c: Config, t: Summary, e: Event) {
    match e
    case OuterTlvs(_) => true
    case Up(seed, _) => |seed| == 40
    case Heard(_) => true
    case IdentitySettled => true
    case InnerOpened => !t.inner
    case Ran(how, _) => how.EapTls? ==> t.inner
    case Derived(alg, from, msk, emsk) =>
      && alg == t.standing.alg && from == t.seed && |from| == 40 && msk == t.msk
      && (emsk.Some? ==> t.inner) && (t.rounds == 0 || t.legs > t.rounds)
    case Verified(alg, cb, serverOuter, cmk, emskCmk) =>
      && t.rounds >= 1 && alg == t.standing.alg && serverOuter == t.serverOuter
      && cmk == t.keys.cmk && emskCmk == t.keys.emskCmk
      && Told(t.inbox, Tlv.CRYPTO_BINDING) == Some(cb)
      && Genuine(c, alg, cb, serverOuter, cmk, emskCmk)
    case Acknowledged =>
      && t.verified && SaysSuccess(Told(t.inbox, Tlv.RESULT))
      && (t.standing.bound <==> Told(t.inbox, Tlv.CRYPTO_BINDING).Some? || t.standing.boundBefore)
  }

  predicate Legal(c: Config, h: seq<Event>) {
    h == [] || (Legal(c, h[..|h| - 1]) && Admissible(c, Replay(c, h[..|h| - 1]), h[|h| - 1]))
  }

  lemma Append(c: Config, h: seq<Event>, e: Event)
    ensures Replay(c, h + [e]) == After(c, Replay(c, h), e)
    ensures Legal(c, h + [e]) <==> Legal(c, h) && Admissible(c, Replay(c, h), e)
  {
    assert (h + [e])[..|h|] == h;
  }

  // ── The invariant ──

  function BoundLegs(legs: seq<Leg>): nat {
    if legs == [] then 0
    else BoundLegs(legs[..|legs| - 1]) + (if legs[|legs| - 1].bound then 1 else 0)
  }

  lemma {:induction false} BoundLegsFit(legs: seq<Leg>)
    ensures BoundLegs(legs) <= |legs|
  {
    if legs != [] {
      BoundLegsFit(legs[..|legs| - 1]);
    }
  }

  lemma BoundLegsOfAnother(legs: seq<Leg>, leg: Leg)
    ensures BoundLegs(legs + [leg]) == BoundLegs(legs) + (if leg.bound then 1 else 0)
  {
    assert (legs + [leg])[..|legs|] == legs;
  }

  lemma BoundLegsOfBindLast(legs: seq<Leg>)
    ensures |BindLast(legs)| == |legs|
    ensures BoundLegs(BindLast(legs)) <= BoundLegs(legs) + 1
  {
    if legs != [] {
      assert BindLast(legs)[..|legs| - 1] == legs[..|legs| - 1];
    }
  }

  function LastMethod(legs: seq<Leg>): Option<Method> {
    if legs == [] then None else Some(legs[|legs| - 1].how)
  }

  /** What a state says of the history it came from, all but the standing of its tunnel. */
  function Summarized(s: Protocol, standing: Standing): Summary {
    Summary(s.serverOuter, standing, s.seed, s.inner.Some?, s.inbox, s.innerMsk, LastMethod(s.legs),
            |s.legs|, s.keys, s.rounds, s.bindingDone, s.acknowledged)
  }

  predicate Sound(c: Config, s: Protocol) {
    && Legal(c, s.history)
    && Replay(c, s.history) == Summarized(s, Replay(c, s.history).standing)
    && BoundLegs(s.legs) <= s.rounds <= Max(1, |s.legs|)
    && (s.state == Done ==> s.acknowledged)
  }

  predicate Tunneled(s: Protocol) { s.outer.Some? && s.outer.value.established }

  /** An outer tunnel that is up has given its session key seed, and its hash is in force. */
  predicate Ready(c: Config, s: Protocol) {
    Tunneled(s) ==> |s.seed| == 40 && Replay(c, s.history).standing.alg == AlgOf(s)
  }

  /** What holds between any two steps. */
  predicate Kept(c: Config, s: Protocol) { Sound(c, s) && Ready(c, s) }

  /** The states agree on everything the invariant speaks of; `s` may not newly be Done. */
  predicate Agree(s: Protocol, t: Protocol) {
    && Summarized(s, NOTHING_YET.standing) == Summarized(t, NOTHING_YET.standing)
    && s.history == t.history && s.legs == t.legs && s.outer == t.outer
    && (s.state == Done ==> s.acknowledged)
  }

  lemma AgreeKeeps(c: Config, s: Protocol, t: Protocol)
    requires Kept(c, t) && Agree(s, t)
    ensures Kept(c, s)
  {
  }

  lemma MethodOverKeeps(c: Config, s: Protocol, how: Method, identity: bytes, msk: bytes)
    requires Kept(c, s) && (how.EapTls? ==> s.inner.Some?)
    ensures Kept(c, MethodOver(s, how, identity, msk))
  {
    BoundLegsOfAnother(s.legs, Leg(s.identityType == MACHINE, how, identity, false));
    Append(c, s.history, Ran(how, msk));
  }

  lemma InnerStartedKeeps(c: Config, s: Protocol)
    requires Kept(c, s) && s.inner.None?
    ensures Kept(c, InnerStarted(s))
  {
    Append(c, s.history, InnerOpened);
  }

  lemma AdoptedKeeps(c: Config, s: Protocol, idType: nat)
    requires Kept(c, s)
    ensures Kept(c, Adopted(s, idType))
  {
    Append(c, s.history, IdentitySettled);
  }

  /** No binding was verified, and no tunnel came up, since the last message. */
  predicate JustHeard(c: Config, s: Protocol) {
    Replay(c, s.history).standing.bound == Replay(c, s.history).standing.boundBefore
  }

  lemma HearKeeps(c: Config, s: Protocol, plaintext: bytes)
    requires Kept(c, s)
    ensures Kept(c, Hear(s, plaintext)) && JustHeard(c, Hear(s, plaintext))
  {
    Append(c, s.history, Heard(plaintext));
  }

  lemma GreetedKeeps(c: Config, s: Protocol, authorityId: bytes)
    requires Kept(c, s)
    ensures Kept(c, Greeted(s, authorityId))
  {
    Append(c, s.history, OuterTlvs(Greeted(s, authorityId).serverOuter));
  }

  lemma SeededKeeps(c: Config, s: Protocol, seed: Octets40)
    requires Sound(c, s)
    ensures Kept(c, Seeded(s, seed))
  {
    Append(c, s.history, Up(seed, AlgOf(s)));
  }

  lemma KeyedKeeps(c: Config, s: Protocol, o: Oracle)
    requires Kept(c, s) && Tunneled(s)
    ensures var k := Keyed(c, s, o);
            && Kept(c, k) && k.rounds >= 1 && k.legs == s.legs && k.inbox == s.inbox
            && k.outer == s.outer && k.serverOuter == s.serverOuter
            && BoundLegs(BindLast(s.legs)) <= k.rounds
  {
    BoundLegsOfBindLast(s.legs);
    BoundLegsFit(BindLast(s.legs));
    if NeedsKeys(s) {
      Append(c, s.history, Derived(AlgOf(s), s.seed, s.innerMsk, EmskOf(s, o)));
    }
  }

  lemma AnsweredMeansGenuine(c: Config, alg: HashAlg, cb: bytes, serverOuter: bytes, keys: Keys)
    requires CB.ValidRequest(cb)
    requires BindingResponse(c.prims.hmac(alg), cb, serverOuter, keys).Some?
    ensures Genuine(c, alg, cb, serverOuter, keys.cmk, keys.emskCmk)
  {
  }

  lemma BoundByKeeps(c: Config, s: Protocol, cb: bytes)
    requires Kept(c, s) && Tunneled(s) && s.rounds >= 1 && BoundLegs(BindLast(s.legs)) <= s.rounds
    requires Told(s.inbox, Tlv.CRYPTO_BINDING) == Some(cb)
    requires Genuine(c, AlgOf(s), cb, s.serverOuter, s.keys.cmk, s.keys.emskCmk)
    ensures var t := BoundBy(s, AlgOf(s), cb);
            Kept(c, t) && t.bindingDone && t.inbox == s.inbox && Replay(c, t.history).standing.bound
  {
    hide Genuine;
    BoundLegsOfBindLast(s.legs);
    Append(c, s.history, Verified(AlgOf(s), cb, s.serverOuter, s.keys.cmk, s.keys.emskCmk));
  }

  lemma BindKeeps(c: Config, s: Protocol, cb: bytes, o: Oracle)
    requires Kept(c, s) && Tunneled(s) && Told(s.inbox, Tlv.CRYPTO_BINDING) == Some(cb)
    ensures var b := Bind(c, s, cb, o);
            && Kept(c, b.s) && b.s.inbox == s.inbox
            && (b.Bound? ==> b.s.bindingDone && Replay(c, b.s.history).standing.bound)
  {
    hide BindingResponse, Keyed, BoundBy, Genuine;
    if CB.ValidRequest(cb) {
      var alg, k := AlgOf(s), Keyed(c, s, o);
      KeyedKeeps(c, s, o);
      if BindingResponse(c.prims.hmac(alg), cb, k.serverOuter, k.keys).Some? {
        AnsweredMeansGenuine(c, alg, cb, k.serverOuter, k.keys);
        BoundByKeeps(c, k, cb);
      }
    }
  }

  lemma AcknowledgeKeeps(c: Config, s: Protocol, plaintext: bytes)
    requires Kept(c, s) && s.bindingDone && SaysSuccess(Told(s.inbox, Tlv.RESULT))
    requires if Told(s.inbox, Tlv.CRYPTO_BINDING).Some? then Replay(c, s.history).standing.bound
             else JustHeard(c, s)
    ensures Kept(c, Acknowledge(s, plaintext).s)
  {
    Append(c, s.history, Acknowledged);
  }

  // ── Every handler keeps it ──

  lemma InnerEapKeeps(c: Config, s: Protocol, data: bytes, extra: bytes, o: Oracle)
    requires Kept(c, s)
    ensures Kept(c, InnerEap(c, s, data, extra, o).s)
  {
    hide InnerRequest, Eap.DecodeEap;
    var packet := Eap.DecodeEap(data);
    FailedKeeps(c, s);
    if packet.Ok? && packet.value.code == Eap.SUCCESS {
      AgreeKeeps(c, s.(state := InnerTlsDone), s);
    } else if packet.Ok? && packet.value.code == Eap.REQUEST {
      AgreeKeeps(c, s.(innerEapId := packet.value.id), s);
      InnerRequestKeeps(c, s.(innerEapId := packet.value.id), packet.value, extra, o);
    }
  }

  lemma InnerRequestKeeps(c: Config, s: Protocol, p: Eap.EapPacket, extra: bytes, o: Oracle)
    requires Kept(c, s)
    ensures Kept(c, InnerRequest(c, s, p, extra, o).s)
  {
    hide InnerTls, InnerMschap;
    if p.kind == Some(Eap.IDENTITY) {
    } else if p.kind == Some(Eap.TLS) {
      InnerTlsKeeps(c, s, p.payload, extra, o);
    } else if p.kind == Some(Eap.MSCHAPV2) && PasswordFor(c, s.identityType) != [] {
      InnerMschapKeeps(c, s, p.payload, extra, o);
    }
  }

  lemma InnerTlsStartKeeps(c: Config, s: Protocol, body: bytes, extra: bytes, o: Oracle)
    requires Kept(c, s) && s.inner.None?
    ensures Kept(c, InnerTlsStart(s, body, extra, o).s)
  {
    hide SendInnerEap, Kept;
    var s1, r := s.(state := InnerTlsHandshake), InnerTlsStart(s, body, extra, o);
    AgreeKeeps(c, s1, s);
    if o.innerHello.Ok? {
      InnerStartedKeeps(c, s1);
      AgreeKeeps(c, r.s, InnerStarted(s1));
    }
  }

  lemma InnerTlsOverKeeps(c: Config, s: Protocol, o: Oracle)
    requires Kept(c, s) && s.inner.Some?
    ensures Kept(c, InnerTlsOver(c, s, o))
  {
    var msk := match o.innerMsk case Some(msk) => msk case None => Zeros(64);
    MethodOverKeeps(c, s, EapTls, InnerIdentityOf(c, s.identityType), msk);
  }

  lemma InnerTlsKeeps(c: Config, s: Protocol, payload: bytes, extra: bytes, o: Oracle)
    requires Kept(c, s)
    ensures Kept(c, InnerTls(c, s, payload, extra, o).s)
  {
    hide InnerTlsStart, InnerTlsOver, SendInnerEap;
    var body := TlsData(payload);
    if s.inner.None? {
      InnerTlsStartKeeps(c, s, body, extra, o);
    } else if body != [] {
      var fed := o.innerFeed(body);
      var s1 := s.(inner := Some(if fed.Continued? then fed.tunnel else Tunnel(false, false)));
      AgreeKeeps(c, s1, s);
      InnerTlsOverKeeps(c, s1, o);
    }
  }

  lemma MschapChallengeAgrees(c: Config, s: Protocol, payload: bytes, extra: bytes, o: Oracle)
    requires payload != [] && (s.state == Done ==> s.acknowledged)
    ensures Agree(MschapChallenge(c, s, payload, extra, o).s, s)
  {
    hide Agree, SendInnerEap, MschapBody, MschapAnswer;
    var t := MschapChallenge(c, s, payload, extra, o).s;
    assert t == s.(mschap := t.mschap) || t == s.(state := Failed);
    ChallengedAgrees(s, t);
  }

  lemma ChallengedAgrees(s: Protocol, t: Protocol)
    requires t == s.(mschap := t.mschap) || t == s.(state := Failed)
    requires s.state == Done ==> s.acknowledged
    ensures Agree(t, s)
  {
  }

  lemma MschapSuccessKeeps(c: Config, s: Protocol, payload: bytes, extra: bytes)
    requires Kept(c, s)
    ensures Kept(c, MschapSuccess(c, s, payload, extra).s)
  {
    if s.mschap.Some? {
      var m := s.mschap.value;
      var msk := c.prims.mschapSessionKey(m.password, m.ntResponse);
      MethodOverKeeps(c, s, MsChapV2, m.username, msk);
      FailedKeeps(c, s);
    }
  }

  lemma InnerMschapKeeps(c: Config, s: Protocol, payload: bytes, extra: bytes, o: Oracle)
    requires Kept(c, s)
    ensures Kept(c, InnerMschap(c, s, payload, extra, o).s)
  {
    if payload != [] && payload[0] == 1 {
      MschapChallengeAgrees(c, s, payload, extra, o);
      AgreeKeeps(c, MschapChallenge(c, s, payload, extra, o).s, s);
    } else if payload != [] && payload[0] == 3 {
      MschapSuccessKeeps(c, s, payload, extra);
    }
  }

  lemma IdentityTypeKeeps(c: Config, s: Protocol, value: bytes, eap: Option<bytes>, extra: bytes,
                          o: Oracle)
    requires Kept(c, s)
    ensures Kept(c, IdentityType(c, s, value, eap, extra, o).s)
  {
    hide AsIdentity, HasCredential;
    var requested := ReadU16(value);
    if requested.Ok? {
      var s1 := s.(identityType := requested.value);
      AgreeKeeps(c, s1, s);
      FailedKeeps(c, s1);
      AsIdentityKeeps(c, s1, requested.value, eap, extra, o);
      AsIdentityKeeps(c, s1, Other(requested.value), eap, extra, o);
    }
  }

  lemma AsIdentityKeeps(c: Config, s: Protocol, idType: nat, eap: Option<bytes>, extra: bytes,
                        o: Oracle)
    requires Kept(c, s)
    ensures Kept(c, AsIdentity(c, s, idType, eap, extra, o).s)
  {
    hide InnerEap, Kept;
    AdoptedKeeps(c, s, idType);
    if eap.Some? && (idType == USER || idType == MACHINE) {
      InnerEapKeeps(c, Adopted(s, idType), eap.value, extra + Tlv.IdentityTypeTlv(idType), o);
    }
  }

  lemma BindingAnsweredKeeps(c: Config, b: Binding, m: Message, o: Oracle)
    requires Kept(c, b.s) && (b.Bound? ==> |b.response| < 0x1_0000)
    ensures Kept(c, BindingAnswered(c, b, m, o).s)
  {
    hide IdentityType, InnerEap, Kept, Tlv.IntermediateResultTlv;
    FailedKeeps(c, b.s);
    if b.Bound? {
      var reply := BindingTlv(b.response) + Tlv.IntermediateResultTlv(Tlv.SUCCESS);
      if m.identityType.Some? {
        IdentityTypeKeeps(c, b.s, m.identityType.value, m.eap, reply, o);
      } else if m.eap.Some? {
        InnerEapKeeps(c, b.s, m.eap.value, reply, o);
      } else {
        AgreeKeeps(c, b.s.(state := CryptoBinding), b.s);
      }
    }
  }

  /** The message's binding and result are those of the plaintext heard last. */
  predicate Current(s: Protocol, m: Message) {
    m.binding == Told(s.inbox, Tlv.CRYPTO_BINDING) && m.result == Told(s.inbox, Tlv.RESULT)
  }

  lemma BindingAloneKeeps(c: Config, s: Protocol, m: Message, o: Oracle)
    requires Kept(c, s) && Tunneled(s) && Current(s, m) && m.binding.Some?
    ensures Kept(c, BindingAlone(c, s, m, o).s)
  {
    hide BindingAnswered, Kept, Bind;
    BindKeeps(c, s, m.binding.value, o);
    BindingAnsweredKeeps(c, Bind(c, s, m.binding.value, o), m, o);
  }

  lemma FailedKeeps(c: Config, s: Protocol)
    requires Kept(c, s)
    ensures Kept(c, s.(state := Failed))
  {
  }

  lemma ResultAnsweredKeeps(c: Config, b: Binding, success: bool)
    requires Kept(c, b.s)
    requires b.Bound? ==> b.s.bindingDone && |b.response| < 0x1_0000
    requires b.Bound? && success ==>
               && SaysSuccess(Told(b.s.inbox, Tlv.RESULT))
               && Told(b.s.inbox, Tlv.CRYPTO_BINDING).Some? && Replay(c, b.s.history).standing.bound
    ensures Kept(c, LastAnswered(b, success).s) && Kept(c, FinalAnswered(b, success).s)
  {
    FailedKeeps(c, b.s);
    if b.Bound? && success {
      AcknowledgeKeeps(c, b.s, []);
    }
  }

  /** A binding that came with the Result, whatever else is in the message. */
  lemma ResultBoundKeeps(c: Config, s: Protocol, cb: bytes, success: bool, o: Oracle)
    requires Kept(c, s) && Tunneled(s) && Told(s.inbox, Tlv.CRYPTO_BINDING) == Some(cb)
    requires success ==> SaysSuccess(Told(s.inbox, Tlv.RESULT))
    ensures Kept(c, LastAnswered(Bind(c, s, cb, o), success).s)
    ensures Kept(c, FinalAnswered(Bind(c, s, cb, o), success).s)
  {
    hide Bind, Kept, LastAnswered, FinalAnswered;
    BindKeeps(c, s, cb, o);
    ResultAnsweredKeeps(c, Bind(c, s, cb, o), success);
  }

  lemma LastBindingAndResultKeeps(c: Config, s: Protocol, m: Message, o: Oracle)
    requires Kept(c, s) && Tunneled(s) && Current(s, m)
    requires m.binding.Some? && m.intermediate.Some? && m.result.Some?
    ensures Kept(c, LastBindingAndResult(c, s, m, o).s)
  {
    hide Bind, Kept, LastAnswered;
    match (ReadU16(m.intermediate.value), ReadU16(m.result.value)) {
      case (Ok(intermediate), Ok(result)) =>
        ResultBoundKeeps(c, s, m.binding.value,
                         intermediate == Tlv.SUCCESS && result == Tlv.SUCCESS, o);
      case _ =>
    }
  }

  lemma FinalResultKeeps(c: Config, s: Protocol, m: Message, o: Oracle)
    requires Kept(c, s) && Tunneled(s) && Current(s, m) && m.binding.Some? && m.result.Some?
    ensures Kept(c, FinalResult(c, s, m, o).s)
  {
    hide Bind, Kept, FinalAnswered;
    var result := ReadU16(m.result.value);
    if result.Ok? {
      ResultBoundKeeps(c, s, m.binding.value, result.value == Tlv.SUCCESS, o);
    }
  }

  lemma LoneResultKeeps(c: Config, s: Protocol, value: bytes)
    requires Kept(c, s) && JustHeard(c, s) && Told(s.inbox, Tlv.RESULT) == Some(value)
    requires Told(s.inbox, Tlv.CRYPTO_BINDING).None?
    ensures Kept(c, LoneResult(s, value).s)
  {
    FailedKeeps(c, s);
    if s.bindingDone && ReadU16(value) == Ok(Tlv.SUCCESS) {
      AcknowledgeKeeps(c, s, []);
    }
  }

  lemma WithBindingKeeps(c: Config, s: Protocol, m: Message, o: Oracle)
    requires Kept(c, s) && Tunneled(s) && Current(s, m) && m.binding.Some?
    requires m.result.None? || m.pac.None?
    ensures Kept(c, DispatchMessage(c, s, m, o).s)
  {
    hide LastBindingAndResult, FinalResult, BindingAlone, Kept;
    if m.result.Some? && m.intermediate.Some? {
      LastBindingAndResultKeeps(c, s, m, o);
    } else if m.result.Some? {
      FinalResultKeeps(c, s, m, o);
    } else {
      FailedKeeps(c, s);
      BindingAloneKeeps(c, s, m, o);
    }
  }

  lemma DispatchMessageKeeps(c: Config, s: Protocol, m: Message, o: Oracle)
    requires Kept(c, s) && Tunneled(s) && Current(s, m) && JustHeard(c, s)
    ensures Kept(c, DispatchMessage(c, s, m, o).s)
  {
    hide LastBindingAndResult, FinalResult, BindingAlone, IdentityType, InnerEap, LoneResult, Kept;
    FailedKeeps(c, s);
    if m.result.Some? && m.pac.Some? {
      AgreeKeeps(c, s.(state := ResultPac), s);
    } else if m.binding.Some? {
      WithBindingKeeps(c, s, m, o);
    } else if m.intermediate.Some? && m.result.None? {
    } else if m.identityType.Some? {
      IdentityTypeKeeps(c, s, m.identityType.value, m.eap, [], o);
    } else if m.eap.Some? {
      InnerEapKeeps(c, s, m.eap.value, [], o);
    } else if m.result.Some? {
      LoneResultKeeps(c, s, m.result.value);
    }
  }

  /** _dispatch_tlvs of a plaintext just heard. */
  lemma DispatchKeeps(c: Config, s: Protocol, plaintext: bytes, o: Oracle)
    requires Kept(c, s) && Tunneled(s)
    ensures Kept(c, Dispatch(c, Hear(s, plaintext), Tlv.Tlvs(plaintext), o).s)
  {
    hide DispatchMessage, Kept;
    var heard, tlvs := Hear(s, plaintext), Tlv.Tlvs(plaintext);
    HearKeeps(c, s, plaintext);
    FailedKeeps(c, heard);
    if UnsupportedOf(tlvs) == [] {
      DispatchMessageKeeps(c, heard, Read(tlvs), o);
    }
  }

  // ── Steps ──

  /** What a reaction leaves: a sound state, and one that is ready unless it raises. */
  predicate Good(c: Config, r: Reaction) {
    Sound(c, r.s) && (Ready(c, r.s) || r.action.Raise?)
  }

  lemma EstablishedKeeps(c: Config, s: Protocol, outgoing: bytes, o: Oracle)
    requires Sound(c, s) && Tunneled(s)
    ensures Good(c, Established(c, s, outgoing, o))
  {
    hide Dispatch;
    if o.exportSeed.Ok? {
      var s1 := Seeded(s, o.exportSeed.value);
      SeededKeeps(c, s, o.exportSeed.value);
      if outgoing == [] && o.pending.Ok? && o.pending.value != [] {
        DispatchKeeps(c, s1, o.pending.value, o);
      }
    }
  }

  lemma HandshakeStepKeeps(c: Config, s: Protocol, data: bytes, o: Oracle)
    requires Kept(c, s)
    ensures Good(c, HandshakeStep(c, s, data, o))
  {
    hide Established;
    if s.outer.Some? {
      var fed := o.outerFeed(data);
      if fed.Continued? && fed.tunnel.established {
        var s1 := s.(outer := Some(fed.tunnel), state := TunnelUp);
        assert Sound(c, s1);
        EstablishedKeeps(c, s1, fed.outgoing, o);
      } else {
        var t := if fed.Continued? then fed.tunnel else Tunnel(false, false);
        assert Kept(c, s.(outer := Some(t)));
      }
    }
  }

  lemma ReassembledKeeps(c: Config, s: Protocol, assembled: Option<bytes>, o: Oracle)
    requires Kept(c, s)
    ensures Good(c, Reassembled(c, s, assembled, o))
  {
    hide HandshakeStep, TunnelData, Kept;
    if assembled.None? {
      FailedKeeps(c, s);
    } else if s.outer.None? || !s.outer.value.established {
      HandshakeStepKeeps(c, s, assembled.value, o);
    } else {
      TunnelDataKeeps(c, s, assembled.value, o);
    }
  }

  lemma StartKeeps(c: Config, s: Protocol, authorityId: bytes, o: Oracle)
    requires Kept(c, s)
    ensures Good(c, Start(s, authorityId, o))
  {
    GreetedKeeps(c, s, authorityId);
  }

  lemma TeapKeeps(c: Config, s: Protocol, payload: bytes, o: Oracle)
    requires Kept(c, s)
    ensures Good(c, Teap(c, s, payload, o))
  {
    hide Reassembled, Start, Eap.DecodeTeap, Eap.Fed;
    var teap := Eap.DecodeTeap(payload);
    if teap.Ok? && teap.value.start {
      StartKeeps(c, s, teap.value.data, o);
    } else if teap.Ok? {
      var (assembly, assembled) := Eap.Fed(s.assembly, teap.value);
      var s1 := s.(assembly := assembly);
      AgreeKeeps(c, s1, s);
      ReassembledKeeps(c, s1, assembled, o);
    }
  }

  lemma TunnelDataKeeps(c: Config, s: Protocol, ciphertext: bytes, o: Oracle)
    requires Kept(c, s) && Tunneled(s)
    ensures Kept(c, TunnelData(c, s, ciphertext, o).s)
  {
    var plaintext := o.decrypt(ciphertext);
    if plaintext.Ok? && plaintext.value != [] {
      DispatchKeeps(c, s, plaintext.value, o);
    }
  }

  lemma AcceptSuccessKeeps(c: Config, s: Protocol)
    requires Kept(c, s)
    ensures Kept(c, AcceptSuccess(s).s)
  {
  }

  lemma ChallengeKeeps(c: Config, s: Protocol, p: Eap.EapPacket, o: Oracle)
    requires Kept(c, s)
    ensures Good(c, Challenge(c, s, p, o))
  {
    hide Teap;
    if p.code == Eap.SUCCESS {
      AcceptSuccessKeeps(c, s);
    } else if p.code != Eap.REQUEST {
      FailedKeeps(c, s);
    } else {
      var s1 := s.(eapId := p.id);
      AgreeKeeps(c, s1, s);
      if p.kind == Some(Eap.TEAP) {
        TeapKeeps(c, s1, p.payload, o);
      } else {
        FailedKeeps(c, s1);
      }
    }
  }

  lemma AnsweredKeeps(c: Config, s: Protocol, code: byte, eap: Option<bytes>, o: Oracle)
    requires Kept(c, s)
    ensures Good(c, Answered(c, s, code, eap, o))
  {
    hide Challenge, Eap.DecodeEap;
    AcceptSuccessKeeps(c, s);
    FailedKeeps(c, s);
    if code == Rad.ACCESS_CHALLENGE && eap.Some? && eap.value != [] {
      var packet := Eap.DecodeEap(eap.value);
      if packet.Ok? {
        ChallengeKeeps(c, s, packet.value, o);
      }
    }
  }

  lemma ReactKeeps(c: Config, s: Protocol, reply: bytes, o: Oracle)
    requires Kept(c, s)
    ensures Good(c, React(c, s, reply, o))
  {
    hide Answered, Rad.Decoded;
    var decoded := Rad.Decoded(c.prims, reply, c.secret, s.authenticator);
    if decoded.Ok? {
      var r := decoded.value;
      AgreeKeeps(c, s.(radiusState := r.state), s);
      AnsweredKeeps(c, s.(radiusState := r.state), r.code, r.eapMessage, o);
    }
  }

  /** Exchanges touch nothing the invariant speaks of. */
  lemma SendPacketAgrees(c: Config, s: Protocol, packet: Result<bytes>, x: Exchanged)
    requires s.state == Done ==> s.acknowledged
    ensures Agree(SendPacket(c, s, packet, x).s, s)
  {
    hide Agree, RequestFor, Rad.Decoded, Awaited, Transmissions;
    TransportAgrees(s, SendPacket(c, s, packet, x).s);
  }

  lemma TransportAgrees(s: Protocol, t: Protocol)
    requires t == s.(authenticator := t.authenticator, radiusId := t.radiusId, wire := t.wire,
                     replyAttrs := t.replyAttrs, replyCode := t.replyCode)
    requires s.state == Done ==> s.acknowledged
    ensures Agree(t, s)
  {
  }

  /** Neither does taking another identifier or State. */
  lemma EchoAgrees(s: Protocol, id: byte, radiusState: Option<bytes>)
    requires s.state == Done ==> s.acknowledged
    ensures Agree(s.(eapId := id, radiusState := radiusState), s)
  {
  }

  lemma AckedAgrees(c: Config, s: Protocol, reply: bytes)
    requires s.state == Done ==> s.acknowledged
    ensures Agree(Acked(c, s, reply).0, s)
  {
    hide Agree;
    AckedEchoes(c, s, reply);
    EchoAgrees(s, Acked(c, s, reply).0.eapId, Acked(c, s, reply).0.radiusState);
  }

  lemma AckedEchoes(c: Config, s: Protocol, reply: bytes)
    ensures var t := Acked(c, s, reply).0;
            t == s.(eapId := t.eapId, radiusState := t.radiusState)
  {
    hide Rad.Decoded, Eap.DecodeEap;
  }

  lemma SendFragmentAgrees(c: Config, s: Protocol, data: bytes, offset: nat, x: Exchanged)
    requires s.state == Done ==> s.acknowledged
    ensures Agree(SendFragment(c, s, data, offset, x).out.s, s)
  {
    hide SendPacket, Acked, FragmentPacket;
    var packet := FragmentPacket(s.eapId, data, offset);
    SendPacketAgrees(c, s, packet, x);
    var out := SendPacket(c, s, packet, x);
    if out.ending.Reply? {
      AckedAgrees(c, out.s, out.ending.data);
    }
  }

  lemma {:induction false} SendFragmentsAgrees(c: Config, s: Protocol, data: bytes, offset: nat,
                                               k: nat, xs: nat -> Exchanged)
    requires s.state == Done ==> s.acknowledged
    ensures Agree(SendFragments(c, s, data, offset, k, xs).s, s)
    decreases |data| - offset
  {
    hide SendFragment;
    if offset < |data| {
      var sent := SendFragment(c, s, data, offset, xs(k));
      SendFragmentAgrees(c, s, data, offset, xs(k));
      if sent.more {
        SendFragmentsAgrees(c, sent.out.s, data, offset + CHUNK, k + 1, xs);
      }
    }
  }

  lemma PerformAgrees(c: Config, r: Reaction, o: Oracle)
    requires r.s.state == Done ==> r.s.acknowledged
    ensures Agree(Perform(c, r, o).s, r.s)
    ensures r.action.Raise? ==> Perform(c, r, o).ending.Raised?
  {
    hide SendPacket, SendFragments;
    match r.action
    case Fragmented(data) => SendFragmentsAgrees(c, r.s, data, 0, 0, o.exchange);
    case Clear(data) => SendPacketAgrees(c, r.s, Eap.EncodeTeap(r.s.eapId, 0, data), o.exchange(0));
    case Encrypted(plaintext) =>
      var data := o.encrypt(plaintext);
      if data.Ok? {
        SendPacketAgrees(c, r.s, Eap.EncodeTeap(r.s.eapId, 0, data.value), o.exchange(0));
      }
    case Hello(hello) =>
      SendPacketAgrees(c, r.s, Eap.EncodeTeapWithLength(r.s.eapId, 0, |hello|, hello),
                       o.exchange(0));
    case SendIdentity =>
      SendPacketAgrees(c, r.s, Eap.EncodeIdentityResponse(r.s.eapId, c.outerIdentity),
                       o.exchange(0));
    case Alert(alert) =>
      SendPacketAgrees(c, r.s, Eap.EncodeTeap(r.s.eapId, 0, alert), o.exchange(0));
    case Stop =>
    case Raise(_) =>
  }

  lemma StepKeeps(c: Config, s: Protocol, reply: bytes, o: Oracle)
    requires Kept(c, s)
    ensures var out := Step(c, s, reply, o);
            Sound(c, out.s) && (out.ending.Raised? || Kept(c, out.s))
  {
    hide React, Perform;
    ReactKeeps(c, s, reply, o);
    PerformAgrees(c, React(c, s, reply, o), o);
  }

  lemma {:induction false} RunFromKeeps(c: Config, s: Protocol, reply: bytes, os: seq<Oracle>)
    requires Kept(c, s)
    ensures var r := RunFrom(c, s, reply, os);
            Sound(c, r.s) && (r.success ==> r.s.state == Done)
    decreases |os|
  {
    hide Step;
    if !Terminal(s) && os != [] {
      StepKeeps(c, s, reply, os[0]);
      var out := Step(c, s, reply, os[0]);
      if out.ending.Reply? {
        RunFromKeeps(c, out.s, out.ending.data, os[1..]);
      }
    }
  }

  /** The invariant holds of the state in which any run, against any server, stops. */
  lemma RunKeeps(c: Config, authenticator: Octets16, os: seq<Oracle>)
    ensures var r := Run(c, authenticator, os);
            Sound(c, r.s) && (r.success ==> r.s.state == Done)
  {
    hide Perform, RunFrom;
    var s := Initial(authenticator);
    assert Kept(c, s);
    if os != [] {
      PerformAgrees(c, Reaction(s, SendIdentity), os[0]);
      var out := Perform(c, Reaction(s, SendIdentity), os[0]);
      if out.ending.Reply? {
        RunFromKeeps(c, out.s, out.ending.data, os[1..]);
      }
    }
  }
}
