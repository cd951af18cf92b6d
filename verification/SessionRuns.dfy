/** What a whole run promises, for every server and every answer of the world. */
module SessionRuns {
  import opened Bytes
  import opened Crypto
  import opened SessionSpec
  import opened SessionSafety
  import Tlv
  import CB = CryptoBinding

  // ── Success is earned ──

  /** A Verified event at `i`: its Binding Request was the Crypto-Binding of the message heard
      last, and genuine, under the keys derived before it and the hash and outer TLVs of the
      tunnel then up. */
  predicate VerifiedAt(c: Config, h: seq<Event>, i: nat) {
    i < |h| && h[i].Verified?
    && Genuine(c, h[i].alg, h[i].cb, h[i].serverOuter, h[i].cmk, h[i].emskCmk)
    && var t := Replay(c, h[..i]);
       && h[i].cmk == t.keys.cmk && h[i].emskCmk == t.keys.emskCmk
       && h[i].alg == t.standing.alg && h[i].serverOuter == t.serverOuter
       && Told(t.inbox, Tlv.CRYPTO_BINDING) == Some(h[i].cb)
  }

  predicate DerivedAt(h: seq<Event>, i: nat) { i < |h| && h[i].Derived? }

  /** An Acknowledged event at `i`: the message heard last said Result(Success). */
  predicate AcknowledgedAt(c: Config, h: seq<Event>, i: nat) {
    i < |h| && h[i].Acknowledged? && SaysSuccess(Told(Replay(c, h[..i]).inbox, Tlv.RESULT))
  }

  lemma {:induction false} LegalPrefix(c: Config, h: seq<Event>, i: nat)
    requires Legal(c, h) && i < |h|
    ensures Legal(c, h[..i]) && Admissible(c, Replay(c, h[..i]), h[i])
  {
    if i < |h| - 1 {
      var before := h[..|h| - 1];
      LegalPrefix(c, before, i);
      assert before[..i] == h[..i] && before[i] == h[i];
    }
  }

  lemma {:induction false} FindDerived(c: Config, h: seq<Event>) returns (i: nat)
    requires Replay(c, h).rounds >= 1
    ensures DerivedAt(h, i)
  {
    i := |h| - 1;
    if !h[i].Derived? {
      i := FindDerived(c, h[..|h| - 1]);
    }
  }

  lemma {:induction false} FindVerified(c: Config, h: seq<Event>) returns (i: nat)
    requires Replay(c, h).verified
    ensures i < |h| && h[i].Verified?
  {
    i := |h| - 1;
    if !h[i].Verified? {
      i := FindVerified(c, h[..|h| - 1]);
    }
  }

  lemma {:induction false} FindAcknowledged(c: Config, h: seq<Event>) returns (i: nat)
    requires Replay(c, h).acknowledged
    ensures i < |h| && h[i].Acknowledged?
  {
    i := |h| - 1;
    if !h[i].Acknowledged? {
      i := FindAcknowledged(c, h[..|h| - 1]);
    }
  }

  /** What verified a binding, and the derivation before it. */
  lemma BindingEarned(c: Config, h: seq<Event>) returns (d: nat, v: nat)
    requires Legal(c, h) && Replay(c, h).verified
    ensures d < v && DerivedAt(h, d) && VerifiedAt(c, h, v)
  {
    hide Genuine, Told;
    v := FindVerified(c, h);
    LegalPrefix(c, h, v);
    d := FindDerived(c, h[..v]);
  }

  /** Keys were derived, then a Compound MAC in a message of a tunnel was recomputed under the
      keys, hash and outer TLVs of that moment and matched, then a Result(Success) was
      acknowledged. Section 3.6.6 of RFC 9930 has the two in one tunnel; whether they are is
      ResultInBoundTunnelExactlyWhen. */
  ghost predicate Earned(c: Config, h: seq<Event>) {
    exists d: nat, v: nat, a: nat ::
      d < v < a && DerivedAt(h, d) && VerifiedAt(c, h, v) && AcknowledgedAt(c, h, a)
  }

  lemma {:induction false} VerifiedReplays(c: Config, h: seq<Event>, v: nat)
    requires v < |h| && h[v].Verified?
    ensures Replay(c, h).verified
  {
    if v < |h| - 1 {
      VerifiedReplays(c, h[..|h| - 1], v);
    }
  }

  lemma ResultEarned(c: Config, h: seq<Event>)
    requires Legal(c, h) && Replay(c, h).acknowledged
    ensures Earned(c, h) && Replay(c, h).verified
  {
    hide Genuine, Replay, Told;
    var a := FindAcknowledged(c, h);
    LegalPrefix(c, h, a);
    var d, v := BindingEarned(c, h[..a]);
    assert h[..a][..v] == h[..v];
    assert DerivedAt(h, d) && VerifiedAt(c, h, v) && AcknowledgedAt(c, h, a);
    VerifiedReplays(c, h, v);
  }

  /** Every plaintext heard is one that the outer tunnel gave in some step of the run. */
  ghost predicate AllFrom(inbox: seq<bytes>, os: seq<Oracle>) {
    forall p :: p in inbox ==> exists o :: o in os && FromTunnel(o, p)
  }

  lemma TakesOne(before: seq<bytes>, after: seq<bytes>, o: Oracle, p: bytes)
    requires Takes(before, after, o) && p in after
    ensures p in before || FromTunnel(o, p)
  {
  }

  lemma StepHears(c: Config, s: Protocol, reply: bytes, o: Oracle)
    requires Kept(c, s)
    ensures Takes(s.inbox, Step(c, s, reply, o).s.inbox, o)
  {
    hide React, Perform;
    ReactKeeps(c, s, reply, o);
    PerformAgrees(c, React(c, s, reply, o), o);
  }

  lemma {:induction false} RunFromHears(c: Config, s: Protocol, reply: bytes, os: seq<Oracle>,
                                        p: bytes)
    requires Kept(c, s) && p in RunFrom(c, s, reply, os).s.inbox
    ensures p in s.inbox || exists o :: o in os && FromTunnel(o, p)
    decreases |os|
  {
    hide Step, FromTunnel;
    if !Terminal(s) && os != [] {
      var out := Step(c, s, reply, os[0]);
      StepKeeps(c, s, reply, os[0]);
      StepHears(c, s, reply, os[0]);
      if out.ending.Reply? {
        RunFromHears(c, out.s, out.ending.data, os[1..], p);
      }
      if p in out.s.inbox {
        TakesOne(s.inbox, out.s.inbox, os[0], p);
      }
    }
  }

  lemma RunHears(c: Config, authenticator: Octets16, os: seq<Oracle>)
    ensures AllFrom(Run(c, authenticator, os).s.inbox, os)
  {
    hide Perform, RunFrom, FromTunnel;
    var s := Initial(authenticator);
    if os != [] {
      PerformAgrees(c, Reaction(s, SendIdentity), os[0]);
      var out := Perform(c, Reaction(s, SendIdentity), os[0]);
      if out.ending.Reply? {
        forall p | p in Run(c, authenticator, os).s.inbox
          ensures exists o :: o in os && FromTunnel(o, p)
        {
          RunFromHears(c, out.s, out.ending.data, os[1..], p);
        }
      }
    }
  }

  /** No server makes a run report success, reach DONE or acknowledge a Result without that. */
  lemma SuccessIsEarned(c: Config, authenticator: Octets16, os: seq<Oracle>)
    ensures var r := Run(c, authenticator, os);
            && (r.success ==> r.s.state == Done)
            && (r.s.state == Done ==> r.s.acknowledged)
            && (r.s.acknowledged ==> r.s.bindingDone && Earned(c, r.s.history))
            && (r.s.bindingDone ==> exists v: nat :: VerifiedAt(c, r.s.history, v))
            && Replay(c, r.s.history).inbox == r.s.inbox && AllFrom(r.s.inbox, os)
  {
    hide Run, Legal, Earned;
    RunKeeps(c, authenticator, os);
    RunHears(c, authenticator, os);
    var s := Run(c, authenticator, os).s;
    if s.bindingDone {
      var _, _ := BindingEarned(c, s.history);
    }
    if s.acknowledged {
      ResultEarned(c, s.history);
    }
  }

  // ── Which tunnel a Result is acknowledged in ──

  /** Whether a binding was verified in the tunnel that came up last. */
  predicate BoundSinceUp(h: seq<Event>) {
    h != []
    && (if h[|h| - 1].Verified? then true
        else if h[|h| - 1].Up? then false
        else BoundSinceUp(h[..|h| - 1]))
  }

  /** Whether one already had been, when the last message came. */
  predicate BoundWhenHeard(h: seq<Event>) {
    h != []
    && (if h[|h| - 1].Heard? then BoundSinceUp(h[..|h| - 1]) else BoundWhenHeard(h[..|h| - 1]))
  }

  lemma AfterStands(c: Config, t: Summary, e: Event)
    ensures After(c, t, e).standing.bound == (e.Verified? || (!e.Up? && t.standing.bound))
    ensures After(c, t, e).standing.boundBefore
         == if e.Heard? then t.standing.bound else t.standing.boundBefore
  {
    hide Advance;
  }

  lemma {:induction false} ReplayStands(c: Config, h: seq<Event>)
    ensures Replay(c, h).standing.bound == BoundSinceUp(h)
    ensures Replay(c, h).standing.boundBefore == BoundWhenHeard(h)
  {
    hide After;
    if h != [] {
      ReplayStands(c, h[..|h| - 1]);
      AfterStands(c, Replay(c, h[..|h| - 1]), h[|h| - 1]);
    }
  }

  /** In any run the Result acknowledged, its k-th event, came in a tunnel in which a binding was
      verified, as section 3.6.6 of RFC 9930 asks, exactly when the message brought a
      Crypto-Binding too or, before it, no tunnel had come up since the last binding. */
  lemma ResultInBoundTunnelExactlyWhen(c: Config, authenticator: Octets16, os: seq<Oracle>, k: nat)
    ensures var h := Run(c, authenticator, os).s.history;
            k < |h| && h[k].Acknowledged? ==>
              (BoundSinceUp(h[..k])
               <==> Told(Replay(c, h[..k]).inbox, Tlv.CRYPTO_BINDING).Some?
                    || BoundWhenHeard(h[..k]))
  {
    hide Run, Replay, Legal, Told, BoundSinceUp, BoundWhenHeard, Genuine;
    RunKeeps(c, authenticator, os);
    var h := Run(c, authenticator, os).s.history;
    if k < |h| {
      LegalPrefix(c, h, k);
      ReplayStands(c, h[..k]);
    }
  }

  /** Otherwise: a tunnel that comes up after a binding, and whose last flight brings a lone
      Result(Success), sees it acknowledged with no binding of its own. */
  lemma ResultOfAnotherTunnel(c: Config, s: Protocol, data: bytes, second: Octets40, o: Oracle)
    requires s.bindingDone && !s.acknowledged && s.outer.Some?
    requires o.outerFeed(data).Continued? && o.outerFeed(data).tunnel.established
    requires o.outerFeed(data).outgoing == [] && o.exportSeed == Ok(second)
    requires o.pending == Ok(Tlv.ResultTlv(Tlv.SUCCESS))
    ensures var t := HandshakeStep(c, s, data, o).s;
            var before := s.history + [Up(second, AlgOf(t)), Heard(Tlv.ResultTlv(Tlv.SUCCESS))];
            && t.history == before + [Acknowledged] && t.acknowledged
            && !BoundSinceUp(before)
  {
    var result := Tlv.ResultTlv(Tlv.SUCCESS);
    var t := HandshakeStep(c, s, data, o).s;
    LoneResultReads();
    var before := s.history + [Up(second, AlgOf(t)), Heard(result)];
    assert before[..|before| - 1] == s.history + [Up(second, AlgOf(t))];
    assert t.history == s.history + [Up(second, AlgOf(t))] + [Heard(result)] + [Acknowledged];
  }

  /** What the dispatch reads in a message that is a Result(Success) alone. */
  lemma LoneResultReads()
    ensures var tlvs := Tlv.Tlvs(Tlv.ResultTlv(Tlv.SUCCESS));
            && UnsupportedOf(tlvs) == [] && ReadU16([0, 1]) == Ok(Tlv.SUCCESS)
            && Read(tlvs) == Message(None, Some([0, 1]), None, None, None, None)
  {
    var result := Tlv.Tlv(Tlv.RESULT, true, U16(Tlv.SUCCESS));
    OneTlvReads(result);
  }

  /** What the dispatch reads in a message of one TLV. */
  lemma OneTlvReads(t: Tlv.Tlv)
    requires Tlv.WellSized(t)
    ensures Tlv.Tlvs(Tlv.Encoding(t)) == [t]
    ensures forall kind :: Lookup([t], kind) == if t.kind == kind then Some(t.value) else None
    ensures UnsupportedOf([t]) == if Unsupported(t) then [t] else []
  {
    assert Tlv.EncodeAll([t]) == Tlv.Encoding(t) + Tlv.EncodeFrom([t], 1);
    assert Tlv.EncodeAll([t]) == Tlv.Encoding(t);
    Tlv.DecodeInvertsEncode([t], []);
    assert [t][..0] == [] && [t][1..] == [];
  }

  // ── Which message acknowledges ──

  /** A message that makes this peer acknowledge the final Result: Result(Success) without a PAC,
      and either a Crypto-Binding that verifies, with no failed Intermediate-Result beside it, or
      an earlier binding and nothing that the dispatch takes first. */
  predicate EarnsAcknowledgement(c: Config, s: Protocol, m: Message, o: Oracle) {
    && m.pac.None? && SaysSuccess(m.result)
    && if m.binding.Some? then
         (m.intermediate.Some? ==> SaysSuccess(m.intermediate))
         && Bind(c, s, m.binding.value, o).Bound?
       else m.identityType.None? && m.eap.None? && s.bindingDone
  }

  /** Of the eleven ways a message is dispatched, an acknowledgement is reached exactly so. Legs
      play no part: an unbound leg does not stop a Result that comes on its own. */
  lemma AcknowledgesExactlyWhen(c: Config, s: Protocol, m: Message, o: Oracle)
    requires !s.acknowledged
    ensures DispatchMessage(c, s, m, o).s.acknowledged <==> EarnsAcknowledgement(c, s, m, o)
  {
    if m.pac.None? && m.result.Some? && m.binding.Some? {
      if m.intermediate.Some? {
        assert DispatchMessage(c, s, m, o) == LastBindingAndResult(c, s, m, o);
      } else {
        assert DispatchMessage(c, s, m, o) == FinalResult(c, s, m, o);
      }
    }
  }

  /** A leg that was never bound does not keep a lone Result(Success) from being acknowledged. */
  lemma UnboundLegAcknowledged(c: Config, s: Protocol, leg: Leg, o: Oracle)
    requires s.bindingDone && !s.acknowledged && !leg.bound
    ensures var t := s.(legs := s.legs + [leg]);
            var m := Message(None, Some([0, 1]), None, None, None, None);
            var r := DispatchMessage(c, t, m, o);
            r.s.acknowledged && r.s.legs[|s.legs|] == leg
  {
    assert ReadU16([0, 1]) == Ok(Tlv.SUCCESS);
  }

  /** A Result other than success is heeded except where the dispatch takes something else
      first: beside an Identity-Type or EAP-Payload, and with neither a PAC nor a Crypto-Binding,
      it is passed over. In every other case the session fails, or an Intermediate-Result beside
      a Crypto-Binding that cannot be read raises. */
  lemma FailureHeededExactlyWhen(c: Config, s: Protocol, m: Message, o: Oracle)
    requires m.result.Some? && ReadU16(m.result.value).Ok? && !SaysSuccess(m.result)
    ensures var r := DispatchMessage(c, s, m, o);
            if m.pac.None? && m.binding.None? && m.identityType.Some? then
              r == IdentityType(c, s, m.identityType.value, m.eap, [], o)
            else if m.pac.None? && m.binding.None? && m.eap.Some? then
              r == InnerEap(c, s, m.eap.value, [], o)
            else if m.pac.None? && m.binding.Some? && m.intermediate.Some?
                    && ReadU16(m.intermediate.value).Err? then
              r == Reaction(s, Raise(PackError))
            else r.s.state == Failed
  {
  }

  /** Result(Failure) beside an Identity-Type of a held credential: the session goes on. */
  lemma FailurePassedOver(c: Config, s: Protocol, o: Oracle)
    requires HasCredential(c, USER)
    ensures var m := Message(Some([0, 1]), Some([0, 2]), None, None, None, None);
            && ReadU16(m.result.value) == Ok(Tlv.FAILURE)
            && DispatchMessage(c, s, m, o)
            == Reaction(Adopted(s, USER), Encrypted(Tlv.IdentityTypeTlv(USER)))
            && Adopted(s, USER).state == InnerIdentity
  {
    var m := Message(Some([0, 1]), Some([0, 2]), None, None, None, None);
    FailureHeededExactlyWhen(c, s, m, o);
    assert ReadU16([0, 1]) == Ok(USER);
    assert [] + Tlv.IdentityTypeTlv(USER) == Tlv.IdentityTypeTlv(USER);
  }

  // ── A verdict stands ──

  lemma {:induction false} RunFromStands(c: Config, s: Protocol, reply: bytes, os: seq<Oracle>,
                                         more: seq<Oracle>)
    ensures Terminal(RunFrom(c, s, reply, os).s) ==>
              RunFrom(c, s, reply, os + more) == RunFrom(c, s, reply, os)
    decreases |os|
  {
    hide Step;
    if !Terminal(s) && os != [] {
      var out := Step(c, s, reply, os[0]);
      assert (os + more)[0] == os[0] && (os + more)[1..] == os[1..] + more;
      if out.ending.Reply? {
        RunFromStands(c, out.s, out.ending.data, os[1..], more);
      }
    }
  }

  /** A run that has reached DONE or FAILED is over: whatever the server sends next, the state
      and the verdict stay, and FAILED is never reported as success. */
  lemma VerdictStands(c: Config, authenticator: Octets16, os: seq<Oracle>, more: seq<Oracle>)
    ensures Terminal(Run(c, authenticator, os).s) ==>
              && Run(c, authenticator, os + more) == Run(c, authenticator, os)
              && (Run(c, authenticator, os).s.state == Failed ==>
                    !Run(c, authenticator, os + more).success)
  {
    hide Perform, RunFrom;
    var s := Initial(authenticator);
    RunKeeps(c, authenticator, os);
    if os != [] {
      assert (os + more)[0] == os[0] && (os + more)[1..] == os[1..] + more;
      var out := Perform(c, Reaction(s, SendIdentity), os[0]);
      if out.ending.Reply? {
        RunFromStands(c, out.s, out.ending.data, os[1..], more);
      }
    }
  }

  // ── Legs and rounds ──

  /** Bound legs never outnumber key derivations, nor derivations the legs (one derivation may
      precede every leg); and every derivation is one in the history. */
  lemma LegsAndRounds(c: Config, authenticator: Octets16, os: seq<Oracle>)
    ensures var s := Run(c, authenticator, os).s;
            && BoundLegs(s.legs) <= s.rounds <= Max(1, |s.legs|)
            && s.rounds == Derivations(s.history)
  {
    hide Run, Replay;
    RunKeeps(c, authenticator, os);
    RoundsAreDerivations(c, Run(c, authenticator, os).s.history);
  }

  function Derivations(h: seq<Event>): nat {
    if h == [] then 0 else Derivations(h[..|h| - 1]) + (if h[|h| - 1].Derived? then 1 else 0)
  }

  lemma {:induction false} RoundsAreDerivations(c: Config, h: seq<Event>)
    ensures Replay(c, h).rounds == Derivations(h)
  {
    hide After;
    if h != [] {
      RoundsAreDerivations(c, h[..|h| - 1]);
      AfterReads(c, Replay(c, h[..|h| - 1]), h[|h| - 1]);
    }
  }

  lemma DerivationsOfAnother(h: seq<Event>, e: Event)
    ensures Derivations(h + [e]) == Derivations(h) + (if e.Derived? then 1 else 0)
  {
    assert (h + [e])[..|h|] == h;
  }

  /** A Binding Request derives keys exactly when its fields are valid and it is the first one or
      more legs ran than rounds were counted: a leg that follows a first binding without legs is
      bound under the keys of that one. */
  lemma DerivesExactlyWhen(c: Config, s: Protocol, cb: bytes, o: Oracle)
    ensures var derives := CB.ValidRequest(cb) && (|s.legs| > s.rounds || s.rounds == 0);
            var b := Bind(c, s, cb, o);
            && Derivations(b.s.history) == Derivations(s.history) + (if derives then 1 else 0)
            && b.s.rounds == s.rounds + (if derives then 1 else 0)
            && (!derives ==> b.s.keys == s.keys)
  {
    if CB.ValidRequest(cb) {
      var k := Keyed(c, s, o);
      KeyedDerives(c, s, o);
      BoundByDerivesNothing(k, AlgOf(s), cb);
    }
  }

  /** The first method after a binding without legs gives no keys of its own. */
  lemma MethodWithoutKeys(c: Config, s: Protocol, how: Method, identity: bytes, msk: bytes,
                          cb: bytes, o: Oracle)
    requires s.rounds == 1 && s.legs == []
    ensures Bind(c, MethodOver(s, how, identity, msk), cb, o).s.keys == s.keys
    ensures Bind(c, MethodOver(s, how, identity, msk), cb, o).s.rounds == 1
  {
    hide Bind;
    DerivesExactlyWhen(c, MethodOver(s, how, identity, msk), cb, o);
  }

  lemma KeyedDerives(c: Config, s: Protocol, o: Oracle)
    ensures var k := Keyed(c, s, o);
            && Derivations(k.history)
            == Derivations(s.history) + (if |s.legs| > s.rounds || s.rounds == 0 then 1 else 0)
            && k.rounds == s.rounds + (if |s.legs| > s.rounds || s.rounds == 0 then 1 else 0)
            && (|s.legs| <= s.rounds && s.rounds != 0 ==> k.keys == s.keys)
  {
    DerivationsOfAnother(s.history, Derived(AlgOf(s), s.seed, s.innerMsk, EmskOf(s, o)));
  }

  lemma BoundByDerivesNothing(s: Protocol, alg: HashAlg, cb: bytes)
    ensures Derivations(BoundBy(s, alg, cb).history) == Derivations(s.history)
    ensures BoundBy(s, alg, cb).rounds == s.rounds && BoundBy(s, alg, cb).keys == s.keys
  {
    DerivationsOfAnother(s.history, Verified(alg, cb, s.serverOuter, s.keys.cmk, s.keys.emskCmk));
  }

  // ── Which method a derivation serves ──

  /** The MSK of the last method that succeeded, or none. */
  function LastMsk(h: seq<Event>): bytes {
    if h == [] then [] else if h[|h| - 1].Ran? then h[|h| - 1].msk else LastMsk(h[..|h| - 1])
  }

  /** Whether an inner tunnel was opened since an Identity-Type was last settled. */
  predicate InnerOpen(h: seq<Event>) {
    h != []
    && (if h[|h| - 1].InnerOpened? then true
        else if h[|h| - 1].IdentitySettled? then false
        else InnerOpen(h[..|h| - 1]))
  }

  function Methods(h: seq<Event>): nat {
    if h == [] then 0 else Methods(h[..|h| - 1]) + (if h[|h| - 1].Ran? then 1 else 0)
  }

  lemma AfterReads(c: Config, t: Summary, e: Event)
    ensures var u := After(c, t, e);
            && u.msk == (if e.Ran? then e.msk else t.msk)
            && u.legs == t.legs + (if e.Ran? then 1 else 0)
            && u.rounds == t.rounds + (if e.Derived? then 1 else 0)
            && u.inner == (e.InnerOpened? || (!e.IdentitySettled? && t.inner))
  {
    hide Advance;
  }

  lemma {:induction false} ReplayReadsMethods(c: Config, h: seq<Event>)
    ensures Replay(c, h).msk == LastMsk(h) && Replay(c, h).legs == Methods(h)
  {
    hide After;
    if h != [] {
      ReplayReadsMethods(c, h[..|h| - 1]);
      AfterReads(c, Replay(c, h[..|h| - 1]), h[|h| - 1]);
    }
  }

  lemma {:induction false} ReplayReadsInner(c: Config, h: seq<Event>)
    ensures Replay(c, h).inner == InnerOpen(h)
  {
    hide After;
    if h != [] {
      ReplayReadsInner(c, h[..|h| - 1]);
      AfterReads(c, Replay(c, h[..|h| - 1]), h[|h| - 1]);
    }
  }

  lemma ReplayReads(c: Config, h: seq<Event>)
    ensures var t := Replay(c, h);
            && t.msk == LastMsk(h) && t.inner == InnerOpen(h) && t.legs == Methods(h)
            && t.rounds == Derivations(h)
  {
    ReplayReadsMethods(c, h);
    ReplayReadsInner(c, h);
    RoundsAreDerivations(c, h);
  }

  /** What a derivation, the k-th event of a run, takes its keys from: the MSK of the last method
      that succeeded, or none if no method did; for the first binding, or when more methods
      succeeded than derivations were made; and an EMSK only while an inner tunnel was open. */
  lemma DerivationsServeMethods(c: Config, authenticator: Octets16, os: seq<Oracle>, k: nat)
    ensures var s := Run(c, authenticator, os).s;
            && Methods(s.history) == |s.legs|
            && (k < |s.history| && s.history[k].Derived? ==>
                var e, before := s.history[k], s.history[..k];
                && e.msk == LastMsk(before)
                && (e.emsk.Some? ==> InnerOpen(before))
                && (Derivations(before) == 0 || Methods(before) > Derivations(before)))
  {
    hide Run, Replay, Legal;
    RunKeeps(c, authenticator, os);
    var h := Run(c, authenticator, os).s.history;
    ReplayReads(c, h);
    if k < |h| {
      LegalPrefix(c, h, k);
      ReplayReads(c, h[..k]);
    }
  }

  /** After the server's MS-CHAPv2 Success was matched, the keys next derived for it take an EMSK
      exactly when an inner tunnel is still there and gives one: MS-CHAPv2 has none of its own,
      so that EMSK is an earlier method's, whose tunnel only an Identity-Type would have dropped. */
  lemma EmskOfAnotherMethod(c: Config, s: Protocol, payload: bytes, extra: bytes, o: Oracle)
    requires s.mschap.Some? && |s.legs| >= s.rounds
    requires Contains(Drop(payload, 4), ExpectedOf(c, s.mschap.value))
    ensures var t := MschapSuccess(c, s, payload, extra).s;
            var k := Keyed(c, t, o);
            && t.legs[|t.legs| - 1].how == MsChapV2
            && k.history == t.history + [Derived(AlgOf(t), t.seed, t.innerMsk,
                                                 if s.inner.Some? then o.innerEmsk else None)]
            && (k.keys.emskCmk != [] <==> s.inner.Some? && o.innerEmsk.Some?)
  {
    hide CB.Imck, CB.EmskImsk;
  }

  /** A challenge of 16 octets is remembered. */
  lemma ChallengeRemembered(c: Config, s: Protocol, auth: Octets16, id: byte, o: Oracle)
    requires PasswordFor(c, s.identityType) != []
    ensures InnerMschap(c, s, [1, id, 0, 21, 16] + auth, [], o).s
         == s.(mschap := Some(MschapAnswer(c, s, auth, o.peerChallenge, id)))
  {
    hide SendInnerEap, MschapBody, MschapAnswer;
    var payload := [1, id, 0, 21, 16] + auth;
    assert Slice(payload, 5, 21) == auth;
  }

  /** A Success message that holds what the challenge calls for is the method's success. */
  lemma SuccessMatched(c: Config, s: Protocol, id: byte, o: Oracle)
    requires s.mschap.Some?
    ensures var m := s.mschap.value;
            InnerMschap(c, s, [3, id, 0, 4] + ExpectedOf(c, m), [], o).s
            == MethodOver(s, MsChapV2, m.username, c.prims.mschapSessionKey(m.password, m.ntResponse))
  {
    hide SendInnerEap, MethodOver;
    var expected := ExpectedOf(c, s.mschap.value);
    var payload := [3, id, 0, 4] + expected;
    assert Drop(payload, 4) == expected && At(expected, 0, expected);
  }

  /** So it goes after EAP-TLS: its tunnel is still held when the server challenges for MS-CHAPv2,
      shows its Success, and asks for the binding of that method. */
  lemma EmskLeftOver(c: Config, s: Protocol, auth: Octets16, id: byte, cb: bytes, o: Oracle)
    requires s.inner.Some? && o.innerEmsk.Some? && |s.legs| >= s.rounds
    requires LastMethod(s.legs) == Some(EapTls) && PasswordFor(c, s.identityType) != []
    requires CB.ValidRequest(cb)
    ensures var challenged := InnerMschap(c, s, [1, id, 0, 21, 16] + auth, [], o).s;
            && challenged.mschap.Some?
            && var expected := ExpectedOf(c, challenged.mschap.value);
               var ran := InnerMschap(c, challenged, [3, id, 0, 4] + expected, [], o).s;
               var h := Bind(c, ran, cb, o).s.history;
               && LastMethod(ran.legs) == Some(MsChapV2) && |ran.legs| == |s.legs| + 1
               && |ran.history| < |h|
               && h[|ran.history|] == Derived(AlgOf(s), s.seed, ran.innerMsk, o.innerEmsk)
  {
    hide InnerMschap, MschapAnswer, ExpectedOf, BindingResponse, Advance;
    ChallengeRemembered(c, s, auth, id, o);
    SuccessMatched(c, s.(mschap := Some(MschapAnswer(c, s, auth, o.peerChallenge, id))), id, o);
  }

  /** A binding for methods already bound: no key changes, and the same request, sent again to
      any later state with the same keys, outer TLVs and hash, is answered with the same bytes. */
  lemma RepeatedBinding(c: Config, s: Protocol, cb: bytes, o: Oracle, later: Protocol, o': Oracle)
    requires !NeedsKeys(s) && !NeedsKeys(later)
    requires later.keys == s.keys && later.serverOuter == s.serverOuter
    requires AlgOf(later) == AlgOf(s)
    ensures var first, again := Bind(c, s, cb, o), Bind(c, later, cb, o');
            && first.s.keys == s.keys && first.s.rounds == s.rounds
            && again.s.keys == s.keys && again.s.rounds == later.rounds
            && (first.Bound? <==> again.Bound?)
            && (first.Bound? ==> again.response == first.response)
            && !NeedsKeys(first.s)
  {
    BoundLegsOfBindLast(s.legs);
  }

  /** The same request sent again derives keys again exactly when two or more legs had run that no
      round counted, though the first answer marked the last leg bound: it then reuses nothing. */
  lemma RepeatDerivesExactlyWhen(c: Config, s: Protocol, cb: bytes, o: Oracle, o': Oracle)
    requires CB.ValidRequest(cb)
    ensures var first := Bind(c, s, cb, o);
            var again := Bind(c, first.s, cb, o');
            && (first.Bound? && s.legs != [] ==> first.s.legs[|s.legs| - 1].bound)
            && again.s.rounds
            == first.s.rounds + (if |s.legs| > s.rounds + 1 then 1 else 0)
            && Derivations(again.s.history)
            == Derivations(first.s.history) + (if |s.legs| > s.rounds + 1 then 1 else 0)
  {
    hide Derivations, BindingResponse;
    DerivesExactlyWhen(c, s, cb, o);
    DerivesExactlyWhen(c, Bind(c, s, cb, o).s, cb, o');
    BoundLegsOfBindLast(s.legs);
  }
}
