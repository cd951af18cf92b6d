/** The session's key fields against the key schedule of section 6.2 of RFC 9930: two
    independent S-IMCK chains, each a fold of IMCK over the derivations made. Which method each
    derivation serves is SessionRuns.DerivationsServeMethods. */
module KeySchedule {
  import opened Bytes
  import opened Crypto
  import opened SessionSpec
  import opened SessionSafety
  import CB = CryptoBinding

  // ── The RFC's derivations ──

  /** "Inner Methods Compound Keys" */
  const LABEL: bytes := [
    73, 110, 110, 101, 114, 32, 77, 101, 116, 104, 111, 100, 115, 32, 67, 111, 109, 112, 111, 117,
    110, 100, 32, 75, 101, 121, 115]

  /** "TEAPbindkey@ietf.org", and the length 64 after a zero octet. */
  const EMSK_SEED: bytes := [
    84, 69, 65, 80, 98, 105, 110, 100, 107, 101, 121, 64, 105, 101, 116, 102, 46, 111, 114, 103,
    0, 0, 64]

  /** The first two blocks of P_hash, section 5 of RFC 5246: 64 octets or more. */
  function TwoBlocks(mac: Mac, secret: bytes, seed: bytes): (r: bytes)
    ensures |r| >= 64
  {
    var a1 := mac(secret, seed);
    var a2 := mac(secret, a1);
    mac(secret, a1 + seed) + mac(secret, a2 + seed)
  }

  /** IMSK_MSK of section 6.2.1: the first 32 octets of the MSK, zeros where it is shorter. */
  function ImskMsk(msk: bytes): (r: bytes)
    ensures |r| == 32
  {
    seq(32, i requires 0 <= i < 32 => if i < |msk| then msk[i] else 0)
  }

  /** IMSK_EMSK of section 6.2.1: 32 octets of TLS-PRF(EMSK, "TEAPbindkey@ietf.org", 0 64). */
  function ImskEmsk(mac: Mac, emsk: bytes): (r: bytes)
    ensures |r| == 32
  {
    mac(emsk, mac(emsk, EMSK_SEED) + EMSK_SEED)[..32]
  }

  lemma LabelsAgree()
    ensures CB.IMCK_LABEL == LABEL
    ensures CB.EMSK_LABEL + [0, 0, 0x40] == EMSK_SEED
  {
    ImckLabelAgrees();
    EmskLabelAgrees();
    assert EMSK_SEED == EMSK_SEED[..20] + [0, 0, 64];
  }

  lemma ImckLabelAgrees()
    ensures CB.IMCK_LABEL == LABEL
  {
    assert |CB.IMCK_LABEL| == |LABEL|;
  }

  lemma EmskLabelAgrees()
    ensures CB.EMSK_LABEL == EMSK_SEED[..20]
  {
    assert |CB.EMSK_LABEL| == 20;
  }

  lemma OneBlock(mac: Mac, secret: bytes, seed: bytes)
    ensures CB.PHash(mac, secret, seed, 1) == mac(secret, mac(secret, seed) + seed)
  {
    assert CB.A(mac, secret, seed, 1) == mac(secret, CB.A(mac, secret, seed, 0));
    assert CB.PHash(mac, secret, seed, 1)
        == CB.PHash(mac, secret, seed, 0) + mac(secret, CB.A(mac, secret, seed, 1) + seed);
  }

  lemma NextBlock(mac: Mac, secret: bytes, seed: bytes)
    ensures CB.PHash(mac, secret, seed, 2) == TwoBlocks(mac, secret, seed)
  {
    OneBlock(mac, secret, seed);
    assert CB.A(mac, secret, seed, 1) == mac(secret, CB.A(mac, secret, seed, 0));
    assert CB.A(mac, secret, seed, 2) == mac(secret, CB.A(mac, secret, seed, 1));
    assert CB.PHash(mac, secret, seed, 2)
        == CB.PHash(mac, secret, seed, 1) + mac(secret, CB.A(mac, secret, seed, 2) + seed);
  }

  /** The source's IMSKs are the RFC's. */
  lemma ImsksAgree(mac: Mac, key: bytes)
    ensures CB.Imsk(key) == ImskMsk(key)
    ensures CB.EmskImsk(mac, key) == ImskEmsk(mac, key)
  {
    hide CB.PHash;
    LabelsAgree();
    OneBlock(mac, key, EMSK_SEED);
    CB.PrfIsPrefix(mac, key, CB.EMSK_LABEL, [0, 0, 0x40], 1, 32);
  }

  /** One step of an S-IMCK chain: the hash in force and the 32-octet IMSK[j]. */
  datatype Input = Input(alg: HashAlg, imsk: bytes)

  /** IMCK[j] = the first 60 octets of TLS-PRF(S-IMCK[j-1], "Inner Methods Compound Keys", IMSK[j]),
      section 6.2.2. */
  function Imck(c: Config, sImck: bytes, input: Input): (r: bytes)
    ensures |r| == 60
  {
    TwoBlocks(c.prims.hmac(input.alg), sImck, LABEL + input.imsk)[..60]
  }

  /** S-IMCK[n]: the seed, or the first 40 octets of IMCK[n]. */
  function SImck(c: Config, seed: bytes, inputs: seq<Input>): (r: bytes)
    ensures |seed| == 40 ==> |r| == 40
  {
    if inputs == [] then seed
    else Imck(c, SImck(c, seed, inputs[..|inputs| - 1]), inputs[|inputs| - 1])[..40]
  }

  /** CMK[n]: the last 20 octets of IMCK[n]. */
  function Cmk(c: Config, seed: bytes, inputs: seq<Input>): (r: bytes)
    requires inputs != []
    ensures |r| == 20
  {
    Imck(c, SImck(c, seed, inputs[..|inputs| - 1]), inputs[|inputs| - 1])[40..]
  }

  /** IMSK_MSK of every derivation. */
  function MskInputs(h: seq<Event>): seq<Input> {
    if h == [] then []
    else
      MskInputs(h[..|h| - 1])
      + match h[|h| - 1]
        case Derived(alg, _, msk, _) => [Input(alg, ImskMsk(msk))]
        case _ => []
  }

  /** IMSK_EMSK of those derivations that had an EMSK. */
  function EmskInputs(c: Config, h: seq<Event>): seq<Input> {
    if h == [] then []
    else
      EmskInputs(c, h[..|h| - 1])
      + match h[|h| - 1]
        case Derived(alg, _, _, Some(emsk)) =>
          [Input(alg, ImskEmsk(c.prims.hmac(alg), emsk))]
        case _ => []
  }

  predicate LastHadEmsk(h: seq<Event>) {
    h != []
    && (if h[|h| - 1].Derived? then h[|h| - 1].emsk.Some? else LastHadEmsk(h[..|h| - 1]))
  }

  /** The session key seed the first derivation started from. */
  function FirstSeed(h: seq<Event>): bytes {
    if h == [] then []
    else
      var before := h[..|h| - 1];
      if MskInputs(before) != [] then FirstSeed(before)
      else if h[|h| - 1].Derived? then h[|h| - 1].from
      else []
  }

  /** The keys that chains over these inputs call for. */
  function Scheduled(c: Config, seed: bytes, msks: seq<Input>, emsks: seq<Input>, lastHadEmsk: bool)
    : Keys
  {
    if msks == [] then NOTHING_YET.keys
    else
      Keys(SImck(c, seed, msks), SImck(c, seed, emsks), Cmk(c, seed, msks),
           if lastHadEmsk && emsks != [] then Cmk(c, seed, emsks) else [])
  }

  lemma {:induction false} EmskInputsFit(c: Config, h: seq<Event>)
    ensures MskInputs(h) == [] ==> EmskInputs(c, h) == []
    ensures LastHadEmsk(h) ==> EmskInputs(c, h) != []
  {
    if h != [] {
      EmskInputsFit(c, h[..|h| - 1]);
    }
  }

  lemma Another(c: Config, seed: bytes, inputs: seq<Input>, input: Input)
    ensures SImck(c, seed, inputs + [input]) == Imck(c, SImck(c, seed, inputs), input)[..40]
    ensures Cmk(c, seed, inputs + [input]) == Imck(c, SImck(c, seed, inputs), input)[40..]
  {
    assert (inputs + [input])[..|inputs|] == inputs;
  }

  /** The source's compute_imck on a 40-octet chain value is IMCK[j] of the RFC. */
  lemma ImckAgrees(c: Config, alg: HashAlg, sImck: bytes, isk: bytes)
    requires |sImck| == 40
    ensures CB.Imck(c.prims.hmac(alg), sImck, isk) == Imck(c, sImck, Input(alg, ImskMsk(isk)))
  {
    hide CB.PHash, TwoBlocks;
    var mac := c.prims.hmac(alg);
    assert Take(sImck, 40) == sImck;
    LabelsAgree();
    ImsksAgree(mac, isk);
    NextBlock(mac, sImck, LABEL + ImskMsk(isk));
    CB.PrfIsPrefix(mac, sImck, CB.IMCK_LABEL, CB.Imsk(isk), 2, 60);
  }

  /** One derivation from keys that already meet the schedule. */
  lemma DerivedAgrees(c: Config, k: Keys, alg: HashAlg, seed: bytes, msk: bytes,
                      emsk: Option<bytes>)
    requires |k.sImck| == 40 && |k.sImckEmsk| == 40
    ensures var after := Advance(c.prims.hmac(alg), k, seed, msk, emsk);
            var imck := Imck(c, k.sImck, Input(alg, ImskMsk(msk)));
            && after.sImck == imck[..40] && after.cmk == imck[40..]
            && (emsk.None? ==> after.sImckEmsk == k.sImckEmsk && after.emskCmk == [])
            && (emsk.Some? ==>
                  var e := Imck(c, k.sImckEmsk,
                                Input(alg, ImskEmsk(c.prims.hmac(alg), emsk.value)));
                  after.sImckEmsk == e[..40] && after.emskCmk == e[40..])
  {
    hide Imck, CB.Imck, CB.EmskImsk, ImskEmsk;
    ImckAgrees(c, alg, k.sImck, Take(msk, 32));
    assert ImskMsk(Take(msk, 32)) == ImskMsk(msk);
    if emsk.Some? {
      ImsksAgree(c.prims.hmac(alg), emsk.value);
      var imsk := ImskEmsk(c.prims.hmac(alg), emsk.value);
      ImckAgrees(c, alg, k.sImckEmsk, imsk);
      assert ImskMsk(imsk) == imsk;
    }
  }

  /** The first derivation starts both chains from the seed. */
  lemma FirstDerivedAgrees(c: Config, alg: HashAlg, seed: bytes, msk: bytes, emsk: Option<bytes>)
    requires |seed| == 40
    ensures Advance(c.prims.hmac(alg), NOTHING_YET.keys, seed, msk, emsk)
         == Advance(c.prims.hmac(alg), Keys(seed, seed, [], []), seed, msk, emsk)
  {
    assert Take(seed, 40) == seed;
  }

  /** What a derivation adds to the inputs of each chain. */
  function MskInput(e: Event): Input
    requires e.Derived?
  {
    Input(e.alg, ImskMsk(e.msk))
  }

  function EmskInput(c: Config, e: Event): Input
    requires e.Derived? && e.emsk.Some?
  {
    Input(e.alg, ImskEmsk(c.prims.hmac(e.alg), e.emsk.value))
  }

  lemma DerivedScheduled(c: Config, seed: bytes, msks: seq<Input>, emsks: seq<Input>, last: bool,
                         e: Event)
    requires e.Derived? && |seed| == 40
    requires if msks == [] then e.from == seed && emsks == [] else true
    ensures Advance(c.prims.hmac(e.alg), Scheduled(c, seed, msks, emsks, last), e.from, e.msk, e.emsk)
         == Scheduled(c, seed, msks + [MskInput(e)],
                      if e.emsk.Some? then emsks + [EmskInput(c, e)] else emsks, e.emsk.Some?)
  {
    var k := Scheduled(c, seed, msks, emsks, last);
    var start := if msks == [] then Keys(seed, seed, [], []) else k;
    Another(c, seed, msks, MskInput(e));
    if e.emsk.Some? {
      Another(c, seed, emsks, EmskInput(c, e));
    }
    FirstDerivedAgrees(c, e.alg, seed, e.msk, e.emsk);
    DerivedAgrees(c, start, e.alg, e.from, e.msk, e.emsk);
    StartedAlready(c, start, e);
  }

  /** Chains that have started take nothing more from the seed. */
  lemma StartedAlready(c: Config, k: Keys, e: Event)
    requires e.Derived? && k.sImck != []
    ensures forall seed :: Advance(c.prims.hmac(e.alg), k, seed, e.msk, e.emsk)
                        == Advance(c.prims.hmac(e.alg), k, e.from, e.msk, e.emsk)
  {
  }

  lemma OtherEventsAddNoInput(c: Config, h: seq<Event>)
    requires h != [] && !h[|h| - 1].Derived?
    ensures var before := h[..|h| - 1];
            && MskInputs(h) == MskInputs(before) && EmskInputs(c, h) == EmskInputs(c, before)
            && LastHadEmsk(h) == LastHadEmsk(before)
            && (MskInputs(before) != [] ==> FirstSeed(h) == FirstSeed(before))
  {
    hide ImskMsk, ImskEmsk;
  }

  lemma OtherEventsKeepKeys(c: Config, h: seq<Event>)
    requires h != [] && !h[|h| - 1].Derived?
    ensures Replay(c, h).keys == Replay(c, h[..|h| - 1]).keys
    ensures Replay(c, h).rounds == Replay(c, h[..|h| - 1]).rounds
  {
    hide After;
    AfterKeepsKeys(c, Replay(c, h[..|h| - 1]), h[|h| - 1]);
  }

  lemma AfterKeepsKeys(c: Config, t: Summary, e: Event)
    requires !e.Derived?
    ensures After(c, t, e).keys == t.keys && After(c, t, e).rounds == t.rounds
  {
  }

  lemma OtherEventsAddNothing(c: Config, h: seq<Event>)
    requires h != [] && !h[|h| - 1].Derived?
    ensures var before := h[..|h| - 1];
            Scheduled(c, FirstSeed(h), MskInputs(h), EmskInputs(c, h), LastHadEmsk(h))
            == Scheduled(c, FirstSeed(before), MskInputs(before), EmskInputs(c, before),
                         LastHadEmsk(before))
  {
    hide MskInputs, EmskInputs, LastHadEmsk, FirstSeed, SImck, Cmk;
    OtherEventsAddNoInput(c, h);
  }

  lemma DerivationsAdd(c: Config, h: seq<Event>)
    requires h != [] && h[|h| - 1].Derived?
    ensures var before, e := h[..|h| - 1], h[|h| - 1];
            && MskInputs(h) == MskInputs(before) + [MskInput(e)]
            && EmskInputs(c, h) == (if e.emsk.Some? then EmskInputs(c, before) + [EmskInput(c, e)]
                                    else EmskInputs(c, before))
            && LastHadEmsk(h) == e.emsk.Some?
            && FirstSeed(h) == (if MskInputs(before) != [] then FirstSeed(before) else e.from)
            && Replay(c, h).rounds == Replay(c, before).rounds + 1
            && Replay(c, h).keys
            == Advance(c.prims.hmac(e.alg), Replay(c, before).keys, e.from, e.msk, e.emsk)
  {
    hide Advance, ImskMsk, ImskEmsk;
  }

  lemma NothingScheduled(c: Config)
    ensures Scheduled(c, FirstSeed([]), MskInputs([]), EmskInputs(c, []), LastHadEmsk([]))
         == NOTHING_YET.keys
    ensures MskInputs([]) == []
  {
  }

  /** The keys a legal history replays to are the scheduled ones. */
  lemma {:induction false} ReplayIsScheduled(c: Config, h: seq<Event>)
    requires Legal(c, h)
    ensures Replay(c, h).keys
         == Scheduled(c, FirstSeed(h), MskInputs(h), EmskInputs(c, h), LastHadEmsk(h))
    ensures Replay(c, h).rounds == |MskInputs(h)|
    ensures MskInputs(h) != [] ==> |FirstSeed(h)| == 40
  {
    hide Advance, SImck, Cmk, EmskInputs, LastHadEmsk;
    NothingScheduled(c);
    if h != [] {
      var before, e := h[..|h| - 1], h[|h| - 1];
      ReplayIsScheduled(c, before);
      if e.Derived? {
        DerivationsAdd(c, h);
        EmskInputsFit(c, before);
        DerivedScheduled(c, FirstSeed(h), MskInputs(before), EmskInputs(c, before),
                         LastHadEmsk(before), e);
      } else {
        OtherEventsAddNoInput(c, h);
        OtherEventsKeepKeys(c, h);
        OtherEventsAddNothing(c, h);
      }
    }
  }

  // ── Runs ──

  /** Whether another outer tunnel came up after keys were first derived. */
  predicate Reseeded(h: seq<Event>) {
    h != []
    && (Reseeded(h[..|h| - 1]) || (h[|h| - 1].Up? && MskInputs(h[..|h| - 1]) != []))
  }

  /** The session key seed of the outer tunnel that came up last. */
  function LastSeed(h: seq<Event>): bytes {
    if h == [] then [] else if h[|h| - 1].Up? then h[|h| - 1].seed else LastSeed(h[..|h| - 1])
  }

  lemma {:induction false} ReplaySeed(c: Config, h: seq<Event>)
    ensures Replay(c, h).seed == LastSeed(h)
  {
    hide After;
    if h != [] {
      ReplaySeed(c, h[..|h| - 1]);
      AfterSeed(c, Replay(c, h[..|h| - 1]), h[|h| - 1]);
    }
  }

  lemma AfterSeed(c: Config, t: Summary, e: Event)
    ensures After(c, t, e).seed == if e.Up? then e.seed else t.seed
  {
    hide Advance;
  }

  /** The chains start from the seed in force unless another tunnel came up since the first
      derivation. */
  lemma {:induction false} SeedInForce(c: Config, h: seq<Event>)
    requires Legal(c, h)
    ensures MskInputs(h) != [] && !Reseeded(h) ==> FirstSeed(h) == LastSeed(h)
  {
    hide Replay, MskInputs, FirstSeed;
    if h == [] {
      assert MskInputs([]) == [] by { NothingScheduled(c); }
    } else {
      SeedInForce(c, h[..|h| - 1]);
      if h[|h| - 1].Derived? {
        DerivationsAdd(c, h);
        ReplaySeed(c, h[..|h| - 1]);
      } else {
        OtherEventsAddNoInput(c, h);
      }
    }
  }

  /** The events before the first derivation. */
  function BeforeFirst(h: seq<Event>): seq<Event> {
    if h == [] then []
    else
      var before := h[..|h| - 1];
      if MskInputs(before) != [] then BeforeFirst(before)
      else if h[|h| - 1].Derived? then before
      else h
  }

  /** The first derivation takes the seed of the tunnel that is up when it is made. */
  lemma {:induction false} FirstSeedInForce(c: Config, h: seq<Event>)
    requires Legal(c, h)
    ensures MskInputs(h) != [] ==> FirstSeed(h) == LastSeed(BeforeFirst(h))
  {
    hide Replay, MskInputs, LastSeed;
    if h == [] {
      NothingScheduled(c);
    } else {
      FirstSeedInForce(c, h[..|h| - 1]);
      if h[|h| - 1].Derived? {
        ReplaySeed(c, h[..|h| - 1]);
      } else {
        OtherEventsAddNoInput(c, h);
      }
    }
  }

  /** Section 6.2: after any run, S-IMCK and CMK are the fold of IMCK over the MSKs of all
      derivations, S-IMCK of the EMSK chain is the fold over only those that had an EMSK, the EMSK
      CMK is there exactly when the last one did, and the lengths are always 40 and 20. Both
      chains start from the seed of the last tunnel before the first derivation, and the session's
      seed is that of the last tunnel of all: they are the same seed exactly when those two
      tunnels gave the same, as they do unless one came up after the first derivation. */
  lemma RunFollowsTheSchedule(c: Config, authenticator: Octets16, os: seq<Oracle>)
    ensures var s := Run(c, authenticator, os).s;
            var seed, msks, emsks := LastSeed(BeforeFirst(s.history)), MskInputs(s.history),
                                     EmskInputs(c, s.history);
            && s.rounds == |msks| && s.seed == LastSeed(s.history)
            && (s.rounds == 0 ==> s.keys == Keys([], [], [], []))
            && (s.rounds >= 1 ==>
                && |seed| == 40
                && (!Reseeded(s.history) ==> seed == s.seed)
                && s.keys.sImck == SImck(c, seed, msks)
                && s.keys.cmk == Cmk(c, seed, msks)
                && s.keys.sImckEmsk == SImck(c, seed, emsks)
                && (LastHadEmsk(s.history) ==>
                      emsks != [] && s.keys.emskCmk == Cmk(c, seed, emsks))
                && |s.keys.sImck| == |s.keys.sImckEmsk| == 40 && |s.keys.cmk| == 20
                && |s.keys.emskCmk| == (if LastHadEmsk(s.history) then 20 else 0))
  {
    hide Run, Legal, BeforeFirst, LastSeed;
    RunKeeps(c, authenticator, os);
    var h := Run(c, authenticator, os).s.history;
    ReplayIsScheduled(c, h);
    EmskInputsFit(c, h);
    SeedInForce(c, h);
    ReplaySeed(c, h);
    FirstSeedInForce(c, h);
  }

  /** When another tunnel comes up after keys were derived, the session takes its seed, and every
      key stays where the fold from the earlier seed left it. */
  lemma ChainsOutliveTheirSeed(c: Config, s: Protocol, data: bytes, second: Octets40, o: Oracle)
    requires Kept(c, s) && s.rounds >= 1 && s.outer.Some?
    requires o.outerFeed(data).Continued? && o.outerFeed(data).tunnel.established
    requires o.outerFeed(data).outgoing == [] && o.pending == Ok([])
    requires o.exportSeed == Ok(second)
    ensures var t := HandshakeStep(c, s, data, o).s;
            && t.history == s.history + [Up(second, AlgOf(t))] && Reseeded(t.history)
            && t.seed == second && t.keys == s.keys
            && FirstSeed(t.history) == FirstSeed(s.history)
            && t.keys.sImck == SImck(c, FirstSeed(s.history), MskInputs(t.history))
  {
    hide Legal, Replay, MskInputs, FirstSeed, SImck;
    var t := HandshakeStep(c, s, data, o).s;
    ReplayIsScheduled(c, s.history);
    assert t.history[..|t.history| - 1] == s.history;
    OtherEventsAddNoInput(c, t.history);
  }

  /** compute_session_keys gives what the first derivation gives on the seed cut to 40 octets, or
      filled up with zeros to as many. */
  lemma SessionKeysAgree(mac: Mac, seed: bytes, msk: bytes)
    ensures var filled: bytes := seq(40, i requires 0 <= i < 40 => if i < |seed| then seed[i] else 0);
            var k := MskStep(mac, Started(NOTHING_YET.keys, filled), msk);
            CB.SessionKeys(mac, seed, msk) == (k.sImck, k.cmk)
  {
    var filled: bytes := seq(40, i requires 0 <= i < 40 => if i < |seed| then seed[i] else 0);
    var s0 := Take(seed, 40);
    assert Take(filled, 40) == filled;
    assert filled == if |s0| < 40 then s0 + Zeros(40 - |s0|) else s0;
    assert CB.Imsk(Take(msk, 32)) == CB.Imsk(if msk != [] then Take(msk, 32) else Zeros(32));
  }
}
