/** Which reply ends a session, and how: section 4.4 of RFC 2865 and section 4.2 of RFC 3748 say
    what the codes mean; nothing but the reply and an acknowledged Result makes a success. */
module Verdict {
  import opened Bytes
  import opened SessionSpec
  import Eap
  import Rad = Radius

  const ACCEPT := 2
  const REJECT := 3
  const CHALLENGE := 11

  /** The EAP packet of a reply reads, if there is one. */
  predicate EapReads(r: Rad.Response) {
    r.eapMessage.Some? && r.eapMessage.value != [] ==> Eap.DecodeEap(r.eapMessage.value).Ok?
  }

  /** The reply carries an EAP packet of this code. */
  predicate EapIs(r: Rad.Response, code: nat) {
    && r.eapMessage.Some? && r.eapMessage.value != []
    && Eap.DecodeEap(r.eapMessage.value).Ok?
    && Eap.DecodeEap(r.eapMessage.value).value.code as int == code
  }

  /** A reply that verifies and has this code. */
  predicate Genuinely(c: Config, s: Protocol, reply: bytes, code: nat) {
    var r := Rad.Decoded(c.prims, reply, c.secret, s.authenticator);
    r.Ok? && r.value.code as int == code
  }

  function Read(c: Config, s: Protocol, reply: bytes): Rad.Response
    requires Rad.Decoded(c.prims, reply, c.secret, s.authenticator).Ok?
  {
    Rad.Decoded(c.prims, reply, c.secret, s.authenticator).value
  }

  /** An Access-Accept, or an Access-Challenge that carries EAP-Success, to a session that has
      acknowledged the Result. */
  predicate Accepts(c: Config, s: Protocol, reply: bytes) {
    && s.acknowledged
    && ((Genuinely(c, s, reply, ACCEPT) && EapReads(Read(c, s, reply)))
        || (Genuinely(c, s, reply, CHALLENGE) && EapIs(Read(c, s, reply), 3)))
  }

  /** An Access-Reject; any code that is no Access-Accept or Access-Challenge; an Access-Challenge
      with no EAP packet, or one that is neither a Request nor a Success; and a success of either
      kind before the Result was acknowledged. */
  predicate Refuses(c: Config, s: Protocol, reply: bytes) {
    && Rad.Decoded(c.prims, reply, c.secret, s.authenticator).Ok?
    && var r := Read(c, s, reply);
       var code, silent := r.code as int, r.eapMessage.None? || r.eapMessage.value == [];
       || (code == REJECT && EapReads(r))
       || (code != ACCEPT && code != REJECT && code != CHALLENGE)
       || (code == ACCEPT && EapReads(r) && !s.acknowledged)
       || (code == CHALLENGE && silent)
       || (code == CHALLENGE && !silent && EapReads(r) && !EapIs(r, 1) && !EapIs(r, 3))
       || (code == CHALLENGE && EapIs(r, 3) && !s.acknowledged)
  }

  // ── One reply ──

  lemma AnsweredVerdict(c: Config, s: Protocol, reply: bytes, o: Oracle)
    requires !Terminal(s)
    ensures React(c, s, reply, o).s.state == Done <==> Accepts(c, s, reply)
    ensures Accepts(c, s, reply) ==> React(c, s, reply, o).action == Stop
    ensures Refuses(c, s, reply) ==>
              React(c, s, reply, o)
              == Reaction(s.(radiusState := Read(c, s, reply).state, state := Failed), Stop)
  {
    hide Rad.Decoded, Eap.DecodeEap, Teap;
  }

  lemma {:induction false} SendFragmentsStays(c: Config, s: Protocol, data: bytes, offset: nat,
                                              k: nat, xs: nat -> Exchanged)
    ensures SendFragments(c, s, data, offset, k, xs).s.state in {s.state, Failed}
    decreases |data| - offset
  {
    hide SendFragment;
    if offset < |data| {
      var sent := SendFragment(c, s, data, offset, xs(k));
      SendFragmentStays(c, s, data, offset, xs(k));
      if sent.more {
        SendFragmentsStays(c, sent.out.s, data, offset + CHUNK, k + 1, xs);
      }
    }
  }

  lemma SendFragmentStays(c: Config, s: Protocol, data: bytes, offset: nat, x: Exchanged)
    ensures var sent := SendFragment(c, s, data, offset, x);
            sent.out.s.state in {s.state, Failed} && (sent.more ==> sent.out.s.state == s.state)
  {
    hide SendPacket, Acked, FragmentPacket;
    var out := SendPacket(c, s, FragmentPacket(s.eapId, data, offset), x);
    SendPacketStays(c, s, FragmentPacket(s.eapId, data, offset), x);
    if out.ending.Reply? {
      AckedStays(c, out.s, out.ending.data);
    }
  }

  lemma AckedStays(c: Config, s: Protocol, reply: bytes)
    ensures Acked(c, s, reply).0.state == s.state
  {
    hide Rad.Decoded, Eap.DecodeEap;
  }

  lemma SendPacketStays(c: Config, s: Protocol, packet: Result<bytes>, x: Exchanged)
    ensures SendPacket(c, s, packet, x).s.state == s.state
  {
    hide RequestFor, Rad.Decoded, Awaited, Transmissions;
  }

  /** Sending ends no session with success. */
  lemma PerformStays(c: Config, r: Reaction, o: Oracle)
    ensures Perform(c, r, o).s.state in {r.s.state, Failed}
    ensures r.action.Stop? ==> Perform(c, r, o) == Outcome(r.s, Nothing)
  {
    hide SendPacket, SendFragments;
    match r.action
    case Fragmented(data) => SendFragmentsStays(c, r.s, data, 0, 0, o.exchange);
    case Clear(data) => SendPacketStays(c, r.s, Eap.EncodeTeap(r.s.eapId, 0, data), o.exchange(0));
    case Encrypted(plaintext) =>
      var data := o.encrypt(plaintext);
      if data.Ok? {
        SendPacketStays(c, r.s, Eap.EncodeTeap(r.s.eapId, 0, data.value), o.exchange(0));
      }
    case Hello(hello) =>
      SendPacketStays(c, r.s, Eap.EncodeTeapWithLength(r.s.eapId, 0, |hello|, hello),
                      o.exchange(0));
    case SendIdentity =>
      SendPacketStays(c, r.s, Eap.EncodeIdentityResponse(r.s.eapId, c.outerIdentity),
                      o.exchange(0));
    case Alert(alert) =>
      SendPacketStays(c, r.s, Eap.EncodeTeap(r.s.eapId, 0, alert), o.exchange(0));
    case Stop =>
    case Raise(_) =>
  }

  /** A reply makes a session that goes on succeed exactly when it accepts one that acknowledged
      the Result. A reply that refuses ends it, and nothing is sent. */
  lemma DoneExactlyWhen(c: Config, s: Protocol, reply: bytes, o: Oracle)
    requires !Terminal(s)
    ensures var out := Step(c, s, reply, o);
            && (out.s.state == Done <==> Accepts(c, s, reply))
            && (out.s.state == Done ==> out.ending.Nothing?)
            && (Refuses(c, s, reply) ==>
                  out == Outcome(s.(radiusState := Read(c, s, reply).state, state := Failed),
                                 Nothing))
  {
    hide React, Perform, Accepts, Refuses;
    AnsweredVerdict(c, s, reply, o);
    PerformStays(c, React(c, s, reply, o), o);
  }

  /** An Access-Reject ends the session as failed whatever was acknowledged before; only one whose
      EAP packet cannot be read raises instead. */
  lemma RejectFails(c: Config, s: Protocol, reply: bytes, o: Oracle)
    requires !Terminal(s) && Genuinely(c, s, reply, REJECT)
    ensures var out := Step(c, s, reply, o);
            if EapReads(Read(c, s, reply)) then out.s.state == Failed && out.ending.Nothing?
            else out.s.state == s.state && out.ending.Raised?
  {
    hide Rad.Decoded, Eap.DecodeEap;
    if EapReads(Read(c, s, reply)) {
      DoneExactlyWhen(c, s, reply, o);
    }
  }

  // ── Runs ──

  /** A reply a run processed, and the state it met. */
  datatype Turn = Turn(s: Protocol, reply: bytes)

  function TurnsFrom(c: Config, s: Protocol, reply: bytes, os: seq<Oracle>): seq<Turn>
    decreases |os|
  {
    if Terminal(s) || os == [] then []
    else
      var out := Step(c, s, reply, os[0]);
      [Turn(s, reply)]
      + if out.ending.Reply? then TurnsFrom(c, out.s, out.ending.data, os[1..]) else []
  }

  /** Every reply that a run processes, the first being the answer to the Identity. */
  function Turns(c: Config, authenticator: Octets16, os: seq<Oracle>): seq<Turn> {
    if os == [] then []
    else
      var out := Perform(c, Reaction(Initial(authenticator), SendIdentity), os[0]);
      if out.ending.Reply? then TurnsFrom(c, out.s, out.ending.data, os[1..]) else []
  }

  predicate LastAccepts(c: Config, turns: seq<Turn>) {
    turns != [] && Accepts(c, turns[|turns| - 1].s, turns[|turns| - 1].reply)
  }

  /** A turn that processes an Access-Reject whose EAP packet, if any, reads. */
  predicate Rejected(c: Config, t: Turn) {
    Genuinely(c, t.s, t.reply, REJECT) && EapReads(Read(c, t.s, t.reply))
  }

  lemma {:induction false} TurnsDecide(c: Config, s: Protocol, reply: bytes, os: seq<Oracle>, k: nat)
    requires s.state != Done
    ensures var r, turns := RunFrom(c, s, reply, os), TurnsFrom(c, s, reply, os);
            && (r.success <==> LastAccepts(c, turns))
            && (k < |turns| && Rejected(c, turns[k]) ==>
                  k == |turns| - 1 && r.s.state == Failed)
    decreases |os|
  {
    hide Step, Accepts, Genuinely, Refuses;
    if !Terminal(s) && os != [] {
      var out := Step(c, s, reply, os[0]);
      DoneExactlyWhen(c, s, reply, os[0]);
      if Rejected(c, Turn(s, reply)) {
        RejectFails(c, s, reply, os[0]);
      }
      if out.ending.Reply? {
        TurnsDecide(c, out.s, out.ending.data, os[1..], if k > 0 then k - 1 else 0);
      }
    }
  }

  /** What decides a run: it reports success exactly when the last reply it processed was an
      acceptance, met after the Result was acknowledged; and an Access-Reject, wherever it comes,
      is the last reply processed and leaves the session failed. */
  lemma RepliesDecide(c: Config, authenticator: Octets16, os: seq<Oracle>, k: nat)
    ensures var r, turns := Run(c, authenticator, os), Turns(c, authenticator, os);
            && (r.success <==> LastAccepts(c, turns))
            && (k < |turns| && Rejected(c, turns[k]) ==>
                  k == |turns| - 1 && r.s.state == Failed)
  {
    hide RunFrom, TurnsFrom, Perform, Accepts, Genuinely;
    if os != [] {
      var r := Reaction(Initial(authenticator), SendIdentity);
      PerformStays(c, r, os[0]);
      var out := Perform(c, r, os[0]);
      if out.ending.Reply? {
        TurnsDecide(c, out.s, out.ending.data, os[1..], k);
      }
    }
  }
}
