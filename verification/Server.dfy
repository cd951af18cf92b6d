/** A server to run a session against: replies that a session accepts, and the answers of the world
    that bring them. It shows that the runs SessionRuns and KeySchedule speak of do happen. */
module Server {
  import opened Bytes
  import opened Crypto
  import opened SessionSpec
  import Eap
  import Rad = Radius
  import Coa

  // ── Requests that pack ──

  /** Retries, and configured attributes and identity that leave room for a short EAP packet. */
  predicate Usable(c: Config) {
    && c.retries >= 1 && |c.outerIdentity| <= 248
    && Rad.AllFit(Rad.Expand(c.head)) && Rad.AllFit(Rad.Expand(c.tail))
    && |Rad.EncodeFrom(Rad.Expand(c.head), 0)| + |Rad.EncodeFrom(Rad.Expand(c.tail), 0)| <= 60000
  }

  lemma {:induction false} ExpandAppend(xs: seq<Rad.Attr>, ys: seq<Rad.Attr>)
    ensures Rad.Expand(xs + ys) == Rad.Expand(xs) + Rad.Expand(ys)
  {
    if xs == [] {
      assert xs + ys == ys;
    } else {
      assert (xs + ys)[1..] == xs[1..] + ys;
      ExpandAppend(xs[1..], ys);
    }
  }

  /** A message of at most 253 octets goes out as one attribute. */
  lemma OnePiece(message: bytes)
    requires 0 < |message| <= 253
    ensures var a := Rad.Attr(Rad.EAP_MESSAGE, message);
            && Rad.Expand([a]) == [a] && Rad.AllFit([a])
            && |Rad.EncodeFrom([a], 0)| == 2 + |message|
  {
    var a := Rad.Attr(Rad.EAP_MESSAGE, message);
    assert Take(message, 253) == message && Drop(message, 253) == [];
    assert Rad.SplitEap(message) == [message] + Rad.SplitEap([]);
    assert [a][1..] == [];
    Rad.EncodeOne(a);
  }

  lemma RequestPacks(c: Config, s: Protocol, message: bytes, authenticator: Octets16)
    requires Usable(c) && 0 < |message| <= 253 && s.radiusState.None?
    ensures RequestFor(c, s, message, authenticator).Ok?
  {
    var a := Rad.Attr(Rad.EAP_MESSAGE, message);
    var attrs := c.head + [a] + c.tail;
    assert attrs == RequestAttrs(c, message, s.radiusState);
    OnePiece(message);
    ExpandAppend(c.head, [a]);
    ExpandAppend(c.head + [a], c.tail);
    Rad.EncodeAppend(Rad.Expand(c.head), [a], 0);
    Rad.EncodeAppend(Rad.Expand(c.head) + [a], Rad.Expand(c.tail), 0);
  }

  // ── Replies ──

  /** The attributes of a reply that carries an EAP packet. */
  function Carrying(eap: bytes): seq<Rad.Attr> { [Rad.Attr(Rad.EAP_MESSAGE, eap)] }

  lemma ReplyPacks(c: Config, id: byte, code: byte, eap: bytes)
    requires 0 < |eap| <= 253
    ensures Coa.ReplyPacket(c.prims, code, id, Zeros(16), c.secret, Carrying(eap), true).Ok?
  {
    OnePiece(eap);
  }

  /** A reply with an EAP packet, to a request under the authenticator that is all zeros. */
  function Datagram(c: Config, id: byte, code: byte, eap: bytes): bytes
    requires 0 < |eap| <= 253
  {
    ReplyPacks(c, id, code, eap);
    Coa.ReplyPacket(c.prims, code, id, Zeros(16), c.secret, Carrying(eap), true).value
  }

  lemma DatagramReads(c: Config, id: byte, code: byte, eap: bytes)
    requires 0 < |eap| <= 253
    ensures var d := Datagram(c, id, code, eap);
            var r := Rad.Decoded(c.prims, d, c.secret, Zeros(16));
            && r.Ok? && r.value.code == code && 2 <= |d| && d[1] == id
            && r.value.eapMessage == Some(eap) && r.value.state.None?
  {
    hide Rad.MessageAuthenticatorOk, Rad.ResponseAuthenticatorOk, Rad.Attrs, Coa.ReplyPacket;
    ReplyPacks(c, id, code, eap);
    Coa.ReplyAccepted(c.prims, code, id, Zeros(16), c.secret, Carrying(eap), true);
    var attrs := Rad.Decoded(c.prims, Datagram(c, id, code, eap), c.secret, Zeros(16)).value.attrs;
    assert |attrs| == 2 && attrs[0] == Carrying(eap)[0];
    SignedReads(eap, attrs);
  }

  lemma SignedReads(eap: bytes, attrs: seq<Rad.Attr>)
    requires |attrs| == 2 && attrs[0] == Carrying(eap)[0]
    requires attrs[1].kind == Rad.MESSAGE_AUTHENTICATOR
    ensures Rad.Joined(Rad.ValuesOf(attrs, Rad.EAP_MESSAGE)) == Some(eap)
    ensures Rad.Last(Rad.ValuesOf(attrs, Rad.STATE)) == None
  {
    assert attrs == Carrying(eap) + [attrs[1]];
    Rad.ValuesOfAppend(Carrying(eap), [attrs[1]], Rad.EAP_MESSAGE);
    Rad.ValuesOfAppend(Carrying(eap), [attrs[1]], Rad.STATE);
    assert Carrying(eap)[1..] == [] && [attrs[1]][1..] == [];
    assert Rad.ValuesOf(attrs, Rad.EAP_MESSAGE) == [eap] && [eap][1..] == [];
    assert Concat([eap]) == eap + Concat([eap][1..]) == eap;
  }

  // ── Exchanges ──

  /** An exchange that brings this reply at once. */
  function Brings(reply: bytes): Exchanged { Exchanged(Zeros(16), true, _ => Got(reply)) }

  /** The states differ in nothing but what the transport keeps, under that authenticator. */
  predicate Through(s: Protocol, t: Protocol) {
    && t.authenticator == Zeros(16)
    && t == s.(authenticator := t.authenticator, radiusId := t.radiusId, wire := t.wire,
               replyAttrs := t.replyAttrs, replyCode := t.replyCode)
  }

  lemma ExchangeBrings(c: Config, s: Protocol, message: bytes, code: byte, eap: bytes)
    requires Usable(c) && 0 < |message| <= 253 && s.radiusState.None? && 0 < |eap| <= 253
    ensures var reply := Datagram(c, s.radiusId, code, eap);
            var out := Exchange(c, s, message, Brings(reply));
            out.ending == Reply(reply) && Through(s, out.s)
  {
    hide RequestFor, Datagram, Rad.Decoded;
    RequestPacks(c, s, message, Zeros(16));
    DatagramReads(c, s.radiusId, code, eap);
  }

  /** An action that sends one short packet, whatever the tunnel encrypts to. */
  predicate Brief(a: Action, o: Oracle) {
    match a
    case Clear(data) => data == []
    case Encrypted(plaintext) => o.encrypt(plaintext) == Ok([])
    case Hello(hello) => hello == []
    case SendIdentity => true
    case _ => false
  }

  lemma PerformBrings(c: Config, r: Reaction, o: Oracle, code: byte, eap: bytes)
    requires Usable(c) && r.s.radiusState.None? && 0 < |eap| <= 253 && Brief(r.action, o)
    requires o.exchange(0) == Brings(Datagram(c, r.s.radiusId, code, eap))
    ensures var out := Perform(c, r, o);
            out.ending == Reply(Datagram(c, r.s.radiusId, code, eap)) && Through(r.s, out.s)
  {
    hide Exchange, Datagram, Brings, Through;
    var packet := if r.action.Hello? then Eap.EncodeTeapWithLength(r.s.eapId, 0, 0, [])
                  else if r.action.SendIdentity? then
                    Eap.EncodeIdentityResponse(r.s.eapId, c.outerIdentity)
                  else Eap.EncodeTeap(r.s.eapId, 0, []);
    assert packet.Ok? && |packet.value| <= 253;
    assert Perform(c, r, o) == Exchange(c, r.s, packet.value, o.exchange(0));
    ExchangeBrings(c, r.s, packet.value, code, eap);
  }

  // ── Runs in progress ──

  /** On these answers the run is still going on: it has come to `s`, with a reply in hand. */
  ghost predicate Alive(c: Config, authenticator: Octets16, os: seq<Oracle>, s: Protocol,
                        reply: bytes)
  {
    s.authenticator == Zeros(16)
    && forall more :: Run(c, authenticator, os + more) == RunFrom(c, s, reply, more)
  }

  /** The run begins, and the server's first reply is a challenge. */
  lemma Begins(c: Config, authenticator: Octets16, o: Oracle, eap: bytes) returns (s: Protocol)
    requires Usable(c) && 0 < |eap| <= 253
    requires o.exchange(0) == Brings(Datagram(c, 0, Rad.ACCESS_CHALLENGE, eap))
    ensures Through(Initial(authenticator), s)
    ensures Alive(c, authenticator, [o], s, Datagram(c, 0, Rad.ACCESS_CHALLENGE, eap))
  {
    hide Perform, RunFrom, Datagram;
    var r := Reaction(Initial(authenticator), SendIdentity);
    PerformBrings(c, r, o, Rad.ACCESS_CHALLENGE, eap);
    var out := Perform(c, r, o);
    s := out.s;
    forall more
      ensures Run(c, authenticator, [o] + more) == RunFrom(c, s, out.ending.data, more)
    {
      assert ([o] + more)[0] == o && ([o] + more)[1..] == more;
    }
  }

  /** A step on a challenge goes on to the next reply. */
  lemma Goes(c: Config, authenticator: Octets16, os: seq<Oracle>, s: Protocol, id: byte, eap: bytes,
             o: Oracle, code: byte, next: bytes) returns (t: Protocol)
    requires Usable(c) && 0 < |eap| <= 253 && 0 < |next| <= 253 && !Terminal(s)
    requires Alive(c, authenticator, os, s, Datagram(c, id, Rad.ACCESS_CHALLENGE, eap))
    requires Brief(Answered(c, s.(radiusState := None), Rad.ACCESS_CHALLENGE, Some(eap), o).action, o)
    requires o.exchange(0) == Brings(Datagram(c, s.radiusId, code, next))
    ensures Through(Answered(c, s.(radiusState := None), Rad.ACCESS_CHALLENGE, Some(eap), o).s, t)
    ensures Alive(c, authenticator, os + [o], t, Datagram(c, s.radiusId, code, next))
  {
    hide Perform, Answered, Datagram, Brings, Brief, Usable, Run;
    var reply := Datagram(c, id, Rad.ACCESS_CHALLENGE, eap);
    DatagramReads(c, id, Rad.ACCESS_CHALLENGE, eap);
    var r := React(c, s, reply, o);
    assert r == Answered(c, s.(radiusState := None), Rad.ACCESS_CHALLENGE, Some(eap), o);
    PerformBrings(c, r, o, code, next);
    t := Perform(c, r, o).s;
    forall more
      ensures Run(c, authenticator, os + [o] + more) == RunFrom(c, t, Datagram(c, s.radiusId, code, next), more)
    {
      Assoc(os, [o], more);
      assert ([o] + more)[0] == o && ([o] + more)[1..] == more;
    }
  }
}
