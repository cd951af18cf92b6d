/** The four-layer round trip of a fragmented flight: TEAP fragmentation, EAP framing, the split
    of EAP-Message into attributes of 253 octets, and the attribute list of a RADIUS packet,
    undone in turn by the attribute walk, the EAP and TEAP decoders and the reassembler. */
module Fragments {
  import opened Bytes
  import opened SessionSpec
  import opened SessionWire
  import Eap

  /** The receiving side of one packet. */
  function Received(a: Eap.Assembly, packet: bytes): Result<(Eap.Assembly, Option<bytes>)>
    requires 20 <= |packet|
  {
    match Carried(packet)
    case None => Err(ValueError)
    case Some(eap) =>
      var p :- Eap.DecodeEap(eap);
      var teap :- Eap.DecodeTeap(p.payload);
      Ok(Eap.Fed(a, teap))
  }

  /** What the reassembler holds once everything before `offset` has arrived. */
  predicate Holds(a: Eap.Assembly, data: bytes, offset: nat) {
    && offset <= |data|
    && a.assembling == (offset > 0)
    && (offset > 0 ==> a.buffer == data[..offset])
  }

  /** A packet that a reassembler in state `a` takes as the fragment of `data` at `offset`: it
      is buffered and asks for an acknowledgement, or completes exactly the data. Its EAP data
      is at most 1024 octets and whatever configured EAP-Messages add. */
  predicate Arrives(c: Config, a: Eap.Assembly, packet: bytes, data: bytes, offset: nat) {
    && 20 <= |packet|
    && Carried(packet).Some? && |Carried(packet).value| <= 1024 + |Trailing(c)|
    && var r := Received(a, packet);
    && r.Ok?
    && var (after, assembled) := r.value;
       if offset + CHUNK >= |data| then assembled == Some(data) && !after.assembling
       else assembled == None && Holds(after, data, offset + CHUNK)
  }

  /** Received one after the other, the packets deliver data[offset..], or a beginning of it. */
  predicate Delivers(c: Config, a: Eap.Assembly, sent: seq<Sending>, data: bytes, offset: nat)
    decreases |sent|
  {
    sent == []
    || (&& offset < |data|
        && Arrives(c, a, sent[0].packet, data, offset)
        && if offset + CHUNK >= |data| then |sent| == 1
           else Delivers(c, Received(a, sent[0].packet).value.0, sent[1..], data, offset + CHUNK))
  }

  /** ceil(n / 1014) */
  function Count(n: nat): nat { (n + CHUNK - 1) / CHUNK }

  lemma FragmentDecodes(c: Config, id: byte, data: bytes, offset: nat)
    requires offset < |data| && FragmentPacket(id, data, offset).Ok?
    ensures var e := FragmentPacket(id, data, offset).value;
            |e| <= 1024 && Eap.DecodeEap(e + Trailing(c)) == Eap.DecodeEap(e)
  {
    hide Eap.DecodeEap;
    var chunk := Slice(data, offset, offset + CHUNK);
    var flags := if offset + CHUNK < |data| then Eap.FLAG_M else 0;
    var payload := if offset == 0 then [Eap.FlagsByte(Eap.WithL(flags))] + U32(|data|) + chunk
                   else [Eap.FlagsByte(flags)] + chunk;
    Eap.DecodeIgnoresTail(Eap.RESPONSE, id, Some(Eap.TEAP), payload, Trailing(c));
  }

  /** What a reassembler holding data[..offset] does with the fragment at `offset`. */
  lemma FragmentArrives(c: Config, a: Eap.Assembly, id: byte, data: bytes, offset: nat,
                        packet: bytes)
    requires Holds(a, data, offset) && offset < |data| < 0x1_0000_0000
    requires 20 <= |packet|
    requires FragmentPacket(id, data, offset).Ok?
    requires Carried(packet) == Some(FragmentPacket(id, data, offset).value + Trailing(c))
    ensures Arrives(c, a, packet, data, offset)
  {
    hide Eap.DecodeEap, Eap.DecodeTeap, Eap.EncodeEap;
    var chunk := Slice(data, offset, offset + CHUNK);
    var more := offset + CHUNK < |data|;
    FragmentDecodes(c, id, data, offset);
    if offset == 0 {
      Eap.TeapWithLengthRoundTrip(id, more, |data|, chunk);
      assert !more ==> chunk == data;
    } else {
      Eap.TeapRoundTrip(id, more, chunk);
      assert !more ==> data[..offset] + chunk == data;
      assert more ==> data[..offset] + chunk == data[..offset + CHUNK];
    }
  }

  /** Sending the fragment at `offset` puts it on the wire, or nothing. */
  lemma FragmentPacketSent(c: Config, s: Protocol, data: bytes, offset: nat, x: Exchanged)
    requires offset < |data|
    ensures var packet := FragmentPacket(s.eapId, data, offset);
            var out := SendPacket(c, s, packet, x);
            (out.s.wire == s.wire && !out.ending.Reply?)
            || (&& packet.Ok? && |out.s.wire| == |s.wire| + 1 && s.wire <= out.s.wire
                && 20 <= |out.s.wire[|s.wire|].packet|
                && Carried(out.s.wire[|s.wire|].packet) == Some(packet.value + Trailing(c)))
  {
    hide Exchange, FragmentPacket, RequestFor, Carried;
    var packet := FragmentPacket(s.eapId, data, offset);
    if SendPacket(c, s, packet, x).ending.Reply? {
      RepliedMeansSent(c, s, packet, x);
    }
    if packet.Ok? {
      ExchangeSendsIt(c, s, packet.value, x);
      if RequestFor(c, s, packet.value, x.authenticator).Ok? {
        RequestCarries(c, s, packet.value, x.authenticator);
      }
    }
  }

  /** One iteration of the loop sends the fragment at `offset`, or nothing. */
  lemma FragmentSent(c: Config, s: Protocol, data: bytes, offset: nat, x: Exchanged,
                     a: Eap.Assembly)
    requires offset < |data| && Holds(a, data, offset)
    requires offset == 0 || |data| < 0x1_0000_0000
    ensures var sent := SendFragment(c, s, data, offset, x);
            var t := sent.out.s;
            (t.wire == s.wire && !sent.more && !sent.out.ending.Reply?)
            || (&& |t.wire| == |s.wire| + 1 && s.wire <= t.wire
                && Arrives(c, a, t.wire[|s.wire|].packet, data, offset)
                && (offset == 0 ==> |data| < 0x1_0000_0000))
  {
    hide SendPacket, Acked, Arrives, Carried;
    FragmentPacketSent(c, s, data, offset, x);
    var packet := FragmentPacket(s.eapId, data, offset);
    var out := SendPacket(c, s, packet, x);
    if out.ending.Reply? {
      AckedKeepsWire(c, out.s, out.ending.data);
    }
    if out.s.wire != s.wire {
      FragmentArrives(c, a, s.eapId, data, offset, out.s.wire[|s.wire|].packet);
    }
  }

  /** Where one packet went from `s` to `t` and the rest from `t` to `u`. */
  lemma DeliversOneMore(c: Config, a: Eap.Assembly, s: Protocol, t: Protocol, u: Protocol,
                        data: bytes, offset: nat)
    requires |t.wire| == |s.wire| + 1 && s.wire <= t.wire <= u.wire
    requires offset < |data| && Arrives(c, a, t.wire[|s.wire|].packet, data, offset)
    requires if offset + CHUNK >= |data| then u.wire == t.wire
             else Delivers(c, Received(a, t.wire[|s.wire|].packet).value.0, u.wire[|t.wire|..], data,
                           offset + CHUNK)
    ensures Delivers(c, a, u.wire[|s.wire|..], data, offset)
  {
    hide Arrives;
    var sent := u.wire[|s.wire|..];
    assert sent[0] == t.wire[|s.wire|] && sent[1..] == u.wire[|t.wire|..];
  }

  lemma {:induction false} SendFragmentsDelivers(c: Config, s: Protocol, data: bytes, offset: nat,
                                                 k: nat, xs: nat -> Exchanged, a: Eap.Assembly)
    requires Holds(a, data, offset) && offset < |data|
    requires offset == 0 || |data| < 0x1_0000_0000
    ensures var out := SendFragments(c, s, data, offset, k, xs);
            && s.wire <= out.s.wire
            && Delivers(c, a, out.s.wire[|s.wire|..], data, offset)
            && (out.ending.Reply? ==> |out.s.wire| - |s.wire| == Count(|data| - offset))
    decreases |data| - offset
  {
    hide SendFragment, Received, Carried;
    var sent := SendFragment(c, s, data, offset, xs(k));
    var t := sent.out.s;
    FragmentSent(c, s, data, offset, xs(k), a);
    if sent.more {
      var after := Received(a, t.wire[|s.wire|].packet).value.0;
      SendFragmentsDelivers(c, t, data, offset + CHUNK, k + 1, xs, after);
      DeliversOneMore(c, a, s, t, SendFragments(c, t, data, offset + CHUNK, k + 1, xs).s, data,
                      offset);
    } else if t.wire != s.wire {
      DeliversOneMore(c, a, s, t, t, data, offset);
    }
  }

  /** What the last of some packets completes. */
  function Assembled(a: Eap.Assembly, sent: seq<Sending>): Option<bytes>
    decreases |sent|
  {
    if sent == [] || |sent[0].packet| < 20 || Received(a, sent[0].packet).Err? then None
    else if |sent| == 1 then Received(a, sent[0].packet).value.1
    else Assembled(Received(a, sent[0].packet).value.0, sent[1..])
  }

  lemma {:induction false} DeliversAll(c: Config, a: Eap.Assembly, sent: seq<Sending>, data: bytes,
                                       offset: nat)
    requires Delivers(c, a, sent, data, offset) && offset < |data|
    ensures |sent| <= Count(|data| - offset)
    ensures |sent| == Count(|data| - offset) ==> Assembled(a, sent) == Some(data)
    decreases |sent|
  {
    hide Carried;
    if sent != [] && offset + CHUNK < |data| {
      DeliversAll(c, Received(a, sent[0].packet).value.0, sent[1..], data, offset + CHUNK);
    }
  }

  // ── When the whole flight is sent ──

  /** send_receive returns a reply exactly when one comes within the retries and before any
      socket error. */
  lemma {:induction false} RepliesExactlyWhen(attempts: nat -> Attempt, id: byte, k: nat,
                                              retries: nat)
    ensures Awaited(attempts, id, k, retries).Reply?
       <==> exists j: nat :: k <= j < retries && Answers(attempts(j), id)
                             && forall i :: k <= i < j ==> !attempts(i).Broken?
    decreases retries - k
  {
    if k < retries && !attempts(k).Broken? && !Answers(attempts(k), id) {
      RepliesExactlyWhen(attempts, id, k + 1, retries);
    }
  }

  /** The world serves the flight from `offset`: every request packs and is answered, and every
      acknowledgement but the last reply decodes. */
  predicate Served(c: Config, s: Protocol, data: bytes, offset: nat, k: nat, xs: nat -> Exchanged)
    requires offset < |data|
    decreases |data| - offset
  {
    var packet, x := FragmentPacket(s.eapId, data, offset), xs(k);
    && packet.Ok? && RequestFor(c, s, packet.value, x.authenticator).Ok?
    && x.reachable && Awaited(x.attempts, s.radiusId, 0, c.retries).Reply?
    && (offset + CHUNK < |data| ==>
          var out := SendPacket(c, s, packet, x);
          && out.ending.Reply?
          && var (acked, fault) := Acked(c, out.s, out.ending.data);
             fault.None? && Served(c, acked, data, offset + CHUNK, k + 1, xs))
  }

  lemma GoesOnExactlyWhen(c: Config, s: Protocol, data: bytes, offset: nat, x: Exchanged)
    ensures var out := SendPacket(c, s, FragmentPacket(s.eapId, data, offset), x);
            var sent := SendFragment(c, s, data, offset, x);
            && (sent.more <==> offset + CHUNK < |data| && out.ending.Reply?
                               && Acked(c, out.s, out.ending.data).1.None?)
            && (sent.more ==> sent.out.s == Acked(c, out.s, out.ending.data).0)
            && (!sent.more ==>
                  (sent.out.ending.Reply? <==> offset + CHUNK >= |data| && out.ending.Reply?))
  {
    hide SendPacket, Acked, FragmentPacket;
  }

  lemma {:induction false} ServedExactlyWhen(c: Config, s: Protocol, data: bytes, offset: nat,
                                             k: nat, xs: nat -> Exchanged)
    requires offset < |data|
    ensures SendFragments(c, s, data, offset, k, xs).ending.Reply?
       <==> Served(c, s, data, offset, k, xs)
    decreases |data| - offset
  {
    hide SendFragment, SendPacket, Acked, FragmentPacket, RequestFor;
    PacketAnswered(c, s, FragmentPacket(s.eapId, data, offset), xs(k));
    GoesOnExactlyWhen(c, s, data, offset, xs(k));
    var sent := SendFragment(c, s, data, offset, xs(k));
    if sent.more {
      ServedExactlyWhen(c, sent.out.s, data, offset + CHUNK, k + 1, xs);
    }
  }

  lemma PacketAnswered(c: Config, s: Protocol, packet: Result<bytes>, x: Exchanged)
    ensures SendPacket(c, s, packet, x).ending.Reply?
       <==> packet.Ok? && RequestFor(c, s, packet.value, x.authenticator).Ok?
            && x.reachable && Awaited(x.attempts, s.radiusId, 0, c.retries).Reply?
  {
  }

  /** Whatever the server does with the flight, what of it was sent delivers its beginning, at
      most ceil(n / 1014) packets. The loop ends with a reply exactly when the world serves the
      flight; then all of it was sent: exactly ceil(n / 1014) packets, which an idle reassembler
      turns into the data. */
  lemma FlightArrives(c: Config, s: Protocol, data: bytes, xs: nat -> Exchanged, a: Eap.Assembly)
    requires data != [] && !a.assembling
    ensures var out := SendFragments(c, s, data, 0, 0, xs);
            && s.wire <= out.s.wire
            && var sent := out.s.wire[|s.wire|..];
            && Delivers(c, a, sent, data, 0)
            && |sent| <= Count(|data|)
            && (out.ending.Reply? <==> Served(c, s, data, 0, 0, xs))
            && (out.ending.Reply? ==>
                  |sent| == Count(|data|) && Assembled(a, sent) == Some(data))
  {
    hide SendFragments, Delivers, Served, Assembled;
    SendFragmentsDelivers(c, s, data, 0, 0, xs, a);
    ServedExactlyWhen(c, s, data, 0, 0, xs);
    var out := SendFragments(c, s, data, 0, 0, xs);
    DeliversAll(c, a, out.s.wire[|s.wire|..], data, 0);
  }
}
