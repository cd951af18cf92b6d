/** How a TEAP packet is taken in: its flags (section 4.1 of RFC 9930), the fragments put together,
    and what becomes of a record of the handshake or of the tunnel. */
module Records {
  import opened Bytes
  import opened Crypto
  import opened SessionSpec
  import Eap
  import Tlv

  // ── Flags and fragments ──

  /** A packet with the S flag starts over, whatever was being put together. */
  lemma StartTaken(c: Config, s: Protocol, version: nat, authorityId: bytes, o: Oracle)
    requires version < 8
    ensures Teap(c, s, [0x20 + version] + authorityId, o) == Start(s, authorityId, o)
  {
    hide Reassembled, Start, Eap.DecodeTeap;
    PlainReads(0x20 + version, authorityId);
  }

  /** A first fragment, with L and M, is kept and acknowledged. */
  lemma FirstTaken(c: Config, s: Protocol, version: nat, total: nat, data: bytes, o: Oracle)
    requires version < 8 && total < 0x1_0000_0000
    ensures Teap(c, s, [0xC0 + version] + U32(total) + data, o)
         == Reaction(s.(assembly := Eap.Assembly(data, total, true)), Clear([]))
  {
    hide Reassembled, Start, Eap.DecodeTeap;
    LengthReads(0xC0 + version, total, data);
  }

  /** A later fragment, with M, is kept after those before it and acknowledged. */
  lemma MoreTaken(c: Config, s: Protocol, version: nat, data: bytes, o: Oracle)
    requires version < 8 && s.assembly.assembling
    ensures Teap(c, s, [0x40 + version] + data, o)
         == Reaction(s.(assembly := s.assembly.(buffer := s.assembly.buffer + data)), Clear([]))
  {
    hide Reassembled, Start, Eap.DecodeTeap;
    PlainReads(0x40 + version, data);
  }

  /** The last one, without M, completes the record. */
  lemma LastTaken(c: Config, s: Protocol, version: nat, data: bytes, o: Oracle)
    requires version < 8 && s.assembly.assembling
    ensures var whole := s.assembly.buffer + data;
            Teap(c, s, [version] + data, o)
            == Record(c, s.(assembly := s.assembly.(buffer := whole, assembling := false)), whole, o)
  {
    hide HandshakeStep, TunnelData, Start, Eap.DecodeTeap;
    PlainReads(version, data);
  }

  /** Without fragments, a packet is a record, with its length or without. */
  lemma WholeTaken(c: Config, s: Protocol, version: nat, total: nat, data: bytes, o: Oracle)
    requires version < 8 && total < 0x1_0000_0000 && !s.assembly.assembling
    ensures Teap(c, s, [version] + data, o) == Record(c, s, data, o)
    ensures Teap(c, s, [0x80 + version] + U32(total) + data, o) == Record(c, s, data, o)
  {
    hide HandshakeStep, TunnelData, Start, Eap.DecodeTeap;
    PlainReads(version, data);
    LengthReads(0x80 + version, total, data);
    assert s.(assembly := s.assembly) == s;
  }

  lemma PlainReads(flags: nat, data: bytes)
    requires flags < 0x80
    ensures Eap.DecodeTeap([flags] + data)
         == Ok(Eap.TeapData(flags / 0x20 % 2 == 1, false, flags / 0x40 % 2 == 1, flags % 8, 0, data))
  {
    assert ([flags] + data)[1..] == data;
  }

  lemma LengthReads(flags: nat, total: nat, data: bytes)
    requires 0x80 <= flags < 0x100 && total < 0x1_0000_0000
    ensures Eap.DecodeTeap([flags] + U32(total) + data)
         == Ok(Eap.TeapData(flags / 0x20 % 2 == 1, true, flags / 0x40 % 2 == 1, flags % 8, total, data))
  {
    var payload := [flags] + U32(total) + data;
    assert At(payload, 1, U32(total)) && payload[5..] == data;
    U32RoundTrip(total, payload, 1);
  }

  /** Fragments put together: the first, then the others in order. */
  function PutTogether(s: Protocol, parts: seq<bytes>): Protocol {
    s.(assembly := s.assembly.(buffer := s.assembly.buffer + Concat(parts)))
  }

  /** The state after fragments with M, each acknowledged. */
  function AfterMore(c: Config, s: Protocol, parts: seq<bytes>, o: Oracle): Protocol
    decreases |parts|
  {
    if parts == [] then s else AfterMore(c, Teap(c, s, [0x41] + parts[0], o).s, parts[1..], o)
  }

  /** However a record is cut, its fragments give it whole. */
  lemma {:induction false} FragmentsGiveTheWhole(c: Config, s: Protocol, parts: seq<bytes>, last: bytes,
                                                 o: Oracle)
    requires s.assembly.assembling
    ensures AfterMore(c, s, parts, o) == PutTogether(s, parts)
    ensures var whole := s.assembly.buffer + Concat(parts) + last;
            Teap(c, AfterMore(c, s, parts, o), [1] + last, o)
            == Record(c, s.(assembly := s.assembly.(buffer := whole, assembling := false)), whole, o)
    decreases |parts|
  {
    hide Teap, Record;
    if parts == [] {
      assert s.assembly.buffer + Concat(parts) == s.assembly.buffer;
      LastTaken(c, s, 1, last, o);
    } else {
      MoreTaken(c, s, 1, parts[0], o);
      FragmentsGiveTheWhole(c, Teap(c, s, [0x41] + parts[0], o).s, parts[1..], last, o);
      Assoc(s.assembly.buffer, parts[0], Concat(parts[1..]));
    }
  }

  // ── Records ──

  predicate TunnelStands(s: Protocol) { s.outer.Some? && s.outer.value.established }

  /** A whole record is fed to the handshake until the tunnel is up, and decrypted from then on. */
  function Record(c: Config, s: Protocol, data: bytes, o: Oracle): Reaction {
    if TunnelStands(s) then TunnelData(c, s, data, o) else HandshakeStep(c, s, data, o)
  }

  /** The session once a plaintext is noted. */
  function Noted(s: Protocol, plaintext: bytes): Protocol {
    s.(inbox := s.inbox + [plaintext], history := s.history + [Heard(plaintext)])
  }

  /** A record of the tunnel: its plaintext is dispatched, and an empty one acknowledged. */
  lemma RecordOpened(c: Config, s: Protocol, data: bytes, o: Oracle)
    requires o.decrypt(data).Ok?
    ensures var p, r := o.decrypt(data).value, TunnelData(c, s, data, o);
            if p == [] then r == Reaction(s, Clear([]))
            else r == Dispatch(c, Noted(s, p), Tlv.Tlvs(p), o)
  {
    hide Dispatch, Tlv.Tlvs;
  }

  /** The session once an outer tunnel is up: its seed is taken, with the hash of its suite. */
  function Risen(s: Protocol, t: Tunnel, seed: bytes): Protocol {
    s.(outer := Some(t), state := TunnelUp, seed := seed,
       history := s.history + [Up(seed, if t.sha384 then Sha384 else Sha256)])
  }

  /** A record of the handshake: while it goes on, the flight is sent in fragments or an empty one
      acknowledged; when it is over, the seed is taken, and then the last flight is sent, or what
      came with the server's last is dispatched, or that is acknowledged. */
  lemma HandshakeFed(c: Config, s: Protocol, data: bytes, o: Oracle)
    requires s.outer.Some? && o.outerFeed(data).Continued?
    ensures var fed, r := o.outerFeed(data), HandshakeStep(c, s, data, o);
            if !fed.tunnel.established then
              r == Reaction(s.(outer := Some(fed.tunnel)),
                            if fed.outgoing != [] then Fragmented(fed.outgoing) else Clear([]))
            else if o.exportSeed.Err? then r.action == Raise(o.exportSeed.fault)
            else
              var u := Risen(s, fed.tunnel, o.exportSeed.value);
              if fed.outgoing != [] then r == Reaction(u, Clear(fed.outgoing))
              else if o.pending.Err? then r == Reaction(u, Raise(o.pending.fault))
              else if o.pending.value == [] then r == Reaction(u, Clear([]))
              else r == Dispatch(c, Noted(u, o.pending.value), Tlv.Tlvs(o.pending.value), o)
  {
    hide Dispatch, Tlv.Tlvs;
  }
}
