/** Crypto-Binding: teap_tester/crypto_binding.py. Section numbers are RFC 9930's. */
module CryptoBinding {
  import opened Bytes
  import opened Crypto
  import Tlv

  // ── TLS PRF ──

  /** A(i) of section 5 of RFC 5246. */
  function A(mac: Mac, secret: bytes, seed: bytes, i: nat): bytes {
    if i == 0 then seed else mac(secret, A(mac, secret, seed, i - 1))
  }

  /** The first `blocks` blocks of the P_hash stream. */
  function PHash(mac: Mac, secret: bytes, seed: bytes, blocks: nat): (r: bytes)
    ensures |r| >= blocks
  {
    if blocks == 0 then []
    else PHash(mac, secret, seed, blocks - 1) + mac(secret, A(mac, secret, seed, blocks) + seed)
  }

  /** The first n octets of the stream; n blocks always hold them. */
  function Prf(mac: Mac, secret: bytes, name: bytes, seed: bytes, n: nat): (r: bytes)
    ensures |r| == n
  {
    PHash(mac, secret, name + seed, n)[..n]
  }

  lemma {:induction false} PHashPrefix(mac: Mac, secret: bytes, seed: bytes, j: nat, k: nat)
    requires j <= k
    ensures PHash(mac, secret, seed, j) <= PHash(mac, secret, seed, k)
    decreases k
  {
    if j < k {
      PHashPrefix(mac, secret, seed, j, k - 1);
    }
  }

  /** However many blocks are produced, as long as they reach n octets, cutting them at n gives
      the same octets; so a shorter output is a prefix of a longer one. */
  lemma PrfIsPrefix(mac: Mac, secret: bytes, name: bytes, seed: bytes, blocks: nat, n: nat)
    requires n <= |PHash(mac, secret, name + seed, blocks)|
    ensures PHash(mac, secret, name + seed, blocks)[..n] == Prf(mac, secret, name, seed, n)
    ensures forall m :: 0 <= m <= n ==>
              Prf(mac, secret, name, seed, m) == Prf(mac, secret, name, seed, n)[..m]
  {
    PrfCut(mac, secret, name + seed, blocks, n);
    forall m | 0 <= m <= n
      ensures Prf(mac, secret, name, seed, m) == Prf(mac, secret, name, seed, n)[..m]
    {
      PrfCut(mac, secret, name + seed, blocks, m);
    }
  }

  lemma PrfCut(mac: Mac, secret: bytes, seed: bytes, blocks: nat, n: nat)
    requires n <= |PHash(mac, secret, seed, blocks)|
    ensures PHash(mac, secret, seed, blocks)[..n] == PHash(mac, secret, seed, n)[..n]
  {
    if blocks <= n {
      PHashPrefix(mac, secret, seed, blocks, n);
    } else {
      PHashPrefix(mac, secret, seed, n, blocks);
    }
  }

  /** tls_prf */
  method TlsPrf(mac: Mac, secret: bytes, name: bytes, seed: bytes, length: nat)
    returns (r: bytes)
    ensures r == Prf(mac, secret, name, seed, length)
  {
    var nameSeed := name + seed;
    var a := nameSeed;
    var output: bytes := [];
    ghost var blocks := 0;
    while |output| < length
      invariant |output| >= blocks
      invariant a == A(mac, secret, nameSeed, blocks)
      invariant output == PHash(mac, secret, nameSeed, blocks)
      decreases length - |output|
    {
      a := mac(secret, a);
      output := output + mac(secret, a + nameSeed);
      blocks := blocks + 1;
    }
    PrfIsPrefix(mac, secret, name, seed, blocks, length);
    return output[..length];
  }

  // ── Key schedule ──

  function Ascii(s: string): (r: bytes)
    ensures |r| == |s|
  {
    seq(|s|, i requires 0 <= i < |s| => s[i] as int % 0x100)
  }

  const IMCK_LABEL := Ascii("Inner Methods Compound Keys")
  const EMSK_LABEL := Ascii("TEAPbindkey@ietf.org")

  /** An IMSK as section 6.2.1 takes it: 32 octets, zero-padded when shorter. */
  function Imsk(key: bytes): (r: bytes)
    ensures |r| == 32
  {
    if |key| < 32 then key + Zeros(32 - |key|) else key[..32]
  }

  /** compute_imck: IMCK[j] of section 6.2.2. */
  function Imck(mac: Mac, previous: bytes, isk: bytes): (r: bytes)
    ensures |r| == 60
  {
    Prf(mac, Take(previous, 40), IMCK_LABEL, Imsk(isk), 60)
  }

  /** compute_session_keys: (S-IMCK[1], CMK[1]). */
  function SessionKeys(mac: Mac, seed: bytes, innerMsk: bytes): (r: (bytes, bytes))
    ensures |r.0| == 40 && |r.1| == 20
  {
    var s0 := Take(seed, 40);
    var padded := if |s0| < 40 then s0 + Zeros(40 - |s0|) else s0;
    var isk := if innerMsk != [] then Take(innerMsk, 32) else Zeros(32);
    var imck := Imck(mac, padded, isk);
    (imck[..40], imck[40..60])
  }

  /** IMSK_EMSK, from the EMSK of the inner method. */
  function EmskImsk(mac: Mac, emsk: bytes): (r: bytes)
    ensures |r| == 32
  {
    Prf(mac, emsk, EMSK_LABEL, [0, 0, 0x40], 32)
  }

  // ── The Crypto-Binding TLV, section 4.2.13 ──

  datatype Parsed = Parsed(reserved: byte, version: byte, receivedVersion: byte, flags: nat,
                           subType: nat, nonce: bytes, emskMac: bytes, mskMac: bytes)

  function Parse(value: bytes): Option<Parsed> {
    if |value| < 76 then None
    else Some(Parsed(value[0], value[1], value[2], value[3] / 16, value[3] % 16,
                     value[4..36], value[36..56], value[56..76]))
  }

  function HasMsk(flags: nat): bool { flags / 2 % 2 == 1 }

  function HasEmsk(flags: nat): bool { flags % 2 == 1 }

  datatype Problem = Fine | UnknownVersion | WrongReceivedVersion | NotARequest | BadFlags | OddNonce

  function RequestProblem(parsed: Parsed): Problem
    requires |parsed.nonce| == 32
  {
    if parsed.version != 1 then UnknownVersion
    else if parsed.receivedVersion != 1 then WrongReceivedVersion
    else if parsed.subType != 0 then NotARequest
    else if parsed.flags !in {1, 2, 3} then BadFlags
    else if parsed.nonce[31] % 2 == 1 then OddNonce
    else Fine
  }

  /** A Binding Request this peer accepts the fields of. */
  predicate ValidRequest(value: bytes) {
    Parse(value).Some? && RequestProblem(Parse(value).value) == Fine
  }

  const HEADER: bytes := [0x80, 12, 0, 76]

  /** The Compound MAC of section 6.3: over the TLV with both MAC fields zeroed, the EAP type,
      and the outer TLVs of both sides. */
  function CompoundMac(mac: Mac, value: bytes, cmk: bytes, serverOuter: bytes, peerOuter: bytes)
    : (r: bytes)
    ensures |r| == 20
  {
    mac(cmk, HEADER + Take(value, 36) + Zeros(40) + [55] + serverOuter + peerOuter)[..20]
  }

  /** compound_mac, which zeroes the two fields in a copy of the value. */
  method ComputeCompoundMac(mac: Mac, cbValue: bytes, cmk: bytes, serverOuter: bytes,
                            peerOuter: bytes) returns (r: bytes)
    ensures r == CompoundMac(mac, cbValue, cmk, serverOuter, peerOuter)
  {
    var value := Take(cbValue, 76);
    value := Splice(value, 36, 76, Zeros(40));
    assert value == Take(cbValue, 36) + Zeros(40);
    var buffer := U16(0x8000 + 12) + U16(76) + value + [55] + serverOuter + peerOuter;
    assert buffer == HEADER + Take(cbValue, 36) + Zeros(40) + [55] + serverOuter + peerOuter;
    return mac(cmk, buffer)[..20];
  }

  /** Section 6.3: the HMAC under CMK of the whole Crypto-Binding TLV with both MAC fields zeroed,
      the EAP type 55, the server's outer TLVs and the peer's, cut to 20 octets. */
  lemma MacOfTlv(mac: Mac, value: bytes, cmk: bytes, serverOuter: bytes, peerOuter: bytes)
    requires |value| == 76
    ensures CompoundMac(mac, value, cmk, serverOuter, peerOuter)
         == mac(cmk, Tlv.Encoding(Tlv.Tlv(12, true, value[..36] + Zeros(40)))
                     + [55] + serverOuter + peerOuter)[..20]
  {
    var tlv := Tlv.Encoding(Tlv.Tlv(12, true, value[..36] + Zeros(40)));
    assert tlv == HEADER + Take(value, 36) + Zeros(40);
  }

  /** What a Compound MAC is taken over: the key, the 36 fixed octets and the outer TLVs, no less
      and no more. Two agree under every HMAC exactly when these are the same. */
  lemma MacCovers(v: bytes, cmk: bytes, serverOuter: bytes, peerOuter: bytes,
                  v': bytes, cmk': bytes, serverOuter': bytes, peerOuter': bytes)
    requires 36 <= |v| && 36 <= |v'|
    ensures (forall mac: Mac :: CompoundMac(mac, v, cmk, serverOuter, peerOuter)
                             == CompoundMac(mac, v', cmk', serverOuter', peerOuter'))
       <==> (&& cmk == cmk' && v[..36] == v'[..36]
             && serverOuter + peerOuter == serverOuter' + peerOuter')
  {
    var buffer := HEADER + Take(v, 36) + Zeros(40) + [55] + serverOuter + peerOuter;
    var buffer' := HEADER + Take(v', 36) + Zeros(40) + [55] + serverOuter' + peerOuter';
    BuffersDiffer(v[..36], serverOuter, peerOuter, v'[..36], serverOuter', peerOuter');
    if cmk != cmk' || buffer != buffer' {
      var ones: Digest := seq(32, i => 1);
      var mac: Mac := (k: bytes, b: bytes) => if k == cmk && b == buffer then Zeros(32) else ones;
      assert CompoundMac(mac, v, cmk, serverOuter, peerOuter)[0] == 0;
      assert CompoundMac(mac, v', cmk', serverOuter', peerOuter')[0] == 1;
    }
  }

  lemma BuffersDiffer(f: bytes, serverOuter: bytes, peerOuter: bytes,
                      f': bytes, serverOuter': bytes, peerOuter': bytes)
    requires |f| == |f'| == 36
    ensures HEADER + f + Zeros(40) + [55] + serverOuter + peerOuter
         == HEADER + f' + Zeros(40) + [55] + serverOuter' + peerOuter'
       <==> f == f' && serverOuter + peerOuter == serverOuter' + peerOuter'
  {
    var b := HEADER + f + Zeros(40) + [55] + serverOuter + peerOuter;
    var b' := HEADER + f' + Zeros(40) + [55] + serverOuter' + peerOuter';
    assert b[4..40] == f && b'[4..40] == f';
    assert b[81..] == serverOuter + peerOuter && b'[81..] == serverOuter' + peerOuter';
    assert b == HEADER + f + Zeros(40) + [55] + (serverOuter + peerOuter);
    assert b' == HEADER + f' + Zeros(40) + [55] + (serverOuter' + peerOuter');
  }

  /** The fields a response takes over from its request, with its own flags and nonce. */
  function ResponseFields(request: bytes, flags: nat): (r: bytes)
    requires 76 <= |request| && flags <= 3
    ensures |r| == 36
  {
    request[..3] + [flags * 16 + 1] + request[4..35] + [request[35] - request[35] % 2 + 1]
  }

  function ResponseFlags(emskCmk: bytes, includeMsk: bool): (flags: nat)
    ensures flags <= 3
    ensures HasMsk(flags) <==> includeMsk
    ensures HasEmsk(flags) <==> emskCmk != []
  {
    (if includeMsk then 2 else 0) + (if emskCmk != [] then 1 else 0)
  }

  /** The Binding Response to a request of at least 76 octets: its fields, then the EMSK and the
      MSK Compound MAC, or zeros for one that is absent. */
  function Response(mac: Mac, request: bytes, cmk: bytes, serverOuter: bytes, peerOuter: bytes,
                    emskCmk: bytes, includeMsk: bool): (r: Result<bytes>)
    requires 76 <= |request|
    ensures r.Ok? ==> |r.value| == 76
  {
    var flags := ResponseFlags(emskCmk, includeMsk);
    if flags == 0 then Err(ValueError)
    else
      var fields := ResponseFields(request, flags);
      Ok(fields
         + (if emskCmk != [] then CompoundMac(mac, fields, emskCmk, serverOuter, peerOuter)
            else Zeros(20))
         + (if includeMsk then CompoundMac(mac, fields, cmk, serverOuter, peerOuter)
            else Zeros(20)))
  }

  /** build_crypto_binding_response, editing a copy of the request. */
  method BuildResponse(mac: Mac, serverCb: bytes, cmk: bytes, serverOuter: bytes,
                       peerOuter: bytes, emskCmk: bytes, includeMsk: bool)
    returns (r: Result<bytes>)
    requires 76 <= |serverCb|
    ensures r == Response(mac, serverCb, cmk, serverOuter, peerOuter, emskCmk, includeMsk)
  {
    var flags := ResponseFlags(emskCmk, includeMsk);
    if flags == 0 {
      return Err(ValueError);
    }
    var value := Take(serverCb, 76);
    value := value[3 := flags * 16 + 1];
    value := value[35 := value[35] - value[35] % 2 + 1];
    ghost var fields := ResponseFields(serverCb, flags);
    assert value[..36] == fields;
    value := Splice(value, 36, 76, Zeros(40));
    assert value == fields + Zeros(20) + Zeros(20);
    ghost var emskMac := Zeros(20);
    if emskCmk != [] {
      assert Take(value, 36) == Take(fields, 36) == fields;
      var m := ComputeCompoundMac(mac, value, emskCmk, serverOuter, peerOuter);
      value := Splice(value, 36, 56, m);
      emskMac := m;
    }
    assert value == fields + emskMac + Zeros(20);
    if includeMsk {
      assert Take(value, 36) == Take(fields, 36) == fields;
      var m := ComputeCompoundMac(mac, value, cmk, serverOuter, peerOuter);
      value := Splice(value, 56, 76, m);
      assert value == fields + emskMac + m;
    }
    return Ok(value);
  }

  lemma ThreeParts(fields: bytes, emskMac: bytes, mskMac: bytes)
    requires |fields| == 36 && |emskMac| == |mskMac| == 20
    ensures var v := fields + emskMac + mskMac;
            |v| == 76 && v[..36] == fields && v[36..56] == emskMac && v[56..76] == mskMac
  {
  }

  /** A Compound MAC reads no more of a value than its 36 fixed octets. */
  lemma MacOfFields(mac: Mac, v: bytes, fields: bytes, cmk: bytes, serverOuter: bytes,
                    peerOuter: bytes)
    requires |fields| == 36 <= |v| && v[..36] == fields
    ensures CompoundMac(mac, v, cmk, serverOuter, peerOuter)
         == CompoundMac(mac, fields, cmk, serverOuter, peerOuter)
  {
    assert Take(v, 36) == v[..36] && Take(fields, 36) == fields;
  }

  lemma FieldOctets(request: bytes, flags: nat, v: bytes)
    requires 76 <= |request| && flags <= 3 && |v| == 76 && v[..36] == ResponseFields(request, flags)
    ensures v[0] == request[0] && v[1] == request[1] && v[2] == request[2]
    ensures v[3] == flags * 16 + 1 && v[4..35] == request[4..35]
    ensures v[35] == request[35] - request[35] % 2 + 1
  {
    var fields := v[..36];
    assert fields[..3] == request[..3] && fields[4..35] == request[4..35];
    assert v[0] == fields[0] && v[1] == fields[1] && v[2] == fields[2];
    assert fields[0] == request[..3][0] && fields[1] == request[..3][1] && fields[2] == request[..3][2];
    assert v[3] == fields[3] && v[35] == fields[35] && v[4..35] == fields[4..35];
  }

  lemma NonceNext(nonce: bytes, next: bytes)
    requires |nonce| == |next| == 32 && nonce[31] % 2 == 0
    requires next[..31] == nonce[..31] && next[31] == nonce[31] + 1
    ensures Number(next) == Number(nonce) + 1
  {
  }

  /** What a value that begins with the fields of a response parses to. */
  lemma FieldsParse(request: bytes, flags: nat, v: bytes)
    requires ValidRequest(request) && flags <= 3
    requires |v| == 76 && v[..36] == ResponseFields(request, flags)
    ensures !ValidRequest(v)
    ensures var q, a := Parse(request).value, Parse(v).value;
            && a.subType == 1 && a.version == 1 && a.receivedVersion == 1 && a.flags == flags
            && Number(a.nonce) == Number(q.nonce) + 1
  {
    FieldOctets(request, flags, v);
    var q, a := Parse(request).value, Parse(v).value;
    assert q.nonce[31] == request[35] && a.nonce[31] == v[35];
    assert q.nonce[..31] == request[4..35] && a.nonce[..31] == v[4..35];
    NonceNext(q.nonce, a.nonce);
  }

  /** Sections 4.2.13, 6.2.4 and 6.3: the response to a valid request has Sub-Type 1, flags
      naming exactly the MACs present, the request nonce plus one, zeros for an absent MAC, and
      each present MAC equal to the Compound MAC recomputed over the finished response. It is
      itself never a valid request. */
  lemma ResponseAnswers(mac: Mac, request: bytes, cmk: bytes, serverOuter: bytes,
                        peerOuter: bytes, emskCmk: bytes, includeMsk: bool)
    requires ValidRequest(request)
    ensures var r := Response(mac, request, cmk, serverOuter, peerOuter, emskCmk, includeMsk);
            && (r.Ok? <==> includeMsk || emskCmk != [])
            && (r.Ok? ==>
                && |r.value| == 76 && !ValidRequest(r.value)
                && var q, a := Parse(request).value, Parse(r.value).value;
                   && a.subType == 1 && a.version == 1 && a.receivedVersion == 1
                   && (HasMsk(a.flags) <==> includeMsk) && (HasEmsk(a.flags) <==> emskCmk != [])
                   && a.flags <= 3
                   && Number(a.nonce) == Number(q.nonce) + 1
                   && a.emskMac == (if emskCmk != [] then
                        CompoundMac(mac, r.value, emskCmk, serverOuter, peerOuter) else Zeros(20))
                   && a.mskMac == (if includeMsk then
                        CompoundMac(mac, r.value, cmk, serverOuter, peerOuter) else Zeros(20)))
  {
    hide CompoundMac, ResponseFields;
    var r := Response(mac, request, cmk, serverOuter, peerOuter, emskCmk, includeMsk);
    if r.Ok? {
      var flags := ResponseFlags(emskCmk, includeMsk);
      var fields := ResponseFields(request, flags);
      var emskMac := if emskCmk != [] then CompoundMac(mac, fields, emskCmk, serverOuter, peerOuter)
                     else Zeros(20);
      var mskMac := if includeMsk then CompoundMac(mac, fields, cmk, serverOuter, peerOuter)
                    else Zeros(20);
      ThreeParts(fields, emskMac, mskMac);
      assert r.value == fields + emskMac + mskMac;
      FieldsParse(request, flags, r.value);
      MacOfFields(mac, r.value, fields, emskCmk, serverOuter, peerOuter);
      MacOfFields(mac, r.value, fields, cmk, serverOuter, peerOuter);
    }
  }
}
