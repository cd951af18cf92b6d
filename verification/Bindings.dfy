/** What a Binding Request is accepted for, and what answers it, octet by octet: sections 4.2.13,
    6.2.4 and 6.3 of RFC 9930. */
module Bindings {
  import opened Bytes
  import opened Crypto
  import opened SessionSpec
  import CB = CryptoBinding
  import Tlv

  /** The first 20 octets of the HMAC over the Crypto-Binding TLV with its MAC fields zeroed, the
      EAP type and the server's outer TLVs; this peer sends none of its own. */
  function Mac20(mac: Mac, cmk: bytes, value: bytes, serverOuter: bytes): (r: bytes)
    requires 36 <= |value|
    ensures |r| == 20
  {
    mac(cmk, Tlv.Encoding(Tlv.Tlv(12, true, value[..36] + Zeros(40))) + [55] + serverOuter)[..20]
  }

  lemma MacsAgree(mac: Mac, cmk: bytes, value: bytes, serverOuter: bytes)
    requires 76 <= |value|
    ensures CB.CompoundMac(mac, value, cmk, serverOuter, []) == Mac20(mac, cmk, value, serverOuter)
  {
    var v := value[..76];
    assert Take(v, 36) == Take(value, 36) == value[..36] == v[..36];
    CB.MacOfTlv(mac, v, cmk, serverOuter, []);
    var buffer := Tlv.Encoding(Tlv.Tlv(12, true, v[..36] + Zeros(40))) + [55] + serverOuter;
    assert buffer + [] == buffer;
  }

  /** Version and Received-Ver 1, Sub-Type 0, at least one MAC named, the last nonce bit clear. */
  predicate WellFormed(cb: bytes) {
    && 76 <= |cb| && cb[1] == 1 && cb[2] == 1 && cb[3] in {0x10, 0x20, 0x30} && cb[35] % 2 == 0
  }

  predicate NamesMsk(cb: bytes)
    requires 4 <= |cb|
  {
    cb[3] / 16 in {2, 3}
  }

  predicate NamesEmsk(cb: bytes)
    requires 4 <= |cb|
  {
    cb[3] / 16 in {1, 3}
  }

  lemma WellFormedAgrees(cb: bytes)
    ensures CB.ValidRequest(cb) <==> WellFormed(cb)
    ensures WellFormed(cb) ==>
              var p := CB.Parse(cb).value;
              && (CB.HasMsk(p.flags) <==> NamesMsk(cb)) && (CB.HasEmsk(p.flags) <==> NamesEmsk(cb))
              && p.emskMac == cb[36..56] && p.mskMac == cb[56..76]
  {
  }

  /** The hash of the tunnel's cipher suite. */
  function HashOf(c: Config, s: Protocol): Mac {
    c.prims.hmac(if s.outer.Some? && s.outer.value.sha384 then Sha384 else Sha256)
  }

  /** The MACs named that these keys can check are right, and there is one at least. */
  predicate Proven(mac: Mac, cb: bytes, serverOuter: bytes, keys: Keys)
    requires 76 <= |cb|
  {
    && (NamesMsk(cb) || keys.emskCmk != [])
    && (NamesMsk(cb) ==> cb[56..76] == Mac20(mac, keys.cmk, cb, serverOuter))
    && (NamesEmsk(cb) && keys.emskCmk != [] ==>
          cb[36..56] == Mac20(mac, keys.emskCmk, cb, serverOuter))
  }

  /** A Binding Request is answered exactly when it is well formed and proves, under the keys
      derived for it and the tunnel's hash and outer TLVs, that both ends hold them. */
  lemma BoundExactlyWhen(c: Config, s: Protocol, cb: bytes, o: Oracle)
    ensures Bind(c, s, cb, o).Bound?
       <==> WellFormed(cb) && Proven(HashOf(c, s), cb, s.serverOuter, Keyed(c, s, o).keys)
  {
    hide CB.CompoundMac, CB.Response, CB.ValidRequest, CB.Parse, Keyed, Mac20;
    WellFormedAgrees(cb);
    if WellFormed(cb) {
      var k := Keyed(c, s, o);
      KeyedKeepsOuter(c, s, o);
      MacsAgree(HashOf(c, s), k.keys.cmk, cb, s.serverOuter);
      MacsAgree(HashOf(c, s), k.keys.emskCmk, cb, s.serverOuter);
      CB.ResponseAnswers(HashOf(c, s), cb, k.keys.cmk, s.serverOuter, [], k.keys.emskCmk, NamesMsk(cb));
    }
  }

  lemma KeyedKeepsOuter(c: Config, s: Protocol, o: Oracle)
    ensures Keyed(c, s, o).serverOuter == s.serverOuter
  {
  }

  /** The Binding Response: the request's first 36 octets but for Sub-Type 1, flags naming the MACs
      there are, and the last nonce bit set; then the EMSK MAC and the MSK MAC over the response
      itself, or zeros. An MSK MAC answers an MSK MAC; an EMSK MAC is there if there is a key. */
  lemma BoundSays(c: Config, s: Protocol, cb: bytes, o: Oracle)
    requires Bind(c, s, cb, o).Bound?
    ensures var a, keys := Bind(c, s, cb, o).response, Keyed(c, s, o).keys;
            && 76 <= |cb| && |a| == 76
            && a[..3] == cb[..3] && a[4..35] == cb[4..35] && a[35] == cb[35] + 1
            && a[3] == (if NamesMsk(cb) then 0x20 else 0) + (if keys.emskCmk != [] then 0x10 else 0) + 1
            && a[36..56] == (if keys.emskCmk != [] then
                               Mac20(HashOf(c, s), keys.emskCmk, a, s.serverOuter)
                             else Zeros(20))
            && a[56..76] == (if NamesMsk(cb) then
                               Mac20(HashOf(c, s), keys.cmk, a, s.serverOuter)
                             else Zeros(20))
  {
    hide CB.CompoundMac, Keyed, Mac20, CB.ResponseFields;
    BoundExactlyWhen(c, s, cb, o);
    WellFormedAgrees(cb);
    KeyedKeepsOuter(c, s, o);
    var a, keys := Bind(c, s, cb, o).response, Keyed(c, s, o).keys;
    var mac := HashOf(c, s);
    var flags := CB.ResponseFlags(keys.emskCmk, NamesMsk(cb));
    var fields := CB.ResponseFields(cb, flags);
    CB.ThreeParts(fields,
                  if keys.emskCmk != [] then CB.CompoundMac(mac, fields, keys.emskCmk, s.serverOuter, [])
                  else Zeros(20),
                  if NamesMsk(cb) then CB.CompoundMac(mac, fields, keys.cmk, s.serverOuter, [])
                  else Zeros(20));
    CB.FieldOctets(cb, flags, a);
    CB.MacOfFields(mac, a, fields, keys.emskCmk, s.serverOuter, []);
    CB.MacOfFields(mac, a, fields, keys.cmk, s.serverOuter, []);
    MacsAgree(mac, keys.emskCmk, a, s.serverOuter);
    MacsAgree(mac, keys.cmk, a, s.serverOuter);
    assert a[..3] == cb[..3];
  }

  /** The outer TLVs that TEAP/Start leaves for the MACs are the value of the Authority-ID TLV
      without its header, or the bare header when the value is empty; a new tunnel is begun with a
      ClientHello. */
  lemma AuthorityKept(s: Protocol, t: Tlv.Tlv, hello: bytes, o: Oracle)
    requires Tlv.WellSized(t) && o.outerHello == Ok(hello)
    ensures var r := Start(s, Tlv.Encoding(t), o);
            && r.s.serverOuter == (if t.value != [] then t.value else Tlv.Encoding(t))
            && r.s.outer == Some(Tunnel(false, false)) && r.action == Hello(hello)
  {
    assert Tlv.Encoding(t)[4..] == t.value;
  }
}
