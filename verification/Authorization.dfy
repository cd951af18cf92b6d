/** The reply attributes a session keeps, and how they are read back: _capture_reply_attrs of
    teap_tester/state_machine.py and values, first and parse_vsa of
    teap_tester/authorization.py. */
module Authorization {
  import opened Bytes
  import opened Digits
  import opened Radius

  /** A dictionary key: an attribute number live, its decimal text once stored as JSON. */
  datatype Key = Number(n: nat) | Text(s: string)

  /** A single hex string, or the list a repeated type turns into. */
  datatype Held = One(hex: string) | Many(hexes: seq<string>)

  type Store = map<Key, Held>

  function HexAll(values: seq<bytes>): (r: seq<string>)
    ensures |r| == |values|
    ensures forall i :: 0 <= i < |r| ==> r[i] == Hex(values[i])
  {
    seq(|values|, i requires 0 <= i < |values| => Hex(values[i]))
  }

  function FromHexAll(hexes: seq<string>): (r: seq<bytes>)
    ensures |r| == |hexes|
    ensures forall i :: 0 <= i < |r| ==> r[i] == FromHex(hexes[i])
  {
    seq(|hexes|, i requires 0 <= i < |hexes| => FromHex(hexes[i]))
  }

  // ── Capture ──

  function Add(m: Store, a: Attr): Store {
    var key := Number(a.kind);
    if key !in m then m[key := One(Hex(a.value))]
    else
      var previous := match m[key] case One(h) => [h] case Many(hs) => hs;
      m[key := Many(previous + [Hex(a.value)])]
  }

  function Captured(attrs: seq<Attr>): Store {
    if attrs == [] then map[]
    else Add(Captured(attrs[..|attrs| - 1]), attrs[|attrs| - 1])
  }

  /** The loop of _capture_reply_attrs. */
  method Capture(attrs: seq<Attr>) returns (m: Store)
    ensures m == Captured(attrs)
  {
    m := map[];
    for i := 0 to |attrs|
      invariant m == Captured(attrs[..i])
    {
      assert attrs[..i + 1][..i] == attrs[..i];
      var key := Number(attrs[i].kind);
      if key in m {
        var previous := m[key];
        var list := if previous.Many? then previous.hexes else [previous.hex];
        m := m[key := Many(list + [Hex(attrs[i].value)])];
      } else {
        m := m[key := One(Hex(attrs[i].value))];
      }
    }
    assert attrs[..|attrs|] == attrs;
  }

  // ── Reading ──

  function Listed(h: Held): seq<string> {
    match h case One(hex) => [hex] case Many(hexes) => hexes
  }

  /** values */
  function Values(m: Store, n: nat): seq<string> {
    if Number(n) in m then Listed(m[Number(n)])
    else if Text(Decimal(n)) in m then Listed(m[Text(Decimal(n))])
    else []
  }

  function First(m: Store, n: nat): Option<string> {
    var found := Values(m, n);
    if found == [] then None else Some(found[0])
  }

  /** A map with its numbers turned into text by an injective rendering. */
  function Rekeyed(m: Store, text: nat -> string): Store
    requires forall a, b :: text(a) == text(b) ==> a == b
    requires forall k :: k in m ==> k.Number?
  {
    map k | k in m :: Text(text(k.n)) := m[k]
  }

  lemma RekeyedReads(m: Store, text: nat -> string, n: nat)
    requires forall a, b :: text(a) == text(b) ==> a == b
    requires forall k :: k in m ==> k.Number?
    ensures Number(n) !in Rekeyed(m, text)
    ensures Text(text(n)) in Rekeyed(m, text) <==> Number(n) in m
    ensures Number(n) in m ==> Rekeyed(m, text)[Text(text(n))] == m[Number(n)]
  {
  }

  /** The captured map as it comes back from storage. */
  function Stored(m: Store): (t: Store)
    requires forall k :: k in m ==> k.Number?
  {
    AllDecimalsDiffer();
    Rekeyed(m, Decimal)
  }

  lemma AllDecimalsDiffer()
    ensures forall m: nat, n: nat :: Decimal(m) == Decimal(n) ==> m == n
  {
    forall m: nat, n: nat | Decimal(m) == Decimal(n)
      ensures m == n
    {
      DecimalInjective(m, n);
    }
  }

  /** The map holds exactly these values for type n: nothing, the one value, or the list. */
  predicate Holds(m: Store, n: nat, values: seq<bytes>) {
    if values == [] then Number(n) !in m
    else Number(n) in m && Listed(m[Number(n)]) == HexAll(values)
  }

  lemma AddHolds(m: Store, a: Attr, n: nat, values: seq<bytes>)
    requires Holds(m, n, values)
    ensures Holds(Add(m, a), n, values + (if a.kind == n then [a.value] else []))
    ensures (forall k :: k in m ==> k.Number?) ==> forall k :: k in Add(m, a) ==> k.Number?
  {
    if a.kind == n {
      assert HexAll(values + [a.value]) == HexAll(values) + [Hex(a.value)];
    } else {
      assert values + [] == values;
    }
  }

  lemma {:induction false} CapturedHolds(attrs: seq<Attr>, n: nat)
    ensures forall k :: k in Captured(attrs) ==> k.Number?
    ensures Holds(Captured(attrs), n, ValuesOf(attrs, n))
  {
    hide Holds, Add, ValuesOf;
    if attrs == [] {
      NothingHeld(n);
    } else {
      var front, last := attrs[..|attrs| - 1], attrs[|attrs| - 1];
      assert attrs == front + [last];
      CapturedHolds(front, n);
      AddHolds(Captured(front), last, n, ValuesOf(front, n));
      ValuesOfAppend(front, [last], n);
      ValuesOfOne(last, n);
    }
  }

  lemma NothingHeld(n: nat)
    ensures Holds(map[], n, ValuesOf([], n))
  {
  }

  lemma ValuesOfOne(a: Attr, n: nat)
    ensures ValuesOf([a], n) == if a.kind == n then [a.value] else []
  {
    assert [a][1..] == [];
  }

  /** The single-or-list encoding loses nothing: for any received list and any number, decoding
      what `values` returns gives every value of that type in order, from the live map and from
      the stored one; and `first` is the first of them, if any. */
  lemma ValuesLoseNothing(attrs: seq<Attr>, n: nat)
    ensures forall k :: k in Captured(attrs) ==> k.Number?
    ensures FromHexAll(Values(Captured(attrs), n)) == ValuesOf(attrs, n)
    ensures Values(Stored(Captured(attrs)), n) == Values(Captured(attrs), n)
    ensures First(Captured(attrs), n)
         == var values := ValuesOf(attrs, n); if values == [] then None else Some(Hex(values[0]))
  {
    CapturedHolds(attrs, n);
    AllDecimalsDiffer();
    RekeyedReads(Captured(attrs), Decimal, n);
    var values := ValuesOf(attrs, n);
    assert Values(Captured(attrs), n) == HexAll(values);
    forall i | 0 <= i < |values|
      ensures FromHex(HexAll(values)[i]) == values[i]
    {
      HexRoundTrip(values[i]);
    }
  }

  // ── Vendor-Specific attributes ──

  /** The sub-attributes of a Vendor-Specific value have the layout of attributes, after the
      four octets of the vendor. */
  function Vsa(value: bytes): (nat, seq<Attr>) {
    if |value| < 4 then (0, []) else (GetU32(value, 0), Walk(value, 4))
  }

  /** parse_vsa */
  method ParseVsa(value: bytes) returns (vendor: nat, out: seq<Attr>)
    ensures (vendor, out) == Vsa(value)
  {
    if |value| < 4 {
      return 0, [];
    }
    vendor := GetU32(value, 0);
    out := [];
    var offset := 4;
    while offset + 2 <= |value|
      invariant offset <= |value|
      invariant out + Walk(value, offset) == Walk(value, 4)
      decreases |value| - offset
    {
      var subtype := value[offset];
      var length := value[offset + 1];
      if length < 2 || offset + length > |value| {
        break;
      }
      Extend(out, value, offset);
      var sub := value[offset + 2..offset + length];
      out := out + [Attr(subtype, sub)];
      offset := offset + length;
    }
    assert out + [] == out;
  }

  /** parse_vsa reads back any vendor and any list of sub-attributes that fit. */
  lemma VsaRoundTrip(vendor: nat, subs: seq<Attr>)
    requires vendor < 0x1_0000_0000 && AllFit(subs)
    ensures Vsa(U32(vendor) + EncodeFrom(subs, 0)) == (vendor, subs)
  {
    var value := U32(vendor) + EncodeFrom(subs, 0);
    U32RoundTrip(vendor, value, 0);
    assert At(value, 4, EncodeFrom(subs, 0));
    WalkEncoded(value, 4, subs, 0);
    assert subs[0..] + [] == subs;
  }
}
