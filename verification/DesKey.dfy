/** Spreading 56 key bits over 8 octets, as teap_tester/mschapv2.py prepares a DES key. */
module DesKey {
  import opened Bytes

  /** The low 7 * count bits of n in groups of 7, most significant first. */
  function Groups(n: nat, count: nat): (r: seq<nat>)
    ensures |r| == count
    ensures forall i :: 0 <= i < count ==> r[i] < 0x80
  {
    if count == 0 then [] else Groups(n / 0x80, count - 1) + [n % 0x80]
  }

  /** The number that groups of 7 bits write. */
  function Value(groups: seq<nat>): nat {
    if groups == [] then 0 else Value(groups[..|groups| - 1]) * 0x80 + groups[|groups| - 1]
  }

  lemma ShiftBy7(n: nat, m: nat)
    ensures ShiftRight(n, 7 + m) == ShiftRight(n / 0x80, m)
  {
    assert ShiftRight(n, 7 + m) == ShiftRight(n / 2 / 2, 5 + m);
    assert ShiftRight(n / 4, 5 + m) == ShiftRight(n / 4 / 2 / 2, 3 + m);
    assert ShiftRight(n / 16, 3 + m) == ShiftRight(n / 16 / 2 / 2, 1 + m);
    assert ShiftRight(n / 64, 1 + m) == ShiftRight(n / 64 / 2, m);
  }

  lemma {:induction false} GroupAt(n: nat, count: nat, i: nat)
    requires i < count
    ensures Groups(n, count)[i] == ShiftRight(n, 7 * (count - 1 - i)) % 0x80
  {
    if i < count - 1 {
      GroupAt(n / 0x80, count - 1, i);
      ShiftBy7(n, 7 * (count - 2 - i));
    }
  }

  lemma {:induction false} GroupsKeepAll(n: nat, count: nat)
    requires ShiftRight(n, 7 * count) == 0
    ensures Value(Groups(n, count)) == n
  {
    if count > 0 {
      ShiftBy7(n, 7 * (count - 1));
      GroupsKeepAll(n / 0x80, count - 1);
      assert Groups(n, count)[..count - 1] == Groups(n / 0x80, count - 1);
    }
  }

  lemma ShiftBy8(n: nat, m: nat)
    ensures ShiftRight(n, 8 + m) == ShiftRight(n / 0x100, m)
  {
    ShiftBy7(n, 1 + m);
    assert ShiftRight(n / 0x80, 1 + m) == ShiftRight(n / 0x80 / 2, m);
  }

  lemma {:induction false} NumberFits(b: bytes)
    ensures ShiftRight(Number(b), 8 * |b|) == 0
  {
    if b != [] {
      NumberFits(b[..|b| - 1]);
      ShiftBy8(Number(b), 8 * (|b| - 1));
      assert Number(b) / 0x100 == Number(b[..|b| - 1]);
    }
  }

  lemma {:induction false} NumberInjective(a: bytes, b: bytes)
    requires |a| == |b| && Number(a) == Number(b)
    ensures a == b
  {
    if a != [] {
      NumberInjective(a[..|a| - 1], b[..|b| - 1]);
      assert a == a[..|a| - 1] + [a[|a| - 1]] && b == b[..|b| - 1] + [b[|b| - 1]];
    }
  }

  /** Each group of 7 bits in the high bits of an octet, with the parity bit left clear. */
  function Spread(seven: bytes): (key: bytes)
    ensures |key| == 8
  {
    var groups := Groups(Number(seven), 8);
    seq(8, i requires 0 <= i < 8 => 2 * groups[i])
  }

  lemma SpreadAt(seven: bytes, i: nat)
    requires i < 8
    ensures Spread(seven)[i] == ShiftRight(Number(seven), 49 - 7 * i) % 0x80 * 2
  {
    GroupAt(Number(seven), 8, i);
  }

  /** _des_key_from_7, filling the key octet by octet. */
  method KeyFrom7(seven: bytes) returns (key: bytes)
    ensures key == Spread(seven)
  {
    var b := Number(seven);
    ghost var spread := Spread(seven);
    var out := new byte[8](i => 0);
    for i := 0 to 8
      invariant forall j :: 0 <= j < i ==> out[j] == spread[j]
    {
      SpreadAt(seven, i);
      out[i] := ShiftRight(b, 49 - 7 * i) % 0x80 * 2;
    }
    return out[..];
  }

  /** The 7 bits of every octet above its parity bit: what DES takes of a key. */
  function KeyBits(key: bytes): (r: seq<nat>)
    ensures |r| == |key|
    ensures forall i :: 0 <= i < |key| ==> r[i] == key[i] / 2
  {
    seq(|key|, i requires 0 <= i < |key| => key[i] as int / 2)
  }

  lemma SpreadReads(seven: bytes)
    requires |seven| == 7
    ensures Value(KeyBits(Spread(seven))) == Number(seven)
  {
    hide Number, ShiftRight, Value, Groups;
    NumberFits(seven);
    GroupsKeepAll(Number(seven), 8);
    assert KeyBits(Spread(seven)) == Groups(Number(seven), 8);
  }

  /** No key bit is lost or moved: the 56 bits that DES takes of the spread key write the same
      number as the 7 octets given, the parity bits are clear, and different inputs give
      different keys. */
  lemma SpreadKeepsTheKey(seven: bytes, other: bytes)
    requires |seven| == 7 && |other| == 7
    ensures Value(KeyBits(Spread(seven))) == Number(seven)
    ensures forall i :: 0 <= i < 8 ==> Spread(seven)[i] % 2 == 0
    ensures Spread(seven) == Spread(other) ==> seven == other
  {
    SpreadReads(seven);
    SpreadReads(other);
    if Spread(seven) == Spread(other) {
      NumberInjective(seven, other);
    }
  }
}
