/** Numbers and octets as text: str(n), format(n, "x"), bytes.hex and bytes.fromhex. */
module Digits {
  import opened Bytes

  predicate IsHexDigit(c: char) { '0' <= c <= '9' || 'a' <= c <= 'f' }

  predicate AllHexDigits(s: string) {
    forall i :: 0 <= i < |s| ==> IsHexDigit(s[i])
  }

  function Digit(d: nat): (c: char)
    requires d < 16
    ensures IsHexDigit(c)
  {
    if d < 10 then (48 + d) as char else (87 + d) as char
  }

  function DigitValue(c: char): (d: nat)
    ensures d < 16
  {
    if '0' <= c <= '9' then c as int - '0' as int
    else if 'a' <= c <= 'f' then c as int - 'a' as int + 10
    else 0
  }

  lemma DigitRoundTrip(d: nat)
    requires d < 16
    ensures DigitValue(Digit(d)) == d
  {
  }

  function Decimal(n: nat): (s: string)
    ensures s != [] && AllHexDigits(s)
  {
    if n < 10 then [Digit(n)] else Decimal(n / 10) + [Digit(n % 10)]
  }

  lemma {:induction false} DecimalInjective(m: nat, n: nat)
    requires Decimal(m) == Decimal(n)
    ensures m == n
  {
    var s := Decimal(m);
    assert s[|s| - 1] == Digit(m % 10) && s[|s| - 1] == Digit(n % 10);
    DigitRoundTrip(m % 10);
    DigitRoundTrip(n % 10);
    if m >= 10 && n >= 10 {
      assert Decimal(m / 10) == s[..|s| - 1] && Decimal(n / 10) == s[..|s| - 1];
      DecimalInjective(m / 10, n / 10);
    }
  }

  /** format(n, "x") */
  function HexNumber(n: nat): (s: string)
    ensures AllHexDigits(s)
  {
    if n < 16 then [Digit(n)] else HexNumber(n / 16) + [Digit(n % 16)]
  }

  function Hex(b: bytes): (s: string)
    ensures |s| == 2 * |b| && AllHexDigits(s)
  {
    if b == [] then "" else [Digit(b[0] / 16), Digit(b[0] % 16)] + Hex(b[1..])
  }

  /** bytes.fromhex on text Hex wrote. */
  function FromHex(s: string): bytes {
    if |s| < 2 then []
    else [DigitValue(s[0]) * 16 + DigitValue(s[1])] + FromHex(s[2..])
  }

  lemma {:induction false} HexRoundTrip(b: bytes)
    ensures FromHex(Hex(b)) == b
  {
    if b != [] {
      DigitRoundTrip(b[0] / 16);
      DigitRoundTrip(b[0] % 16);
      HexRoundTrip(b[1..]);
      assert Hex(b)[2..] == Hex(b[1..]);
      assert b == [b[0]] + b[1..];
    }
  }
}
