/** What the functions of the template language compute, by reading back what they return:
    _apply of teap_gui/template.py. */
module TemplateFunctions {
  import opened Bytes
  import opened Rewriting
  import opened Template
  import Digits

  // ── uc and lc ──

  predicate Small(c: char) { 'a' <= c <= 'z' }

  predicate Capital(c: char) { 'A' <= c <= 'Z' }

  /** The same letter of the two alphabets. */
  predicate Pair(small: char, capital: char) {
    Small(small) && Capital(capital)
    && small as int - 'a' as int == capital as int - 'A' as int
  }

  /** uc: small letters become their capitals, and everything else stays. */
  lemma UcCapitalizes(args: seq<string>, drawn: nat, draws: Draws)
    requires args != []
    ensures var r := Apply(Uc, args, drawn, draws);
            && r.Value? && r.drawn == drawn && |r.text| == |args[0]|
            && forall i :: 0 <= i < |r.text| ==>
                 if Small(args[0][i]) then Pair(args[0][i], r.text[i]) else r.text[i] == args[0][i]
  {
  }

  /** lc: capital letters become their small ones, and everything else stays. */
  lemma LcUncapitalizes(args: seq<string>, drawn: nat, draws: Draws)
    requires args != []
    ensures var r := Apply(Lc, args, drawn, draws);
            && r.Value? && r.drawn == drawn && |r.text| == |args[0]|
            && forall i :: 0 <= i < |r.text| ==>
                 if Capital(args[0][i]) then Pair(r.text[i], args[0][i]) else r.text[i] == args[0][i]
  {
  }

  // ── Numerals ──

  /** White space: tab to carriage return, the four information separators, space, the next-line
      control and the no-break space. */
  lemma SpacesAre(c: char)
    ensures IsSpace(c) <==> c in "\t\n\U{0B}\U{0C}\r\U{1C}\U{1D}\U{1E}\U{1F} \U{85}\U{A0}"
  {
  }

  /** A digit, or an underscore between digits that are not apart by more. */
  predicate NumeralAt(s: string, i: nat)
    requires i < |s|
  {
    IsDigit(s[i]) || (s[i] == '_' && 0 < i < |s| - 1 && s[i - 1] != '_')
  }

  /** Digits with single underscores between them. */
  predicate Numeral(s: string) {
    && s != "" && IsDigit(s[0]) && IsDigit(s[|s| - 1])
    && forall i :: 0 <= i < |s| ==> NumeralAt(s, i)
  }

  /** The number the digits of a text write. */
  function Written(s: string): nat {
    if s == "" then 0
    else
      var last, front := s[|s| - 1], Written(s[..|s| - 1]);
      if IsDigit(last) then 10 * front + (last as int - '0' as int) else front
  }

  /** int() of an unsigned text reads exactly the numerals, and reads the number they write. */
  lemma {:induction false} ParseNatExactlyWhen(s: string)
    ensures ParseNat(s).Some? <==> Numeral(s)
    ensures ParseNat(s).Some? ==> ParseNat(s).value == Written(s)
    decreases |s|
  {
    if s != "" && IsDigit(s[|s| - 1]) && |s| > 1 {
      var front := s[..|s| - 1];
      if front[|front| - 1] == '_' {
        var rest := front[..|front| - 1];
        ParseNatExactlyWhen(rest);
        NumeralSplits(s, rest);
        assert Written(front) == Written(rest);
      } else {
        ParseNatExactlyWhen(front);
        NumeralGrows(s, front);
      }
    }
  }

  lemma NumeralGrows(s: string, front: string)
    requires |s| > 1 && front == s[..|s| - 1] && IsDigit(s[|s| - 1]) && front[|front| - 1] != '_'
    ensures Numeral(s) <==> Numeral(front)
  {
    if Numeral(front) {
      forall i | 0 <= i < |s|
        ensures NumeralAt(s, i)
      {
        if i < |front| {
          assert NumeralAt(front, i);
        }
      }
    }
    if Numeral(s) {
      forall i | 0 <= i < |front|
        ensures NumeralAt(front, i)
      {
        assert NumeralAt(s, i);
      }
      assert NumeralAt(s, |front| - 1);
    }
  }

  lemma NumeralSplits(s: string, rest: string)
    requires |s| > 1 && IsDigit(s[|s| - 1]) && s[|s| - 2] == '_' && rest == s[..|s| - 2]
    ensures Numeral(s) <==> Numeral(rest)
  {
    if Numeral(rest) {
      forall i | 0 <= i < |s|
        ensures NumeralAt(s, i)
      {
        if i < |rest| {
          assert NumeralAt(rest, i);
        }
      }
    }
    if Numeral(s) {
      assert NumeralAt(s, |s| - 2) && NumeralAt(s, |s| - 3);
      forall i | 0 <= i < |rest|
        ensures NumeralAt(rest, i)
      {
        assert NumeralAt(s, i);
      }
    }
  }

  // ── Numbers as text ──

  lemma DigitsAre(d: nat)
    requires d < 16
    ensures Digits.Digit(d) == "0123456789abcdef"[d]
  {
  }

  lemma AllDigits(s: string)
    requires s != "" && forall i :: 0 <= i < |s| ==> IsDigit(s[i])
    ensures Numeral(s)
  {
  }

  /** Decimal digits, with no zero before others, that write the number. */
  lemma {:induction false} DecimalReads(n: nat)
    ensures var s := Digits.Decimal(n);
            && Written(s) == n && Numeral(s)
            && (forall i :: 0 <= i < |s| ==> IsDigit(s[i]))
            && (s[0] == '0' ==> n == 0 && s == "0")
  {
    var s := Digits.Decimal(n);
    if n >= 10 {
      DecimalReads(n / 10);
      var front := Digits.Decimal(n / 10);
      assert s[..|s| - 1] == front && s[0] == front[0];
      assert forall i :: 0 <= i < |front| ==> s[i] == front[i];
      AllDigits(s);
    } else {
      assert s == [Digits.Digit(n)] && s[..0] == "";
      assert Written(s[..0]) == 0;
      AllDigits(s);
    }
  }

  /** The number hexadecimal digits write. */
  function WrittenHex(s: string): nat {
    if s == "" then 0 else 16 * WrittenHex(s[..|s| - 1]) + Digits.DigitValue(s[|s| - 1])
  }

  lemma {:induction false} HexNumberReads(n: nat)
    ensures var s := Digits.HexNumber(n);
            WrittenHex(s) == n && s != "" && (s[0] == '0' ==> n == 0 && s == "0")
  {
    var s := Digits.HexNumber(n);
    if n >= 16 {
      HexNumberReads(n / 16);
      var front := Digits.HexNumber(n / 16);
      Digits.DigitRoundTrip(n % 16);
      assert s[..|s| - 1] == front && s[0] == front[0];
    } else {
      Digits.DigitRoundTrip(n);
      assert s == [Digits.Digit(n)] && s[..0] == "";
      assert WrittenHex(s[..0]) == 0;
      DigitsAre(n);
    }
  }

  // ── Integers ──

  predicate Blank(s: string) { forall i :: 0 <= i < |s| ==> IsSpace(s[i]) }

  /** No white space at either end. */
  predicate Tight(s: string) { s != "" ==> !IsSpace(s[0]) && !IsSpace(s[|s| - 1]) }

  lemma {:induction false} TrimLeftSplits(s: string) returns (a: string)
    ensures s == a + TrimLeft(s) && Blank(a)
    ensures TrimLeft(s) != "" ==> !IsSpace(TrimLeft(s)[0])
  {
    if s != "" && IsSpace(s[0]) {
      var rest := TrimLeftSplits(s[1..]);
      a := [s[0]] + rest;
      assert s == [s[0]] + s[1..];
    } else {
      a := "";
    }
  }

  lemma {:induction false} TrimRightSplits(s: string) returns (b: string)
    ensures s == TrimRight(s) + b && Blank(b)
    ensures TrimRight(s) != "" ==> !IsSpace(TrimRight(s)[|TrimRight(s)| - 1])
    decreases |s|
  {
    if s != "" && IsSpace(s[|s| - 1]) {
      var front, last := s[..|s| - 1], [s[|s| - 1]];
      var rest := TrimRightSplits(front);
      TrimsTo(s, front);
      b := rest + last;
      assert s == front + last;
      Assoc(TrimRight(front), rest, last);
    } else {
      b := "";
    }
  }

  lemma TrimsTo(s: string, front: string)
    requires s != "" && IsSpace(s[|s| - 1]) && front == s[..|s| - 1]
    ensures TrimRight(s) == TrimRight(front)
  {
  }

  /** White space around a tight text is what is stripped. */
  lemma StripReads(s: string) returns (a: string, b: string)
    ensures var t := TrimRight(TrimLeft(s));
            s == a + t + b && Blank(a) && Blank(b) && Tight(t)
  {
    a := TrimLeftSplits(s);
    b := TrimRightSplits(TrimLeft(s));
    var t := TrimRight(TrimLeft(s));
    if t != "" {
      assert TrimLeft(s)[0] == t[0];
    }
  }

  /** White space, a sign or none, a numeral, white space: an integer as int() takes it. */
  ghost predicate WritesInteger(s: string, n: int) {
    exists a: string, sign: string, t: string, b: string ::
      Integer(s, a, sign, t, b) && n == if sign == "-" then -(Written(t) as int) else Written(t)
  }

  predicate Integer(s: string, a: string, sign: string, t: string, b: string) {
    s == a + (sign + t) + b && Blank(a) && Blank(b) && sign in {"", "+", "-"} && Numeral(t)
  }

  lemma {:induction false} TrimLeftSkips(a: string, t: string)
    requires Blank(a) && (t != "" ==> !IsSpace(t[0]))
    ensures TrimLeft(a + t) == t
  {
    if a == "" {
      assert a + t == t;
    } else {
      assert (a + t)[1..] == a[1..] + t && (a + t)[0] == a[0];
      TrimLeftSkips(a[1..], t);
    }
  }

  lemma {:induction false} TrimRightSkips(t: string, b: string)
    requires Blank(b) && (t != "" ==> !IsSpace(t[|t| - 1]))
    ensures TrimRight(t + b) == t
  {
    if b == "" {
      assert t + b == t;
    } else {
      var s := t + b;
      assert s[..|s| - 1] == t + b[..|b| - 1] && s[|s| - 1] == b[|b| - 1];
      TrimRightSkips(t, b[..|b| - 1]);
    }
  }

  lemma IntegerStrips(s: string, a: string, sign: string, t: string, b: string)
    requires Integer(s, a, sign, t, b)
    ensures TrimRight(TrimLeft(s)) == sign + t
  {
    var u := sign + t;
    assert u[|u| - 1] == t[|t| - 1];
    assert u[0] == (if sign == "" then t[0] else sign[0]);
    assert s == a + (u + b);
    assert (u + b)[0] == u[0];
    TrimLeftSkips(a, u + b);
    TrimRightSkips(u, b);
  }

  lemma IntegerRead(s: string, a: string, sign: string, t: string, b: string)
    requires Integer(s, a, sign, t, b)
    ensures ParseInt(s) == Some(if sign == "-" then -(Written(t) as int) else Written(t) as int)
  {
    hide TrimLeft, TrimRight, ParseNat, Written, Blank;
    IntegerStrips(s, a, sign, t, b);
    ParseNatExactlyWhen(t);
    var u := sign + t;
    if sign == "" {
      assert u == t;
    } else {
      assert u[0] == sign[0] && u[1..] == t;
    }
  }

  lemma ReadInteger(s: string)
    requires ParseInt(s).Some?
    ensures WritesInteger(s, ParseInt(s).value)
  {
    hide TrimLeft, TrimRight, ParseNat, Written, Blank, Numeral;
    var a, b := StripReads(s);
    var u := TrimRight(TrimLeft(s));
    var signed := u != "" && (u[0] == '-' || u[0] == '+');
    var sign, t := if signed then [u[0]] else "", if signed then u[1..] else u;
    ParseNatExactlyWhen(t);
    assert u == sign + t;
    assert Integer(s, a, sign, t, b);
  }

  /** int() reads exactly such texts, as the number they write. */
  lemma ParseIntExactlyWhen(s: string, n: int)
    ensures ParseInt(s) == Some(n) <==> WritesInteger(s, n)
  {
    hide ParseInt, Integer;
    if ParseInt(s).Some? {
      ReadInteger(s);
    }
    if WritesInteger(s, n) {
      var a, sign, t, b :| Integer(s, a, sign, t, b)
                           && n == if sign == "-" then -(Written(t) as int) else Written(t);
      IntegerRead(s, a, sign, t, b);
    }
  }

  // ── hex ──

  /** The code point that well-formed UTF-8 octets stand for, section 3 of RFC 3629. */
  function CodePoint(b: bytes): int
    requires 1 <= |b| <= 4
  {
    var low := k requires 1 <= k < |b| => b[k] as int - 0x80;
    var lead := b[0] as int;
    if |b| == 1 then lead
    else if |b| == 2 then (lead - 0xC0) * 0x40 + low(1)
    else if |b| == 3 then (lead - 0xE0) * 0x1000 + low(1) * 0x40 + low(2)
    else (lead - 0xF0) * 0x4_0000 + low(1) * 0x1000 + low(2) * 0x40 + low(3)
  }

  /** The first octet tells the length, every other lies between 80 and BF, and no shorter form
      would do. */
  predicate WellFormed(b: bytes) {
    && 1 <= |b| <= 4
    && (forall i :: 1 <= i < |b| ==> 0x80 <= b[i] < 0xC0)
    && (if |b| == 1 then b[0] < 0x80
        else if |b| == 2 then 0xC0 <= b[0] < 0xE0 && CodePoint(b) >= 0x80
        else if |b| == 3 then 0xE0 <= b[0] < 0xF0 && CodePoint(b) >= 0x800
        else 0xF0 <= b[0] < 0xF8 && CodePoint(b) >= 0x1_0000)
  }

  lemma Utf8Reads(c: char)
    ensures WellFormed(Utf8(c)) && CodePoint(Utf8(c)) == c as int
  {
    var n := c as int;
    if 0x80 <= n < 0x800 {
      TwoOctets(n);
    } else if 0x800 <= n < 0x1_0000 {
      ThreeOctets(n);
    } else if 0x1_0000 <= n {
      FourOctets(n);
    }
  }

  lemma TwoOctets(n: nat)
    ensures n == n / 0x40 * 0x40 + n % 0x40
  {
    Quotient(n, 0x40);
  }

  lemma ThreeOctets(n: nat)
    ensures n == n / 0x1000 * 0x1000 + n / 0x40 % 0x40 * 0x40 + n % 0x40
  {
    Quotient(n, 0x40);
    Quotient(n / 0x40, 0x40);
    assert n / 0x40 / 0x40 == n / 0x1000;
  }

  lemma FourOctets(n: nat)
    ensures n == n / 0x4_0000 * 0x4_0000 + n / 0x1000 % 0x40 * 0x1000 + n / 0x40 % 0x40 * 0x40 + n % 0x40
  {
    ThreeOctets(n);
    Quotient(n / 0x1000, 0x40);
    assert n / 0x1000 / 0x40 == n / 0x4_0000;
  }

  lemma Quotient(n: nat, d: nat)
    requires d > 0
    ensures n == n / d * d + n % d
  {
  }

  /** The UTF-8 of a text. */
  function Encoded(s: string): bytes {
    if s == "" then [] else Utf8(s[0]) + Encoded(s[1..])
  }

  lemma {:induction false} HexAppend(a: bytes, b: bytes)
    ensures Digits.Hex(a + b) == Digits.Hex(a) + Digits.Hex(b)
  {
    if a == [] {
      assert a + b == b;
    } else {
      assert (a + b)[1..] == a[1..] + b;
      HexAppend(a[1..], b);
    }
  }

  lemma {:induction false} HexTextReads(s: string)
    ensures HexText(s) == Digits.Hex(Encoded(s))
    ensures Digits.FromHex(HexText(s)) == Encoded(s)
  {
    if s != "" {
      HexTextReads(s[1..]);
      HexAppend(Utf8(s[0]), Encoded(s[1..]));
    }
    Digits.HexRoundTrip(Encoded(s));
  }

  /** hex: an integer becomes hexadecimal digits that write it, without leading zeros and with its
      sign; any other text becomes the hexadecimal of its UTF-8. */
  lemma HexReads(args: seq<string>, drawn: nat, draws: Draws, n: int)
    requires args != []
    ensures var r := Apply(Hex, args, drawn, draws);
            && r.Value? && r.drawn == drawn
            && (WritesInteger(args[0], n) && n >= 0 ==>
                  && WrittenHex(r.text) == n && Digits.AllHexDigits(r.text) && r.text != ""
                  && (r.text[0] == '0' ==> r.text == "0"))
            && (WritesInteger(args[0], n) && n < 0 ==>
                  && r.text != "" && r.text[0] == '-' && WrittenHex(r.text[1..]) == -n
                  && Digits.AllHexDigits(r.text[1..]) && r.text[1..] != "" && r.text[1] != '0')
            && ((forall k :: !WritesInteger(args[0], k)) ==>
                  Digits.FromHex(r.text) == Encoded(args[0]))
  {
    hide ParseInt, WritesInteger, HexText;
    ParseIntExactlyWhen(args[0], n);
    if n >= 0 {
      HexNumberReads(n);
    } else {
      HexNumberReads(-n);
      assert ("-" + Digits.HexNumber(-n))[1..] == Digits.HexNumber(-n);
    }
    HexTextReads(args[0]);
    if ParseInt(args[0]).Some? {
      ParseIntExactlyWhen(args[0], ParseInt(args[0]).value);
    }
  }

  // ── pad ──

  /** pad: the text, with zeros before it up to the width; only a width that is an integer will
      do. */
  lemma PadReads(args: seq<string>, drawn: nat, draws: Draws, width: int)
    requires |args| >= 2
    ensures var r := Apply(Pad, args, drawn, draws);
            && (WritesInteger(args[1], width) ==>
                  && r.Value? && r.drawn == drawn && |r.text| == Max(width, |args[0]|)
                  && r.text[|r.text| - |args[0]|..] == args[0]
                  && forall i :: 0 <= i < |r.text| - |args[0]| ==> r.text[i] == '0')
            && ((forall k :: !WritesInteger(args[1], k)) ==> r == Raised(NotAnInteger))
  {
    hide ParseInt, WritesInteger;
    ParseIntExactlyWhen(args[1], width);
    if ParseInt(args[1]).Some? {
      ParseIntExactlyWhen(args[1], ParseInt(args[1]).value);
    }
  }

  // ── rand ──

  /** White space, digits, white space, two dots, white space, digits, white space. */
  predicate Range(s: string, a: string, low: string, b: string, c: string, high: string, d: string) {
    && s == a + low + b + ".." + c + high + d
    && Blank(a) && Blank(b) && Blank(c) && Blank(d)
    && low != "" && (forall i :: 0 <= i < |low| ==> IsDigit(low[i]))
    && high != "" && (forall i :: 0 <= i < |high| ==> IsDigit(high[i]))
  }

  ghost predicate WritesRange(s: string, low: nat, high: nat) {
    exists a: string, l: string, b: string, c: string, h: string, d: string ::
      Range(s, a, l, b, c, h, d) && Written(l) == low && Written(h) == high
  }

  lemma {:induction false} DigitsEndIs(t: string, i: nat, j: nat)
    requires i <= j <= |t| && (forall k :: i <= k < j ==> IsDigit(t[k]))
    requires j < |t| ==> !IsDigit(t[j])
    ensures DigitsEnd(t, i) == j
    decreases j - i
  {
    if i < j {
      DigitsEndIs(t, i + 1, j);
    }
  }

  lemma {:induction false} SpacesEndIs(t: string, i: nat, j: nat)
    requires i <= j <= |t| && (forall k :: i <= k < j ==> IsSpace(t[k]))
    requires j < |t| ==> !IsSpace(t[j])
    ensures SpacesEnd(t, i) == j
    decreases j - i
  {
    if i < j {
      SpacesEndIs(t, i + 1, j);
    }
  }

  lemma {:induction false} DigitsEndReads(t: string, i: nat)
    requires i <= |t|
    ensures forall k :: i <= k < DigitsEnd(t, i) ==> IsDigit(t[k])
    decreases |t| - i
  {
    if i < |t| && IsDigit(t[i]) {
      DigitsEndReads(t, i + 1);
    }
  }

  lemma {:induction false} SpacesEndReads(t: string, i: nat)
    requires i <= |t|
    ensures forall k :: i <= k < SpacesEnd(t, i) ==> IsSpace(t[k])
    decreases |t| - i
  {
    if i < |t| && IsSpace(t[i]) {
      SpacesEndReads(t, i + 1);
    }
  }

  lemma RangeRead(s: string, a: string, low: string, b: string, c: string, high: string, d: string)
    requires Range(s, a, low, b, c, high, d)
    ensures ParseRange(s) == Some((Written(low), Written(high)))
  {
    hide Written, ParseNat, SpacesEnd, DigitsEnd, Range, Numeral, NumeralAt;
    var p1, p2 := |a|, |a| + |low|;
    var p3 := p2 + |b|;
    var p4 := p3 + 2 + |c|;
    var p5 := p4 + |high|;
    RangeParts(s, a, low, b, c, high, d);
    SpacesEndIs(s, 0, p1);
    DigitsEndIs(s, p1, p2);
    SpacesEndIs(s, p2, p3);
    SpacesEndIs(s, p3 + 2, p4);
    DigitsEndIs(s, p4, p5);
    SpacesEndIs(s, p5, |s|);
    AllDigits(low);
    AllDigits(high);
    ParseNatExactlyWhen(low);
    ParseNatExactlyWhen(high);
  }

  lemma RangeParts(s: string, a: string, low: string, b: string, c: string, high: string, d: string)
    requires Range(s, a, low, b, c, high, d)
    ensures var p1, p2 := |a|, |a| + |low|;
            var p3 := p2 + |b|;
            var p4 := p3 + 2 + |c|;
            var p5 := p4 + |high|;
            && p5 + |d| == |s| && s[p1..p2] == low && s[p4..p5] == high
            && low != "" && high != ""
            && (forall i :: 0 <= i < |low| ==> IsDigit(low[i]))
            && (forall i :: 0 <= i < |high| ==> IsDigit(high[i]))
            && s[p3] == '.' && s[p3 + 1] == '.'
            && (forall k :: 0 <= k < p1 ==> IsSpace(s[k]))
            && (forall k :: p1 <= k < p2 ==> IsDigit(s[k]))
            && (forall k :: p2 <= k < p3 ==> IsSpace(s[k]))
            && (forall k :: p3 + 2 <= k < p4 ==> IsSpace(s[k]))
            && (forall k :: p4 <= k < p5 ==> IsDigit(s[k]))
            && (forall k :: p5 <= k < |s| ==> IsSpace(s[k]))
  {
    hide Blank, IsDigit, IsSpace;
    var p3 := |a| + |low| + |b|;
    var p4 := p3 + 2 + |c|;
    SevenParts(a, low, b, "..", c, high, d);
    assert s[p3] == s[p3..p3 + 2][0] && s[p3 + 1] == s[p3..p3 + 2][1];
    SliceAll(s, 0, a);
    SliceAll(s, |a| + |low|, b);
    SliceAll(s, p3 + 2, c);
    SliceAll(s, p4 + |high|, d);
    SliceDigits(s, |a|, low);
    SliceDigits(s, p4, high);
  }

  lemma SevenParts(a: string, b: string, c: string, d: string, e: string, f: string, g: string)
    ensures var s := a + b + c + d + e + f + g;
            var p3 := |a| + |b| + |c|;
            var p5 := p3 + |d| + |e|;
            && s[0..|a|] == a && s[|a|..|a| + |b|] == b && s[|a| + |b|..p3] == c
            && s[p3..p3 + |d|] == d && s[p3 + |d|..p5] == e && s[p5..p5 + |f|] == f
            && s[p5 + |f|..p5 + |f| + |g|] == g
  {
    var front := a + b + c + d;
    var s := front + e + f + g;
    FourParts(a, b, c, d);
    FourParts(front, e, f, g);
    assert s[..|front|] == front;
    SliceOfPrefix(s, |front|, 0, |a|);
    SliceOfPrefix(s, |front|, |a|, |a| + |b|);
    SliceOfPrefix(s, |front|, |a| + |b|, |a| + |b| + |c|);
    SliceOfPrefix(s, |front|, |a| + |b| + |c|, |front|);
  }

  lemma FourParts(a: string, b: string, c: string, d: string)
    ensures var s := a + b + c + d;
            var p3 := |a| + |b| + |c|;
            && s[0..|a|] == a && s[|a|..|a| + |b|] == b && s[|a| + |b|..p3] == c
            && s[p3..p3 + |d|] == d
  {
  }

  lemma SliceAll(s: string, at: nat, part: string)
    requires at + |part| <= |s| && s[at..at + |part|] == part && Blank(part)
    ensures forall k :: at <= k < at + |part| ==> IsSpace(s[k])
  {
    forall k | at <= k < at + |part|
      ensures IsSpace(s[k])
    {
      assert s[k] == part[k - at];
    }
  }

  lemma SliceDigits(s: string, at: nat, part: string)
    requires at + |part| <= |s| && s[at..at + |part|] == part
    requires forall i :: 0 <= i < |part| ==> IsDigit(part[i])
    ensures forall k :: at <= k < at + |part| ==> IsDigit(s[k])
  {
    forall k | at <= k < at + |part|
      ensures IsDigit(s[k])
    {
      assert s[k] == part[k - at];
    }
  }

  /** A text cut in seven. */
  lemma Cuts(s: string, a: nat, b: nat, c: nat, c': nat, d: nat, e: nat)
    requires a <= b <= c <= c' <= d <= e <= |s|
    ensures s == s[..a] + s[a..b] + s[b..c] + s[c..c'] + s[c'..d] + s[d..e] + s[e..]
  {
    assert s[..a] + s[a..b] == s[..b];
    assert s[..b] + s[b..c] == s[..c];
    assert s[..c] + s[c..c'] == s[..c'];
    assert s[..c'] + s[c'..d] == s[..d];
    assert s[..d] + s[d..e] == s[..e];
  }

  lemma CutBlank(s: string, lo: nat, hi: nat)
    requires lo <= hi <= |s| && forall k :: lo <= k < hi ==> IsSpace(s[k])
    ensures Blank(s[lo..hi])
  {
  }

  lemma CutDigits(s: string, lo: nat, hi: nat)
    requires lo <= hi <= |s| && forall k :: lo <= k < hi ==> IsDigit(s[k])
    ensures forall i :: 0 <= i < |s[lo..hi]| ==> IsDigit(s[lo..hi][i])
  {
  }

  lemma ReadRange(s: string)
    requires ParseRange(s).Some?
    ensures WritesRange(s, ParseRange(s).value.0, ParseRange(s).value.1)
  {
    hide Written, ParseNat, SpacesEnd, DigitsEnd, Blank;
    var a := SpacesEnd(s, 0);
    var b := DigitsEnd(s, a);
    var c := SpacesEnd(s, b);
    var d := SpacesEnd(s, c + 2);
    var e := DigitsEnd(s, d);
    SpacesEndReads(s, 0);
    DigitsEndReads(s, a);
    SpacesEndReads(s, b);
    SpacesEndReads(s, c + 2);
    DigitsEndReads(s, d);
    SpacesEndReads(s, e);
    ParseNatExactlyWhen(s[a..b]);
    ParseNatExactlyWhen(s[d..e]);
    RangeCut(s, a, b, c, d, e);
  }

  lemma RangeCut(s: string, a: nat, b: nat, c: nat, d: nat, e: nat)
    requires a < b <= c && c + 2 <= d < e <= |s| && s[c] == '.' && s[c + 1] == '.'
    requires forall k :: 0 <= k < a ==> IsSpace(s[k])
    requires forall k :: a <= k < b ==> IsDigit(s[k])
    requires forall k :: b <= k < c ==> IsSpace(s[k])
    requires forall k :: c + 2 <= k < d ==> IsSpace(s[k])
    requires forall k :: d <= k < e ==> IsDigit(s[k])
    requires forall k :: e <= k < |s| ==> IsSpace(s[k])
    ensures Range(s, s[..a], s[a..b], s[b..c], s[c + 2..d], s[d..e], s[e..])
  {
    hide Blank, IsDigit, IsSpace;
    Cuts(s, a, b, c, c + 2, d, e);
    assert s[c..c + 2] == "..";
    CutBlank(s, 0, a);
    CutDigits(s, a, b);
    CutBlank(s, b, c);
    CutBlank(s, c + 2, d);
    CutDigits(s, d, e);
    CutBlank(s, e, |s|);
    assert s[0..a] == s[..a] && s[e..|s|] == s[e..];
  }

  /** The regular expression of rand matches exactly such texts. */
  lemma ParseRangeExactlyWhen(s: string, low: nat, high: nat)
    ensures ParseRange(s) == Some((low, high)) <==> WritesRange(s, low, high)
  {
    hide ParseRange, Range;
    if ParseRange(s).Some? {
      ReadRange(s);
    }
    if WritesRange(s, low, high) {
      var a, l, b, c, h, d :| Range(s, a, l, b, c, h, d) && Written(l) == low && Written(h) == high;
      RangeRead(s, a, l, b, c, h, d);
    }
  }

  /** rand: the decimal digits of a number in the range, one draw the more; every number of the
      range can be drawn, and nothing but a range that is not empty will do. */
  lemma RandReads(args: seq<string>, drawn: nat, draws: Draws, low: nat, high: nat)
    requires args != []
    ensures var r := Apply(Rand, args, drawn, draws);
            && (WritesRange(args[0], low, high) && low <= high ==>
                  && r.Value? && r.drawn == drawn + 1
                  && low <= Written(r.text) <= high && Digits.Decimal(Written(r.text)) == r.text)
            && (WritesRange(args[0], low, high) && low > high ==> r == Raised(EmptyRange))
            && ((forall l, h :: !WritesRange(args[0], l, h)) ==> r == Raised(RangeExpected))
  {
    hide ParseRange, WritesRange;
    ParseRangeExactlyWhen(args[0], low, high);
    if ParseRange(args[0]).Some? {
      ParseRangeExactlyWhen(args[0], ParseRange(args[0]).value.0, ParseRange(args[0]).value.1);
    }
    if low <= high {
      var n := low + draws(drawn, low, high) % (high - low + 1);
      DecimalReads(n);
    }
  }

  lemma RandReaches(args: seq<string>, drawn: nat, low: nat, high: nat, n: nat)
    requires args != [] && WritesRange(args[0], low, high) && low <= n <= high
    ensures exists draws: Draws ::
              Apply(Rand, args, drawn, draws) == Value(Digits.Decimal(n), drawn + 1)
  {
    hide ParseRange, WritesRange, Digits.Decimal;
    ParseRangeExactlyWhen(args[0], low, high);
    var draws: Draws := (_, _, _) => n - low;
    SmallModulo(n - low, high - low + 1);
    assert draws(drawn, low, high) == n - low;
    assert Apply(Rand, args, drawn, draws) == Value(Digits.Decimal(n), drawn + 1);
  }

  lemma SmallModulo(n: nat, m: nat)
    requires n < m
    ensures n % m == n
  {
  }

  /** Every function needs an argument, and pad a width. */
  lemma ArgumentsNeeded(f: Fn, args: seq<string>, drawn: nat, draws: Draws)
    ensures args == [] ==> Apply(f, args, drawn, draws) == Raised(NoArgument)
    ensures |args| == 1 && f == Pad ==> Apply(f, args, drawn, draws) == Raised(NoWidth)
  {
  }
}
