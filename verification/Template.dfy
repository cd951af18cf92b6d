/** The attribute-value template language: teap_gui/template.py. */
module Template {
  import opened Bytes
  import opened Rewriting
  import Digits

  /** The i-th draw for a range low..high; only its residue in the range is used. */
  type Draws = (nat, nat, nat) -> nat

  // ── Finding calls: the regular expression (uc|lc|hex|rand|pad)\( ──

  function Length(f: Fn): nat {
    match f
    case Uc => 2
    case Lc => 2
    case Hex => 3
    case Rand => 4
    case Pad => 3
  }

  /** A call of f begins at p. */
  predicate Opens(t: string, p: nat, f: Fn) {
    p + Length(f) < |t| && t[p + Length(f)] == '(' &&
    match f
    case Uc => t[p] == 'u' && t[p + 1] == 'c'
    case Lc => t[p] == 'l' && t[p + 1] == 'c'
    case Hex => t[p] == 'h' && t[p + 1] == 'e' && t[p + 2] == 'x'
    case Rand => t[p] == 'r' && t[p + 1] == 'a' && t[p + 2] == 'n' && t[p + 3] == 'd'
    case Pad => t[p] == 'p' && t[p + 1] == 'a' && t[p + 2] == 'd'
  }

  /** The function whose call begins at p, if any. */
  function CallAt(t: string, p: nat): (r: Option<Fn>)
    ensures r.Some? ==> Opens(t, p, r.value)
  {
    if p >= |t| then None
    else
      var f := match t[p] case 'u' => Uc case 'l' => Lc case 'h' => Hex case 'r' => Rand case _ => Pad;
      if Opens(t, p, f) then Some(f) else None
  }

  /** Where the body of a call begun at p starts. */
  function BodyAt(p: nat, f: Fn): nat { p + Length(f) + 1 }

  /** The first call at or after `from`, or |t|. */
  function NextCall(t: string, from: nat): (p: nat)
    requires from <= |t|
    ensures from <= p <= |t|
    ensures p < |t| ==> CallAt(t, p).Some?
    ensures forall q :: from <= q < p ==> CallAt(t, q).None?
    decreases |t| - from
  {
    if from == |t| || CallAt(t, from).Some? then from else NextCall(t, from + 1)
  }

  predicate HasCall(t: string) { NextCall(t, 0) < |t| }

  function FirstClose(t: string, from: nat): (q: nat)
    requires from <= |t|
    ensures from <= q <= |t|
    ensures q < |t| ==> t[q] == ')'
    ensures forall i :: from <= i < q ==> t[i] != ')'
    decreases |t| - from
  {
    if from == |t| || t[from] == ')' then from else FirstClose(t, from + 1)
  }

  /** No further call between a call's opening and the first closing parenthesis. */
  predicate Innermost(t: string, from: nat)
    requires from <= |t|
  {
    !HasCall(t[from..FirstClose(t, from)] + ")")
  }

  /** The first call, at or after `from`, that is innermost, or |t|. */
  function Pick(t: string, from: nat): (p: nat)
    requires from <= |t|
    ensures from <= p <= |t|
    ensures p < |t| ==> CallAt(t, p).Some?
    decreases |t| - from
  {
    var p := NextCall(t, from);
    if p == |t| then p
    else
      var next := BodyAt(p, CallAt(t, p).value);
      if Innermost(t, next) then p else Pick(t, next)
  }

  /** The index past the parenthesis that closes `depth` open ones. */
  function Close(t: string, from: nat, depth: nat): (r: Option<nat>)
    requires from <= |t|
    ensures r.Some? ==> from <= r.value <= |t| && r.value - from >= depth
    decreases |t| - from
  {
    if depth == 0 then Some(from)
    else if from == |t| then None
    else Close(t, from + 1, if t[from] == '(' then depth + 1
                            else if t[from] == ')' then depth - 1 else depth)
  }

  // ── Arguments ──

  /** The arguments of t[i..], `current` being the one under way at this depth. */
  function SplitFrom(t: string, i: nat, depth: int, current: string): (args: seq<string>)
    requires i <= |t|
    ensures args != []
    decreases |t| - i
  {
    if i == |t| then [current]
    else if t[i] == ',' && depth == 0 then [current] + SplitFrom(t, i + 1, depth, "")
    else SplitFrom(t, i + 1,
                   if t[i] == '(' then depth + 1 else if t[i] == ')' then depth - 1 else depth,
                   current + [t[i]])
  }

  function SplitArgs(t: string): (args: seq<string>)
    ensures args != []
  {
    SplitFrom(t, 0, 0, "")
  }

  method SplitArguments(text: string) returns (out: seq<string>)
    ensures out == SplitArgs(text)
  {
    out := [];
    var depth, current := 0, "";
    for i := 0 to |text|
      invariant out + SplitFrom(text, i, depth, current) == SplitArgs(text)
    {
      var ch := text[i];
      if ch == ',' && depth == 0 {
        ghost var more := SplitFrom(text, i + 1, depth, "");
        assert out + ([current] + more) == out + [current] + more;
        out := out + [current];
        current := "";
      } else {
        if ch == '(' {
          depth := depth + 1;
        } else if ch == ')' {
          depth := depth - 1;
        }
        current := current + [ch];
      }
    }
    out := out + [current];
  }

  // ── Functions ──

  function Map(s: string, f: char -> char): (r: string)
    ensures |r| == |s|
    ensures forall i :: 0 <= i < |s| ==> r[i] == f(s[i])
  {
    seq(|s|, i requires 0 <= i < |s| => f(s[i]))
  }

  function Upper(c: char): char {
    if 'a' <= c <= 'z' then (c as int - 32) as char else c
  }

  function Lower(c: char): char {
    if 'A' <= c <= 'Z' then (c as int + 32) as char else c
  }

  predicate IsSpace(c: char) {
    var n := c as int;
    9 <= n <= 13 || 28 <= n <= 32 || n == 0x85 || n == 0xA0
  }

  predicate IsDigit(c: char) { '0' <= c <= '9' }

  function TrimLeft(s: string): string {
    if s != "" && IsSpace(s[0]) then TrimLeft(s[1..]) else s
  }

  function TrimRight(s: string): string {
    if s != "" && IsSpace(s[|s| - 1]) then TrimRight(s[..|s| - 1]) else s
  }

  /** Digits with single underscores between them, as int() reads them. */
  function ParseNat(s: string): Option<nat> {
    if s == "" || !IsDigit(s[|s| - 1]) then None
    else
      var digit := s[|s| - 1] as int - '0' as int;
      var front := s[..|s| - 1];
      if front == "" then Some(digit)
      else
        var rest := if front[|front| - 1] == '_' then front[..|front| - 1] else front;
        match ParseNat(rest) case None => None case Some(n) => Some(n * 10 + digit)
  }

  /** int(s) */
  function ParseInt(s: string): Option<int> {
    var t := TrimRight(TrimLeft(s));
    if t != "" && (t[0] == '-' || t[0] == '+') then
      match ParseNat(t[1..])
      case None => None
      case Some(n) => Some(if t[0] == '-' then -(n as int) else n as int)
    else match ParseNat(t) case None => None case Some(n) => Some(n)
  }

  /** A character that neither opens, closes nor separates arguments. */
  predicate CleanChar(c: char) { c != '(' && c != ')' && c != ',' }

  predicate Clean(s: string) {
    forall i :: 0 <= i < |s| ==> CleanChar(s[i])
  }

  /** The octets of a character in UTF-8. */
  function Utf8(c: char): (r: bytes) {
    var n := c as int;
    if n < 0x80 then [n]
    else if n < 0x800 then [0xC0 + n / 0x40, 0x80 + n % 0x40]
    else if n < 0x1_0000 then [0xE0 + n / 0x1000, 0x80 + n / 0x40 % 0x40, 0x80 + n % 0x40]
    else [0xF0 + n / 0x4_0000, 0x80 + n / 0x1000 % 0x40, 0x80 + n / 0x40 % 0x40, 0x80 + n % 0x40]
  }

  function HexText(s: string): (r: string)
    ensures Clean(r)
  {
    if s == "" then "" else Digits.Hex(Utf8(s[0])) + HexText(s[1..])
  }

  /** format(int(s), "x"), or the hex of the text itself when it is no integer. */
  function HexOf(s: string): (r: string)
    ensures Clean(r)
  {
    match ParseInt(s)
    case None => HexText(s)
    case Some(n) => if n < 0 then "-" + Digits.HexNumber(-n) else Digits.HexNumber(n)
  }

  function Fill(c: char, n: nat): (s: string)
    ensures |s| == n && forall i :: 0 <= i < n ==> s[i] == c
  {
    seq(n, i => c)
  }

  /** The first index from i on whose character is not a digit, and not a space. */
  function DigitsEnd(t: string, i: nat): (j: nat)
    requires i <= |t|
    ensures i <= j <= |t|
    decreases |t| - i
  {
    if i < |t| && IsDigit(t[i]) then DigitsEnd(t, i + 1) else i
  }

  function SpacesEnd(t: string, i: nat): (j: nat)
    requires i <= |t|
    ensures i <= j <= |t|
    decreases |t| - i
  {
    if i < |t| && IsSpace(t[i]) then SpacesEnd(t, i + 1) else i
  }

  /** ^\s*(\d+)\s*\.\.\s*(\d+)\s*$ */
  function ParseRange(s: string): Option<(nat, nat)> {
    var a := SpacesEnd(s, 0);
    var b := DigitsEnd(s, a);
    var c := SpacesEnd(s, b);
    if c + 2 > |s| || s[c] != '.' || s[c + 1] != '.' then None
    else
      var d := SpacesEnd(s, c + 2);
      var e := DigitsEnd(s, d);
      if SpacesEnd(s, e) != |s| then None
      else
        match (ParseNat(s[a..b]), ParseNat(s[d..e]))
        case (Some(low), Some(high)) => Some((low, high))
        case _ => None
  }

  /** _apply */
  function Apply(f: Fn, args: seq<string>, drawn: nat, draws: Draws): Outcome {
    if args == [] then Raised(NoArgument)
    else
    match f
    case Rand =>
      (match ParseRange(args[0])
       case None => Raised(RangeExpected)
       case Some((low, high)) =>
         if low > high then Raised(EmptyRange)
         else Value(Digits.Decimal(low + draws(drawn, low, high) % (high - low + 1)), drawn + 1))
    case Uc => Value(Map(args[0], Upper), drawn)
    case Lc => Value(Map(args[0], Lower), drawn)
    case Hex => Value(HexOf(args[0]), drawn)
    case Pad =>
      if |args| < 2 then Raised(NoWidth)
      else
        match ParseInt(args[1])
        case None => Raised(NotAnInteger)
        case Some(width) => Value(Fill('0', Max(width - |args[0]|, 0)) + args[0], drawn)
  }

  // ── Counting parentheses ──

  function Parens(t: string): nat { multiset(t)['('] }

  lemma {:induction false} NoParens(t: string)
    requires Clean(t)
    ensures Parens(t) == 0
  {
    assert '(' !in t;
  }

  lemma {:induction false} ParensMap(t: string, f: char -> char)
    requires forall c :: f(c) == '(' <==> c == '('
    ensures Parens(Map(t, f)) == Parens(t)
  {
    if t != "" {
      var front, last := t[..|t| - 1], t[|t| - 1];
      ParensMap(front, f);
      assert t == front + [last];
      assert Map(t, f) == Map(front, f) + [f(last)];
    }
  }

  lemma {:induction false} ParensFirstArg(t: string, i: nat, depth: int, current: string)
    requires i <= |t|
    ensures Parens(SplitFrom(t, i, depth, current)[0]) <= Parens(current) + Parens(t[i..])
    decreases |t| - i
  {
    if i < |t| && !(t[i] == ',' && depth == 0) {
      var d := if t[i] == '(' then depth + 1 else if t[i] == ')' then depth - 1 else depth;
      ParensFirstArg(t, i + 1, d, current + [t[i]]);
      assert t[i..] == [t[i]] + t[i + 1..];
    }
  }

  lemma ApplyParens(f: Fn, args: seq<string>, drawn: nat, draws: Draws)
    requires args != [] && Apply(f, args, drawn, draws).Value?
    ensures Parens(Apply(f, args, drawn, draws).text) <= Parens(args[0])
  {
    var r := Apply(f, args, drawn, draws);
    match f {
      case Rand => NoParens(r.text);
      case Uc => ParensMap(args[0], Upper);
      case Lc => ParensMap(args[0], Lower);
      case Hex => NoParens(r.text);
      case Pad =>
        var zeros := r.text[..|r.text| - |args[0]|];
        assert r.text == zeros + args[0];
        NoParens(zeros);
    }
  }

  /** A call holds one parenthesis more than the text around it and its body. */
  lemma CallParens(t: string, p: nat, open: nat, end: nat)
    requires p <= open && open + 1 < end <= |t| && t[open] == '('
    ensures Parens(t[..p]) + 1 + Parens(t[open + 1..end - 1]) + Parens(t[end..]) <= Parens(t)
  {
    var a, b, c, d, e := t[..p], t[p..open], t[open + 1..end - 1], t[end - 1..end], t[end..];
    assert t == a + b + "(" + c + d + e;
  }

  // ── Evaluation ──

  /** The call a round rewrites: the first innermost one, or failing that the first, or |t|. */
  function Chosen(t: string): (p: nat)
    ensures p <= |t|
    ensures p < |t| ==> CallAt(t, p).Some?
  {
    if Pick(t, 0) < |t| then Pick(t, 0) else NextCall(t, 0)
  }

  /** The text around the chosen call, its function and its body. */
  function Locate(t: string): (site: Site)
    ensures site.Site? ==>
              Parens(site.before) + 1 + Parens(site.body) + Parens(site.after) <= Parens(t)
  {
    var p := Chosen(t);
    if p == |t| then NoCall
    else
      var f := CallAt(t, p).value;
      var from := BodyAt(p, f);
      match Close(t, from, 1)
      case None => Open
      case Some(end) =>
        CallParens(t, p, p + Length(f), end);
        Site(t[..p], f, t[from..end - 1], t[end..])
  }

  /** What a call's body becomes, given the draws made before. */
  type Caller = (Fn, string, nat) -> Outcome

  /** The functions of the language over a source of randomness. */
  function Functions(draws: Draws): Caller {
    (f: Fn, body: string, drawn: nat) => Apply(f, SplitArgs(body), drawn, draws)
  }

  function Language(draws: Draws): Engine {
    Engine(Locate, HasCall, Functions(draws), Parens)
  }

  lemma LanguageIsSound(draws: Draws)
    ensures Sound(Language(draws))
  {
    var e := Language(draws);
    forall t
      ensures LocateSound(e, t)
    {
      LocateIsSound(t, draws);
    }
    forall f, body, drawn: nat
      ensures CallSound(e, body, e.call(f, body, drawn))
    {
      ApplyShrinks(f, body, drawn, draws);
    }
    forall a, w, b
      ensures e.size(Put(a, w, b)) == e.size(a) + e.size(w) + e.size(b)
    {
      PutParens(a, w, b);
    }
  }

  lemma LocateIsSound(t: string, draws: Draws)
    ensures LocateSound(Language(draws), t)
  {
    if Locate(t).NoCall? {
      PickFindsACall(t, 0);
    }
  }

  /** What a call returns has no more parentheses than its body. */
  lemma ApplyShrinks(f: Fn, body: string, drawn: nat, draws: Draws)
    ensures CallSound(Language(draws), body, Apply(f, SplitArgs(body), drawn, draws))
  {
    var args := SplitArgs(body);
    assert Parens(args[0]) <= Parens(body) by {
      ParensFirstArg(body, 0, 0, "");
      assert body[0..] == body;
    }
    if Apply(f, args, drawn, draws).Value? {
      ApplyParens(f, args, drawn, draws);
    }
  }

  lemma PutParens(a: string, w: string, b: string)
    ensures Parens(Put(a, w, b)) == Parens(a) + Parens(w) + Parens(b)
  {
  }

  function Evaluated(t: string, drawn: nat, draws: Draws): Outcome {
    LanguageIsSound(draws);
    EvalFrom(Language(draws), t, ROUNDS, drawn)
  }

  /** The candidate loop of _eval. */
  method FindMatch(text: string) returns (p: nat)
    ensures p == Chosen(text)
  {
    p := NextCall(text, 0);
    while p < |text|
      invariant p <= |text| && (p < |text| ==> CallAt(text, p).Some?)
      invariant p < |text| ==> Pick(text, 0) == Pick(text, p)
      invariant p == |text| ==> Pick(text, 0) == |text|
      decreases |text| - p
    {
      var end := BodyAt(p, CallAt(text, p).value);
      if Innermost(text, end) {
        return p;
      }
      p := NextCall(text, end);
      PickFromCall(text, end);
    }
    p := NextCall(text, 0);
  }

  /** A search may as well start from the next call. */
  lemma PickFromCall(t: string, from: nat)
    requires from <= |t|
    ensures NextCall(t, from) < |t| ==> Pick(t, from) == Pick(t, NextCall(t, from))
    ensures NextCall(t, from) == |t| ==> Pick(t, from) == |t|
  {
  }

  /** The scan for the closing parenthesis. */
  method FindClose(text: string, from: nat) returns (r: Option<nat>)
    requires from <= |text|
    ensures r == Close(text, from, 1)
  {
    var depth: nat, end := 1, from;
    while end < |text| && depth != 0
      invariant from <= end <= |text|
      invariant Close(text, end, depth) == Close(text, from, 1)
      decreases |text| - end
    {
      if text[end] == '(' {
        depth := depth + 1;
      } else if text[end] == ')' {
        depth := depth - 1;
      }
      end := end + 1;
    }
    return if depth != 0 then None else Some(end);
  }

  /** An engine that searches and calls as the language does. */
  predicate StandardAt(e: Engine, t: string) {
    e.locate(t) == Locate(t) && e.busy(t) == HasCall(t) && e.size(t) == Parens(t)
  }

  predicate StandardCall(e: Engine, draws: Draws, f: Fn, body: string, drawn: nat) {
    e.call(f, body, drawn) == Apply(f, SplitArgs(body), drawn, draws)
  }

  ghost predicate Standard(e: Engine, draws: Draws) {
    && (forall t {:trigger StandardAt(e, t)} :: StandardAt(e, t))
    && (forall f, body, drawn: nat {:trigger StandardCall(e, draws, f, body, drawn)} ::
          StandardCall(e, draws, f, body, drawn))
  }

  lemma LanguageIsStandard(draws: Draws)
    ensures Standard(Language(draws), draws)
  {
  }

  /** The search of one round. */
  method FindSite(text: string, ghost e: Engine, ghost draws: Draws) returns (site: Site)
    requires Standard(e, draws)
    ensures site == e.locate(text)
  {
    assert StandardAt(e, text);
    var p := FindMatch(text);
    if p == |text| {
      return NoCall;
    }
    var f := CallAt(text, p).value;
    var from := BodyAt(p, f);
    var close := FindClose(text, from);
    if close.None? {
      return Open;
    }
    var end := close.value;
    return Site(text[..p], f, text[from..end - 1], text[end..]);
  }

  method Search(text: string, ghost e: Engine, ghost draws: Draws) returns (found: bool)
    requires Standard(e, draws)
    ensures found == e.busy(text)
  {
    assert StandardAt(e, text);
    return HasCall(text);
  }

  method Call(f: Fn, body: string, drawn: nat, draws: Draws, ghost e: Engine)
    returns (r: Outcome)
    requires Standard(e, draws)
    ensures r == e.call(f, body, drawn)
  {
    assert StandardCall(e, draws, f, body, drawn);
    var args := SplitArguments(body);
    return Apply(f, args, drawn, draws);
  }

  /** _eval */
  method EvalLoop(input: string, start: nat, draws: Draws, ghost e: Engine) returns (r: Outcome)
    requires Sound(e) && Standard(e, draws)
    ensures r == EvalFrom(e, input, ROUNDS, start)
    decreases e.size(input)
  {
    hide EvalFrom, Put, Apply;
    NoRounds(e);
    var text, drawn := input, start;
    for i := 0 to ROUNDS
      invariant e.size(text) <= e.size(input)
      invariant EvalFrom(e, text, ROUNDS - i, drawn) == EvalFrom(e, input, ROUNDS, start)
    {
      OneRound(e, text, ROUNDS - i, drawn);
      var site := FindSite(text, e, draws);
      if site.NoCall? {
        return Value(text, drawn);
      }
      if site.Open? {
        return Raised(Unbalanced);
      }
      var body := Value(site.body, drawn);
      var nested := Search(site.body, e, draws);
      if nested {
        body := EvalLoop(site.body, drawn, draws, e);
        if body.Raised? {
          return body;
        }
      }
      var replaced := Call(site.f, body.text, body.drawn, draws, e);
      assert replaced == Resolved(e, site.f, body);
      if replaced.Raised? {
        return replaced;
      }
      PutSize(e, site.before, replaced.text, site.after);
      text, drawn := Put(site.before, replaced.text, site.after), replaced.drawn;
    }
    return Raised(TooDeep);
  }

  method Eval(input: string, start: nat, draws: Draws) returns (r: Outcome)
    ensures r == Evaluated(input, start, draws)
  {
    LanguageIsSound(draws);
    LanguageIsStandard(draws);
    r := EvalLoop(input, start, draws, Language(draws));
  }

  /** A template with fewer than 50 opening parentheses is never too deeply nested, and what any
      template evaluates to holds no call. */
  lemma EvalIsBounded(t: string, drawn: nat, draws: Draws)
    ensures Parens(t) < 50 ==> Evaluated(t, drawn, draws) != Raised(TooDeep)
    ensures Evaluated(t, drawn, draws).Value? ==>
              !HasCall(Evaluated(t, drawn, draws).text)
              && Parens(Evaluated(t, drawn, draws).text) <= Parens(t)
  {
    LanguageIsSound(draws);
    var e := Language(draws);
    if e.size(t) < ROUNDS {
      NeverTooDeep(e, t, ROUNDS, drawn);
    }
    if EvalFrom(e, t, ROUNDS, drawn).Value? {
      ResultIsDone(e, t, ROUNDS, drawn);
    }
  }

  /** The fallback to any call is never taken: the last call is always innermost. */
  lemma {:induction false} PickFindsACall(t: string, from: nat)
    requires from <= |t|
    ensures Pick(t, from) == |t| <==> NextCall(t, from) == |t|
    decreases |t| - from
  {
    var p := NextCall(t, from);
    if p < |t| {
      var next := BodyAt(p, CallAt(t, p).value);
      if NextCall(t, next) < |t| {
        PickFindsACall(t, next);
      } else {
        NoneAfterIsInnermost(t, next);
      }
    }
  }

  lemma SomeCall(t: string, p: nat, f: Fn)
    requires Opens(t, p, f)
    ensures CallAt(t, p) == Some(f)
  {
  }

  lemma NoneAfterIsInnermost(t: string, from: nat)
    requires from <= |t| && NextCall(t, from) == |t|
    ensures Innermost(t, from)
  {
    var close := FirstClose(t, from);
    var inner := t[from..close] + ")";
    forall q | 0 <= q < |inner|
      ensures CallAt(inner, q).None?
    {
      if CallAt(inner, q).Some? {
        OpensInside(t, from, close, q, CallAt(inner, q).value);
        SomeCall(t, from + q, CallAt(inner, q).value);
      }
    }
  }

  /** A call inside a slice closed with a parenthesis is a call of the text. */
  lemma OpensInside(t: string, lo: nat, hi: nat, q: nat, f: Fn)
    requires lo <= hi <= |t|
    ensures Opens(t[lo..hi] + ")", q, f) <==> q + Length(f) < hi - lo && Opens(t, lo + q, f)
  {
  }
}
