/** What a template means: a recursive semantics over expression trees, and the proof that the
    rewriting evaluator of teap_gui/template.py computes it from the printed text. */
module TemplateMeaning {
  import opened Bytes
  import opened Rewriting
  import opened Template

  // ── Expressions ──

  /** A template is text, two templates side by side, or a call over at least one argument. */
  datatype Expr = Lit(text: string) | Cat(left: Expr, right: Expr) | Call(f: Fn, args: Args)

  datatype Args = One(e: Expr) | More(e: Expr, rest: Args)

  function Name(f: Fn): (s: string)
    ensures |s| == Length(f)
  {
    match f
    case Uc => "uc"
    case Lc => "lc"
    case Hex => "hex"
    case Rand => "rand"
    case Pad => "pad"
  }

  function CallText(f: Fn, body: string): string { Name(f) + "(" + body + ")" }

  function Print(e: Expr): string {
    match e
    case Lit(text) => text
    case Cat(l, r) => Print(l) + Print(r)
    case Call(f, args) => CallText(f, PrintArgs(args))
  }

  function PrintArgs(a: Args): string {
    match a
    case One(e) => Print(e)
    case More(e, rest) => Print(e) + "," + PrintArgs(rest)
  }

  /** Literals hold no parenthesis and no comma. */
  predicate WellFormed(e: Expr) {
    match e
    case Lit(text) => Clean(text)
    case Cat(l, r) => WellFormed(l) && WellFormed(r)
    case Call(_, args) => WellFormedArgs(args)
  }

  predicate WellFormedArgs(a: Args) {
    match a
    case One(e) => WellFormed(e)
    case More(e, rest) => WellFormed(e) && WellFormedArgs(rest)
  }

  function Calls(e: Expr): nat {
    match e
    case Lit(_) => 0
    case Cat(l, r) => Calls(l) + Calls(r)
    case Call(_, args) => 1 + CallsArgs(args)
  }

  function CallsArgs(a: Args): nat {
    match a
    case One(e) => Calls(e)
    case More(e, rest) => Calls(e) + CallsArgs(rest)
  }

  // ── The recursive semantics ──

  type Applier = (Fn, seq<string>, nat) -> Outcome

  datatype Values = Texts(texts: seq<string>, drawn: nat) | Failed(error: Error)

  /** Arguments left to right, then the function; the first exception ends it. */
  function Denote(e: Expr, drawn: nat, apply: Applier): Outcome {
    match e
    case Lit(text) => Value(text, drawn)
    case Cat(l, r) =>
      var a := Denote(l, drawn, apply);
      if a.Raised? then a
      else
        var b := Denote(r, a.drawn, apply);
        if b.Raised? then b else Value(a.text + b.text, b.drawn)
    case Call(f, args) =>
      var vs := DenoteArgs(args, drawn, apply);
      if vs.Failed? then Raised(vs.error) else apply(f, vs.texts, vs.drawn)
  }

  function DenoteArgs(a: Args, drawn: nat, apply: Applier): Values {
    var v := Denote(a.e, drawn, apply);
    if v.Raised? then Failed(v.error)
    else
      match a
      case One(_) => Texts([v.text], v.drawn)
      case More(_, rest) =>
        var vs := DenoteArgs(rest, v.drawn, apply);
        if vs.Failed? then vs else Texts([v.text] + vs.texts, vs.drawn)
  }

  // ── The call evaluated first ──

  /** A call whose arguments hold no calls, and the text around it. */
  datatype Frame = Frame(pre: string, f: Fn, args: Args, post: string)

  /** The leftmost such call of an expression with calls. */
  function Focus(e: Expr): (r: Frame)
    requires Calls(e) > 0
    ensures CallsArgs(r.args) == 0
  {
    match e
    case Cat(l, r) =>
      if Calls(l) > 0 then var x := Focus(l); x.(post := x.post + Print(r))
      else var x := Focus(r); x.(pre := Print(l) + x.pre)
    case Call(f, args) =>
      if CallsArgs(args) == 0 then Frame("", f, args, "")
      else var x := FocusArgs(args); x.(pre := Name(f) + "(" + x.pre, post := x.post + ")")
  }

  function FocusArgs(a: Args): (r: Frame)
    requires CallsArgs(a) > 0
    ensures CallsArgs(r.args) == 0
  {
    match a
    case One(e) => Focus(e)
    case More(e, rest) =>
      if Calls(e) > 0 then var x := Focus(e); x.(post := x.post + "," + PrintArgs(rest))
      else var x := FocusArgs(rest); x.(pre := Print(e) + "," + x.pre)
  }

  /** The expression with that call replaced by text. */
  function Plug(e: Expr, w: string): (r: Expr)
    requires Calls(e) > 0
    ensures Calls(r) == Calls(e) - 1
  {
    match e
    case Cat(l, r) => if Calls(l) > 0 then Cat(Plug(l, w), r) else Cat(l, Plug(r, w))
    case Call(f, args) => if CallsArgs(args) == 0 then Lit(w) else Call(f, PlugArgs(args, w))
  }

  function PlugArgs(a: Args, w: string): (r: Args)
    requires CallsArgs(a) > 0
    ensures CallsArgs(r) == CallsArgs(a) - 1
  {
    match a
    case One(e) => One(Plug(e, w))
    case More(e, rest) => if Calls(e) > 0 then More(Plug(e, w), rest) else More(e, PlugArgs(rest, w))
  }

  predicate NoClose(s: string) {
    forall i :: 0 <= i < |s| ==> s[i] != ')'
  }

  /** Neither an opening nor a closing parenthesis. */
  predicate Flat(s: string) {
    forall i :: 0 <= i < |s| ==> s[i] != '(' && s[i] != ')'
  }

  lemma NameClean(f: Fn)
    ensures Clean(Name(f))
  {
  }

  lemma {:induction false} PlainPrint(e: Expr)
    requires WellFormed(e) && Calls(e) == 0
    ensures Clean(Print(e))
  {
    match e
    case Lit(_) =>
    case Cat(l, r) =>
      PlainPrint(l);
      PlainPrint(r);
  }

  lemma {:induction false} PlainPrintArgs(a: Args)
    requires WellFormedArgs(a) && CallsArgs(a) == 0
    ensures Flat(PrintArgs(a))
  {
    PlainPrint(a.e);
    if a.More? {
      PlainPrintArgs(a.rest);
    }
  }

  /** The text before the focus closes no parenthesis, and the focus's arguments are well
      formed. */
  lemma {:induction false} FocusShape(e: Expr)
    requires WellFormed(e) && Calls(e) > 0
    ensures NoClose(Focus(e).pre) && WellFormedArgs(Focus(e).args)
    decreases e
  {
    match e
    case Cat(l, r) =>
      if Calls(l) > 0 {
        FocusShape(l);
      } else {
        PlainPrint(l);
        FocusShape(r);
      }
    case Call(f, args) =>
      if CallsArgs(args) > 0 {
        NameClean(f);
        FocusShapeArgs(args);
      }
  }

  lemma {:induction false} FocusShapeArgs(a: Args)
    requires WellFormedArgs(a) && CallsArgs(a) > 0
    ensures NoClose(FocusArgs(a).pre) && WellFormedArgs(FocusArgs(a).args)
    decreases a
  {
    if Calls(a.e) > 0 {
      FocusShape(a.e);
    } else {
      PlainPrint(a.e);
      FocusShapeArgs(a.rest);
    }
  }

  /** The printed expression is the focus in its frame; plugging text there prints that text in
      the same frame. */
  lemma {:induction false} FocusPrints(e: Expr, w: string)
    requires Calls(e) > 0
    ensures var x := Focus(e);
            && Print(e) == Put(x.pre, CallText(x.f, PrintArgs(x.args)), x.post)
            && Print(Plug(e, w)) == Put(x.pre, w, x.post)
    decreases e
  {
    match e
    case Cat(l, r) =>
      if Calls(l) > 0 {
        FocusPrints(l, w);
        var x := Focus(l);
        Reframe("", x.pre, CallText(x.f, PrintArgs(x.args)), x.post, Print(r));
        Reframe("", x.pre, w, x.post, Print(r));
      } else {
        FocusPrints(r, w);
        var x := Focus(r);
        Reframe(Print(l), x.pre, CallText(x.f, PrintArgs(x.args)), x.post, "");
        Reframe(Print(l), x.pre, w, x.post, "");
      }
    case Call(f, args) =>
      if CallsArgs(args) == 0 {
        assert Put("", Print(e), "") == Print(e);
        assert Put("", w, "") == w;
      } else {
        FocusPrintsArgs(args, w);
        var x := FocusArgs(args);
        Reframe(Name(f) + "(", x.pre, CallText(x.f, PrintArgs(x.args)), x.post, ")");
        Reframe(Name(f) + "(", x.pre, w, x.post, ")");
      }
  }

  lemma {:induction false} FocusPrintsArgs(a: Args, w: string)
    requires CallsArgs(a) > 0
    ensures var x := FocusArgs(a);
            && PrintArgs(a) == Put(x.pre, CallText(x.f, PrintArgs(x.args)), x.post)
            && PrintArgs(PlugArgs(a, w)) == Put(x.pre, w, x.post)
    decreases a
  {
    match a
    case One(e) => FocusPrints(e, w);
    case More(e, rest) =>
      if Calls(e) > 0 {
        FocusPrints(e, w);
        var x := Focus(e);
        Reframe("", x.pre, CallText(x.f, PrintArgs(x.args)), x.post, "," + PrintArgs(rest));
        Reframe("", x.pre, w, x.post, "," + PrintArgs(rest));
        assert x.post + "," + PrintArgs(rest) == x.post + ("," + PrintArgs(rest));
      } else {
        FocusPrintsArgs(rest, w);
        var x := FocusArgs(rest);
        Reframe(Print(e) + ",", x.pre, CallText(x.f, PrintArgs(x.args)), x.post, "");
        Reframe(Print(e) + ",", x.pre, w, x.post, "");
      }
  }

  lemma Reframe(a: string, pre: string, w: string, post: string, b: string)
    ensures a + Put(pre, w, post) + b == Put(a + pre, w, post + b)
    ensures a == "" ==> a + pre == pre && Put(pre, w, post) + b == Put(pre, w, post + b)
    ensures b == "" ==> post + b == post && a + Put(pre, w, post) == Put(a + pre, w, post)
  {
  }

  lemma {:induction false} PlugWellFormed(e: Expr, w: string)
    requires WellFormed(e) && Calls(e) > 0 && Clean(w)
    ensures WellFormed(Plug(e, w))
    decreases e
  {
    match e
    case Cat(l, r) => if Calls(l) > 0 { PlugWellFormed(l, w); } else { PlugWellFormed(r, w); }
    case Call(_, args) => if CallsArgs(args) > 0 { PlugWellFormedArgs(args, w); }
  }

  lemma {:induction false} PlugWellFormedArgs(a: Args, w: string)
    requires WellFormedArgs(a) && CallsArgs(a) > 0 && Clean(w)
    ensures WellFormedArgs(PlugArgs(a, w))
    decreases a
  {
    if Calls(a.e) > 0 {
      PlugWellFormed(a.e, w);
    } else {
      PlugWellFormedArgs(a.rest, w);
    }
  }

  // ── Denotation through the focus ──

  function TextsOf(a: Args): seq<string> {
    match a
    case One(e) => [Print(e)]
    case More(e, rest) => [Print(e)] + TextsOf(rest)
  }

  lemma {:induction false} PlainDenotes(e: Expr, drawn: nat, apply: Applier)
    requires Calls(e) == 0
    ensures Denote(e, drawn, apply) == Value(Print(e), drawn)
  {
    match e
    case Lit(_) =>
    case Cat(l, r) =>
      PlainDenotes(l, drawn, apply);
      PlainDenotes(r, drawn, apply);
  }

  lemma {:induction false} PlainDenotesArgs(a: Args, drawn: nat, apply: Applier)
    requires CallsArgs(a) == 0
    ensures DenoteArgs(a, drawn, apply) == Texts(TextsOf(a), drawn)
  {
    PlainDenotes(a.e, drawn, apply);
    if a.More? {
      PlainDenotesArgs(a.rest, drawn, apply);
    }
  }

  /** Evaluating the focus first, and then the expression with the result in its place, changes
      nothing; and if the focus raises, so does the expression. */
  lemma {:induction false} DenotePlug(e: Expr, drawn: nat, apply: Applier)
    requires Calls(e) > 0
    ensures var x := Focus(e);
            var w := apply(x.f, TextsOf(x.args), drawn);
            Denote(e, drawn, apply)
            == if w.Raised? then w else Denote(Plug(e, w.text), w.drawn, apply)
    decreases e
  {
    match e
    case Cat(l, r) =>
      if Calls(l) > 0 {
        DenotePlug(l, drawn, apply);
      } else {
        PlainDenotes(l, drawn, apply);
        DenotePlug(r, drawn, apply);
        var x := Focus(r);
        var w := apply(x.f, TextsOf(x.args), drawn);
        if w.Value? {
          PlainDenotes(l, w.drawn, apply);
        }
      }
    case Call(f, args) =>
      if CallsArgs(args) == 0 {
        PlainDenotesArgs(args, drawn, apply);
      } else {
        DenotePlugArgs(args, drawn, apply);
      }
  }

  lemma {:induction false} DenotePlugArgs(a: Args, drawn: nat, apply: Applier)
    requires CallsArgs(a) > 0
    ensures var x := FocusArgs(a);
            var w := apply(x.f, TextsOf(x.args), drawn);
            DenoteArgs(a, drawn, apply)
            == if w.Raised? then Failed(w.error) else DenoteArgs(PlugArgs(a, w.text), w.drawn, apply)
    decreases a
  {
    if Calls(a.e) > 0 {
      DenotePlug(a.e, drawn, apply);
    } else {
      PlainDenotes(a.e, drawn, apply);
      DenotePlugArgs(a.rest, drawn, apply);
      var x := FocusArgs(a.rest);
      var w := apply(x.f, TextsOf(x.args), drawn);
      if w.Value? {
        PlainDenotes(a.e, w.drawn, apply);
      }
    }
  }

  // ── Reading a printed argument list ──

  lemma {:induction false} SplitClean(s: string, i: nat, tail: string, current: string)
    requires i <= |s| && Clean(s)
    ensures SplitFrom(s + tail, i, 0, current) == SplitFrom(s + tail, |s|, 0, current + s[i..])
    decreases |s| - i
  {
    if i == |s| {
      assert current + s[i..] == current;
    } else {
      assert (s + tail)[i] == s[i] && CleanChar(s[i]);
      SplitClean(s, i + 1, tail, current + [s[i]]);
      assert current + [s[i]] + s[i + 1..] == current + s[i..];
    }
  }

  lemma {:induction false} SplitShift(a: string, t: string, i: nat, depth: int, current: string)
    requires i <= |t|
    ensures SplitFrom(a + t, |a| + i, depth, current) == SplitFrom(t, i, depth, current)
    decreases |t| - i
  {
    if i < |t| {
      assert (a + t)[|a| + i] == t[i];
      var d := if t[i] == '(' then depth + 1 else if t[i] == ')' then depth - 1 else depth;
      SplitShift(a, t, i + 1, depth, "");
      SplitShift(a, t, i + 1, d, current + [t[i]]);
    }
  }

  /** _split_args gives back the printed arguments when they hold no calls. */
  lemma {:induction false} SplitPrinted(a: Args)
    requires WellFormedArgs(a) && CallsArgs(a) == 0
    ensures SplitArgs(PrintArgs(a)) == TextsOf(a)
  {
    var s := Print(a.e);
    PlainPrint(a.e);
    assert "" + s[0..] == s;
    match a
    case One(_) =>
      SplitClean(s, 0, "", "");
      assert s + "" == s;
    case More(_, rest) =>
      var t := PrintArgs(rest);
      SplitPrinted(rest);
      SplitClean(s, 0, "," + t, "");
      assert s + ("," + t) == PrintArgs(a) && s + "," + t == PrintArgs(a);
      assert PrintArgs(a)[|s|] == ',';
      SplitShift(s + ",", t, 0, 0, "");
  }

  // ── The search finds the focus ──

  lemma OpensAt(pre: string, f: Fn, rest: string)
    ensures Opens(pre + (Name(f) + "(" + rest), |pre|, f)
  {
    var t := pre + (Name(f) + "(" + rest);
    assert forall i :: 0 <= i < |Name(f)| ==> t[|pre| + i] == Name(f)[i];
  }

  /** Two calls do not overlap. */
  lemma CallsApart(t: string, p: nat, g: Fn, q: nat, f: Fn)
    requires Opens(t, p, g) && Opens(t, q, f) && p < q
    ensures BodyAt(p, g) <= q
  {
    if q == p + 1 {
    } else if q == p + 2 {
    } else if q == p + 3 {
    }
  }

  lemma FlatHasNoCall(s: string)
    requires forall i :: 0 <= i < |s| ==> s[i] != '('
    ensures !HasCall(s)
  {
    var p := NextCall(s, 0);
    var f := CallAt(s, p);
    assert f.Some? ==> p + Length(f.value) < |s|;
  }

  lemma FirstCloseIs(t: string, from: nat, close: nat)
    requires from <= close < |t| && t[close] == ')'
    requires forall i :: from <= i < close ==> t[i] != ')'
    ensures FirstClose(t, from) == close
  {
  }

  /** From anywhere before a call with a flat body and no closing parenthesis in between, the
      search picks that call. */
  lemma {:induction false} PickIs(t: string, from: nat, q: nat, f: Fn, close: nat)
    requires from <= q && Opens(t, q, f) && BodyAt(q, f) <= close < |t| && t[close] == ')'
    requires forall i :: from <= i < close ==> t[i] != ')'
    requires forall i :: BodyAt(q, f) <= i < close ==> t[i] != '('
    ensures Pick(t, from) == q
    decreases q - from
  {
    SomeCall(t, q, f);
    var p := NextCall(t, from);
    assert p <= q;
    var g := CallAt(t, p).value;
    var next := BodyAt(p, g);
    if p == q {
      FirstCloseIs(t, next, close);
      FlatHasNoCall(t[next..close] + ")");
    } else {
      CallsApart(t, p, g, q, f);
      FirstCloseIs(t, next, close);
      OpensInside(t, next, close, q - next, f);
      SomeCall(t[next..close] + ")", q - next, f);
      PickIs(t, next, q, f, close);
    }
  }

  lemma {:induction false} CloseIs(t: string, from: nat, close: nat)
    requires from <= close < |t| && t[close] == ')'
    requires forall i :: from <= i < close ==> t[i] != '(' && t[i] != ')'
    ensures Close(t, from, 1) == Some(close + 1)
    decreases close - from
  {
    if from < close {
      CloseIs(t, from + 1, close);
    }
  }

  lemma LocateIs(t: string, f: Fn, pre: string, body: string, post: string)
    requires Framed(t, f, pre, body, post) && NoClose(pre) && Flat(body)
    ensures Locate(t) == Site(pre, f, body, post)
  {
    var q := |pre|;
    var close := BodyAt(q, f) + |body|;
    assert Chosen(t) == q by {
      NothingCloses(t, f, pre, body, post);
      PickIs(t, 0, q, f, close);
    }
    assert CallAt(t, q) == Some(f) by {
      SomeCall(t, q, f);
    }
    assert Close(t, BodyAt(q, f), 1) == Some(close + 1) by {
      NothingCloses(t, f, pre, body, post);
      CloseIs(t, BodyAt(q, f), close);
    }
    LocateFrom(t, q, f, close + 1, pre, body, post);
  }

  /** A call of f with this body stands in t between these texts. */
  predicate Framed(t: string, f: Fn, pre: string, body: string, post: string) {
    var q, b := |pre|, BodyAt(|pre|, f);
    var close := b + |body|;
    && Opens(t, q, f) && close < |t| && t[close] == ')'
    && t[..q] == pre && t[b..close] == body && t[close + 1..] == post
  }

  lemma NothingCloses(t: string, f: Fn, pre: string, body: string, post: string)
    requires Framed(t, f, pre, body, post) && NoClose(pre) && Flat(body)
    ensures forall i :: 0 <= i < BodyAt(|pre|, f) + |body| ==> t[i] != ')'
    ensures forall i :: BodyAt(|pre|, f) <= i < BodyAt(|pre|, f) + |body| ==> t[i] != '('
  {
    var q, b := |pre|, BodyAt(|pre|, f);
    forall i | b <= i < b + |body|
      ensures t[i] != '(' && t[i] != ')'
    {
      assert t[b..b + |body|][i - b] == body[i - b];
    }
    forall i | 0 <= i < q
      ensures t[i] != ')'
    {
      assert t[..q][i] == pre[i];
    }
  }

  lemma LocateFrom(t: string, q: nat, f: Fn, end: nat, pre: string, body: string, post: string)
    requires q < |t| && Chosen(t) == q && CallAt(t, q) == Some(f)
    requires BodyAt(q, f) <= |t| && Close(t, BodyAt(q, f), 1) == Some(end)
    requires t[..q] == pre && t[BodyAt(q, f)..end - 1] == body && t[end..] == post
    ensures Locate(t) == Site(pre, f, body, post)
  {
  }

  lemma FrameText(pre: string, f: Fn, body: string, post: string)
    ensures Framed(Put(pre, CallText(f, body), post), f, pre, body, post)
  {
    var t := Put(pre, CallText(f, body), post);
    OpensInFrame(pre, f, body, post);
    var open, rest := pre + Name(f) + "(", ")" + post;
    assert t == open + body + rest;
    Pieces(open, body, rest);
    assert t[..|pre|] == pre;
    assert rest[1..] == post;
  }

  lemma OpensInFrame(pre: string, f: Fn, body: string, post: string)
    ensures Opens(Put(pre, CallText(f, body), post), |pre|, f)
  {
    var rest := body + ")" + post;
    assert Put(pre, CallText(f, body), post) == pre + (Name(f) + "(" + rest);
    OpensAt(pre, f, rest);
  }

  /** The evaluator's search on a call with a flat body whose frame closes nothing before it. */
  lemma LeafLocated(pre: string, f: Fn, body: string, post: string)
    requires NoClose(pre) && Flat(body)
    ensures Locate(Put(pre, CallText(f, body), post)) == Site(pre, f, body, post)
    ensures !HasCall(body)
  {
    FrameText(pre, f, body, post);
    LocateIs(Put(pre, CallText(f, body), post), f, pre, body, post);
    FlatHasNoCall(body);
  }

  lemma Pieces(a: string, b: string, c: string)
    ensures (a + b + c)[|a|..|a| + |b|] == b && (a + b + c)[|a| + |b|..] == c
    ensures forall i :: 0 <= i < |a| ==> (a + b + c)[i] == a[i]
    ensures forall i :: |a| <= i < |a| + |b| ==> (a + b + c)[i] == b[i - |a|]
  {
  }

  lemma PlainLocated(t: string)
    requires Clean(t)
    ensures Locate(t) == NoCall
  {
    FlatHasNoCall(t);
    PickFindsACall(t, 0);
  }

  // ── Rewriting computes the meaning ──

  predicate LeafAt(e: Engine, pre: string, f: Fn, body: string, post: string) {
    e.locate(Put(pre, CallText(f, body), post)) == Site(pre, f, body, post) && !e.busy(body)
  }

  predicate PlainAt(e: Engine, t: string) { e.locate(t) == NoCall }

  predicate CallAs(e: Engine, apply: Applier, f: Fn, args: Args, drawn: nat) {
    e.call(f, PrintArgs(args), drawn) == apply(f, TextsOf(args), drawn)
  }

  predicate AllClean(texts: seq<string>) {
    forall i :: 0 <= i < |texts| ==> Clean(texts[i])
  }

  predicate StaysClean(texts: seq<string>, r: Outcome) {
    AllClean(texts) && r.Value? ==> Clean(r.text)
  }

  /** An engine that finds leaf calls first, finds nothing in text without calls, and applies
      functions to the arguments printed. */
  ghost predicate Reads(e: Engine, apply: Applier) {
    && (forall pre, f, body, post {:trigger LeafAt(e, pre, f, body, post)} ::
          NoClose(pre) && Flat(body) ==> LeafAt(e, pre, f, body, post))
    && (forall t {:trigger PlainAt(e, t)} :: Clean(t) ==> PlainAt(e, t))
    && (forall f, args, drawn: nat {:trigger CallAs(e, apply, f, args, drawn)} ::
          WellFormedArgs(args) && CallsArgs(args) == 0 ==> CallAs(e, apply, f, args, drawn))
    && (forall f, texts, drawn: nat {:trigger apply(f, texts, drawn)} ::
          StaysClean(texts, apply(f, texts, drawn)))
  }

  lemma {:induction false} TextsClean(a: Args)
    requires WellFormedArgs(a) && CallsArgs(a) == 0
    ensures AllClean(TextsOf(a))
  {
    PlainPrint(a.e);
    if a.More? {
      TextsClean(a.rest);
    }
  }

  /** The loop on the printed text returns what the expression denotes, result or exception,
      when it has more rounds than the expression has calls; with too few rounds a value is
      never reached, and one the expression has is reported too deep. */
  lemma {:induction false} RewritingMeans(e: Engine, apply: Applier, x: Expr, rounds: nat,
                                          drawn: nat)
    requires Sound(e) && Reads(e, apply) && WellFormed(x)
    ensures Calls(x) < rounds ==>
              EvalFrom(e, Print(x), rounds, drawn) == Denote(x, drawn, apply)
    ensures Calls(x) >= rounds ==>
              EvalFrom(e, Print(x), rounds, drawn).Raised?
              && (Denote(x, drawn, apply).Value? ==>
                    EvalFrom(e, Print(x), rounds, drawn) == Raised(TooDeep))
    decreases Calls(x)
  {
    if rounds > 0 {
      if Calls(x) == 0 {
        PlainPrint(x);
        assert PlainAt(e, Print(x));
        PlainDenotes(x, drawn, apply);
      } else {
        var frame := Focus(x);
        FocusShape(x);
        PlainPrintArgs(frame.args);
        var body := PrintArgs(frame.args);
        assert LeafAt(e, frame.pre, frame.f, body, frame.post);
        assert CallAs(e, apply, frame.f, frame.args, drawn);
        var w := apply(frame.f, TextsOf(frame.args), drawn);
        DenotePlug(x, drawn, apply);
        FocusPrints(x, "");
        if w.Value? {
          TextsClean(frame.args);
          assert StaysClean(TextsOf(frame.args), w);
          FocusPrints(x, w.text);
          PlugWellFormed(x, w.text);
          RewritingMeans(e, apply, Plug(x, w.text), rounds - 1, w.drawn);
        }
      }
    }
  }

  function Standardly(draws: Draws): Applier {
    (f: Fn, texts: seq<string>, drawn: nat) => Apply(f, texts, drawn, draws)
  }

  lemma ApplyStaysClean(f: Fn, texts: seq<string>, drawn: nat, draws: Draws)
    ensures StaysClean(texts, Apply(f, texts, drawn, draws))
  {
  }

  lemma LanguageReads(draws: Draws)
    ensures Reads(Language(draws), Standardly(draws))
  {
    var e, apply := Language(draws), Standardly(draws);
    forall pre, f, body, post | NoClose(pre) && Flat(body)
      ensures LeafAt(e, pre, f, body, post)
    {
      LeafLocated(pre, f, body, post);
    }
    forall t | Clean(t)
      ensures PlainAt(e, t)
    {
      PlainLocated(t);
    }
    forall f, args, drawn: nat | WellFormedArgs(args) && CallsArgs(args) == 0
      ensures CallAs(e, apply, f, args, drawn)
    {
      SplitPrinted(args);
    }
    forall f, texts, drawn: nat
      ensures StaysClean(texts, apply(f, texts, drawn))
    {
      ApplyStaysClean(f, texts, drawn, draws);
    }
  }

  /** For every well-formed expression, evaluating its printed text gives a value exactly when it
      has fewer than 50 calls and denotes one, and then it is that value, with as many random
      draws made; with fewer than 50 calls it raises exactly what the denotation raises. */
  lemma EvaluationPreservesMeaning(x: Expr, drawn: nat, draws: Draws)
    requires WellFormed(x)
    ensures var evaluated := Evaluated(Print(x), drawn, draws);
            var meaning := Denote(x, drawn, Standardly(draws));
            && (Calls(x) < 50 ==> evaluated == meaning)
            && (evaluated.Value? <==> Calls(x) < 50 && meaning.Value?)
  {
    LanguageIsSound(draws);
    LanguageReads(draws);
    var e := Language(draws);
    RewritingMeans(e, Standardly(draws), x, ROUNDS, drawn);
  }
}
