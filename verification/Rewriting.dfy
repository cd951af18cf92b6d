/** The rewriting loop of teap_gui/template.py, over any way of finding a call and any table of
    functions. */
module Rewriting {

  datatype Fn = Uc | Lc | Hex | Rand | Pad

  datatype Error = NoArgument | RangeExpected | EmptyRange | NotAnInteger | NoWidth
                 | Unbalanced | TooDeep

  /** A text and the number of random draws made so far, or the exception raised. */
  datatype Outcome = Value(text: string, drawn: nat) | Raised(error: Error)

  /** What a round finds: no call, a call that never closes, or a call and the text around it. */
  datatype Site = NoCall | Open | Site(before: string, f: Fn, body: string, after: string)

  function Put(before: string, w: string, after: string): string {
    before + w + after
  }

  /** What the loop is made of: the search for the next call to rewrite, whether a body holds
      calls of its own, what a call's body becomes, and a size of texts. */
  datatype Engine = Engine(locate: string -> Site, busy: string -> bool,
                           call: (Fn, string, nat) -> Outcome, size: string -> nat)

  predicate LocateSound(e: Engine, t: string) {
    match e.locate(t)
    case NoCall => !e.busy(t)
    case Open => true
    case Site(before, _, body, after) =>
      e.size(before) + 1 + e.size(body) + e.size(after) <= e.size(t)
  }

  predicate CallSound(e: Engine, body: string, r: Outcome) {
    && r != Raised(TooDeep)
    && (r.Value? ==> e.size(r.text) <= e.size(body))
  }

  /** A call found is smaller, by one at least, than the text it stands in; and no call returns
      more than its body. */
  ghost predicate Sound(e: Engine) {
    && (forall t {:trigger e.locate(t)} :: LocateSound(e, t))
    && (forall f, body, drawn {:trigger e.call(f, body, drawn)} ::
          CallSound(e, body, e.call(f, body, drawn)))
    && (forall a, w, b {:trigger Put(a, w, b)} ::
          e.size(Put(a, w, b)) == e.size(a) + e.size(w) + e.size(b))
  }

  const ROUNDS: nat := 50

  /** The call's result, once its body is. */
  function Resolved(e: Engine, f: Fn, body: Outcome): (r: Outcome)
    requires Sound(e)
    ensures r.Value? ==> body.Value? && e.size(r.text) <= e.size(body.text)
    ensures r == Raised(TooDeep) ==> body == r
  {
    match body
    case Raised(_) => body
    case Value(plain, drawn) =>
      assert CallSound(e, plain, e.call(f, plain, drawn));
      e.call(f, plain, drawn)
  }

  lemma PutSize(e: Engine, before: string, w: string, after: string)
    requires Sound(e)
    ensures e.size(Put(before, w, after)) == e.size(before) + e.size(w) + e.size(after)
  {
  }

  /** _eval with `rounds` rounds left. It terminates because every rewrite, and every recursive
      body, is strictly smaller; the length of the text is no measure. */
  function EvalFrom(e: Engine, t: string, rounds: nat, drawn: nat): (r: Outcome)
    requires Sound(e)
    ensures r.Value? ==> e.size(r.text) <= e.size(t)
    decreases e.size(t)
  {
    if rounds == 0 then Raised(TooDeep)
    else
      var site := e.locate(t);
      assert LocateSound(e, t);
      match site
      case NoCall => Value(t, drawn)
      case Open => Raised(Unbalanced)
      case Site(before, f, body, after) =>
        var inner := if e.busy(body) then EvalFrom(e, body, ROUNDS, drawn) else Value(body, drawn);
        var w := Resolved(e, f, inner);
        if w.Raised? then w
        else
          PutSize(e, before, w.text, after);
          EvalFrom(e, Put(before, w.text, after), rounds - 1, w.drawn)
  }

  /** What a call's body has become when it is called. */
  function Inner(e: Engine, body: string, drawn: nat): Outcome
    requires Sound(e)
  {
    if e.busy(body) then EvalFrom(e, body, ROUNDS, drawn) else Value(body, drawn)
  }

  /** One round of the loop. */
  lemma OneRound(e: Engine, t: string, rounds: nat, drawn: nat)
    requires Sound(e) && rounds > 0
    ensures var site, whole := e.locate(t), EvalFrom(e, t, rounds, drawn);
            && LocateSound(e, t)
            && (site.NoCall? ==> whole == Value(t, drawn))
            && (site.Open? ==> whole == Raised(Unbalanced))
            && (site.Site? ==>
                  var w := Resolved(e, site.f, Inner(e, site.body, drawn));
                  if w.Raised? then whole == w
                  else whole == EvalFrom(e, Put(site.before, w.text, site.after), rounds - 1, w.drawn))
  {
    assert LocateSound(e, t);
    var site := e.locate(t);
    if site.Site? {
      var w := Resolved(e, site.f, Inner(e, site.body, drawn));
      if w.Value? {
        PutSize(e, site.before, w.text, site.after);
      }
    }
  }

  lemma NoRounds(e: Engine)
    requires Sound(e)
    ensures forall t, drawn {:trigger EvalFrom(e, t, 0, drawn)} ::
              EvalFrom(e, t, 0, drawn) == Raised(TooDeep)
  {
  }

  /** A text smaller than the number of rounds is never too deep. */
  lemma {:induction false} NeverTooDeep(e: Engine, t: string, rounds: nat, drawn: nat)
    requires Sound(e) && e.size(t) < rounds && e.size(t) < ROUNDS
    ensures EvalFrom(e, t, rounds, drawn) != Raised(TooDeep)
    decreases e.size(t)
  {
    var site := e.locate(t);
    assert LocateSound(e, t);
    if site.Site? {
      var inner := if e.busy(site.body) then EvalFrom(e, site.body, ROUNDS, drawn)
                   else Value(site.body, drawn);
      if e.busy(site.body) {
        NeverTooDeep(e, site.body, ROUNDS, drawn);
      }
      var w := Resolved(e, site.f, inner);
      if w.Value? {
        PutSize(e, site.before, w.text, site.after);
        NeverTooDeep(e, Put(site.before, w.text, site.after), rounds - 1, w.drawn);
      }
    }
  }

  /** Whatever the loop returns contains no call. */
  lemma {:induction false} ResultIsDone(e: Engine, t: string, rounds: nat, drawn: nat)
    requires Sound(e) && EvalFrom(e, t, rounds, drawn).Value?
    ensures !e.busy(EvalFrom(e, t, rounds, drawn).text)
    decreases e.size(t)
  {
    var site := e.locate(t);
    assert LocateSound(e, t);
    if site.Site? {
      var inner := if e.busy(site.body) then EvalFrom(e, site.body, ROUNDS, drawn)
                   else Value(site.body, drawn);
      var w := Resolved(e, site.f, inner);
      PutSize(e, site.before, w.text, site.after);
      ResultIsDone(e, Put(site.before, w.text, site.after), rounds - 1, w.drawn);
    }
  }
}
