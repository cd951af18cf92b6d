/** PEM bundles: split_pem_chain of teap_gui/certs.py and trim_chain of teap_gui/generator.py. */
module Pem {
  import opened Bytes

  const BEGIN := "-----BEGIN CERTIFICATE-----"
  const END := "-----END CERTIFICATE-----"

  /** s.index(needle, from), or |s| + 1 when it raises. */
  function Index(s: string, needle: string, from: nat): (i: nat)
    requires from <= |s|
    ensures i <= |s| ==> from <= i && i + |needle| <= |s|
    decreases |s| - from
  {
    if At(s, from, needle) then from
    else if from == |s| then |s| + 1
    else Index(s, needle, from + 1)
  }

  /** The index is the first place the needle stands; past the end, it stands nowhere. */
  lemma {:induction false} IndexIsFirst(s: string, needle: string, from: nat)
    requires from <= |s|
    ensures var i := Index(s, needle, from);
            && (i <= |s| ==> At(s, i, needle))
            && forall j :: from <= j < i ==> !At(s, j, needle)
    decreases |s| - from
  {
    if !At(s, from, needle) && from < |s| {
      IndexIsFirst(s, needle, from + 1);
    }
  }

  /** `more`, put after the blocks already found. */
  function After<T>(found: seq<T>, more: Result<seq<T>>): Result<seq<T>> {
    match more case Ok(rest) => Ok(found + rest) case Err(e) => Err(e)
  }

  /** The blocks of a bundle, or the ValueError of a block without an end. */
  function Split(pem: string): Result<seq<string>>
    decreases |pem|
  {
    var start := Index(pem, BEGIN, 0);
    if start > |pem| then Ok([])
    else
      var end := Index(pem, END, start);
      if end > |pem| then Err(ValueError)
      else After([pem[start..end + |END|]], Split(pem[end + |END|..]))
  }

  lemma AfterOne<T>(found: seq<T>, x: T, more: Result<seq<T>>)
    ensures After(found, After([x], more)) == After(found + [x], more)
    ensures After(found, Ok([])) == Ok(found)
  {
    if more.Ok? {
      assert found + ([x] + more.value) == found + [x] + more.value;
    }
    assert found + [] == found;
  }

  lemma SplitStep(pem: string, start: nat, end: nat, block: string, rest: string)
    requires start == Index(pem, BEGIN, 0) <= |pem| && end == Index(pem, END, start) <= |pem|
    requires block == pem[start..end + |END|] && rest == pem[end + |END|..]
    ensures Split(pem) == After([block], Split(rest))
  {
    hide Index, After;
  }

  /** split_pem_chain */
  method SplitPemChain(pem: string) returns (r: Result<seq<string>>)
    ensures r == Split(pem)
  {
    var out: seq<string> := [];
    var rest := pem;
    AfterNothing(Split(pem));
    while Index(rest, BEGIN, 0) <= |rest|
      invariant Split(pem) == After(out, Split(rest))
      decreases |rest|
    {
      var start := Index(rest, BEGIN, 0);
      var end := Index(rest, END, start);
      if end > |rest| {
        return Err(ValueError);
      }
      var stop := end + |END|;
      var block := rest[start..stop];
      var next := rest[stop..];
      SplitStep(rest, start, end, block, next);
      AfterOne(out, block, Split(next));
      out := out + [block];
      rest := next;
    }
    AfterOne(out, "", Ok([]));
    return Ok(out);
  }

  lemma AfterNothing<T>(more: Result<seq<T>>)
    ensures After([], more) == more
  {
    if more.Ok? {
      assert [] + more.value == more.value;
    }
  }

  /** A block as the split cuts it: a begin marker at its front, and its only end marker at its
      back. */
  predicate IsBlock(b: string) {
    && |END| <= |b| && At(b, 0, BEGIN) && At(b, |b| - |END|, END)
    && forall j :: 0 <= j < |b| - |END| ==> !At(b, j, END)
  }

  predicate AllBlocks(blocks: seq<string>) {
    forall i :: 0 <= i < |blocks| ==> IsBlock(blocks[i])
  }

  lemma AtWithin(s: string, lo: nat, hi: nat, at: nat, part: string)
    requires lo <= hi <= |s| && at + |part| <= hi - lo
    ensures At(s[lo..hi], at, part) <==> At(s, lo + at, part)
  {
    if At(s, lo + at, part) {
      forall i {:trigger part[i]} | 0 <= i < |part|
        ensures s[lo..hi][at + i] == part[i]
      {
        assert s[(lo + at) + i] == part[i];
      }
    }
    if At(s[lo..hi], at, part) {
      forall i {:trigger part[i]} | 0 <= i < |part|
        ensures s[(lo + at) + i] == part[i]
      {
        assert s[lo..hi][at + i] == part[i];
      }
    }
  }

  /** Every block a split returns is a block. */
  lemma {:induction false} SplitYieldsBlocks(pem: string)
    requires Split(pem).Ok?
    ensures AllBlocks(Split(pem).value)
    decreases |pem|
  {
    hide IsBlock, Index;
    var start := Index(pem, BEGIN, 0);
    if start <= |pem| {
      var end := Index(pem, END, start);
      var stop := end + |END|;
      IndexIsFirst(pem, BEGIN, 0);
      IndexIsFirst(pem, END, start);
      CutIsBlock(pem, start, end);
      SplitYieldsBlocks(pem[stop..]);
      AnotherBlock(pem[start..stop], Split(pem[stop..]).value);
    }
  }

  lemma AnotherBlock(b: string, rest: seq<string>)
    requires IsBlock(b) && AllBlocks(rest)
    ensures AllBlocks([b] + rest)
  {
  }

  lemma CutIsBlock(s: string, start: nat, end: nat)
    requires start <= end && end + |END| <= |s| && At(s, start, BEGIN) && At(s, end, END)
    requires forall j :: start <= j < end ==> !At(s, j, END)
    ensures IsBlock(s[start..end + |END|])
  {
    var stop := end + |END|;
    MarkersApart(s, start, end);
    AtWithin(s, start, stop, 0, BEGIN);
    AtWithin(s, start, stop, end - start, END);
    forall j | 0 <= j < end - start
      ensures !At(s[start..stop], j, END)
    {
      AtWithin(s, start, stop, j, END);
    }
  }

  /** No end marker begins before the begin marker is over, so the cut holds the latter. */
  lemma MarkersApart(s: string, start: nat, end: nat)
    requires start <= end && At(s, start, BEGIN) && At(s, end, END)
    ensures start + |BEGIN| <= end + |END|
  {
    assert s[start + 5] == BEGIN[5];
    assert s[end + 4] == END[4];
    assert s[end + 5] == END[5];
  }

  /** "\n".join(blocks) */
  function Join(blocks: seq<string>): string
    decreases |blocks|, 0
  {
    if blocks == [] then "" else blocks[0] + JoinTail(blocks[1..])
  }

  function JoinTail(rest: seq<string>): string
    decreases |rest|, 1
  {
    if rest == [] then "" else "\n" + Join(rest)
  }

  lemma IndexIs(s: string, needle: string, from: nat, at: nat)
    requires from <= at && At(s, at, needle)
    requires forall j :: from <= j < at ==> !At(s, j, needle)
    ensures Index(s, needle, from) == at
  {
    IndexIsFirst(s, needle, from);
  }

  lemma FirstMarkers(s: string, n: nat, b: string)
    requires IsBlock(b) && n + |b| <= |s| && s[n..n + |b|] == b
    requires n <= 1 && (n == 1 ==> s[0] == '\n')
    ensures Index(s, BEGIN, 0) == n
    ensures Index(s, END, n) == n + |b| - |END|
  {
    BlockMarkers(s, n, b);
    assert forall j :: 0 <= j < n ==> !At(s, j, BEGIN) by {
      NoMarkerAtNewline(s);
    }
    IndexIs(s, BEGIN, 0, n);
    IndexIs(s, END, n, n + |b| - |END|);
  }

  /** A block's markers, where the block stands inside a longer text. */
  lemma BlockMarkers(s: string, n: nat, b: string)
    requires IsBlock(b) && n + |b| <= |s| && s[n..n + |b|] == b
    ensures At(s, n, BEGIN) && At(s, n + |b| - |END|, END)
    ensures forall j :: n <= j < n + |b| - |END| ==> !At(s, j, END)
  {
    AtWithin(s, n, n + |b|, 0, BEGIN);
    AtWithin(s, n, n + |b|, |b| - |END|, END);
    forall j | n <= j < n + |b| - |END|
      ensures !At(s, j, END)
    {
      AtWithin(s, n, n + |b|, j - n, END);
    }
  }

  lemma NoMarkerAtNewline(s: string)
    ensures s != [] && s[0] == '\n' ==> !At(s, 0, BEGIN)
  {
    if At(s, 0, BEGIN) {
      assert s[0 + 0] == BEGIN[0];
    }
  }

  /** Splitting a text that begins with a block, or with a newline and a block, cuts that block
      first. */
  lemma SplitFirst(s: string, n: nat, b: string, tail: string)
    requires IsBlock(b) && n + |b| <= |s| && s[n..n + |b|] == b && s[n + |b|..] == tail
    requires n <= 1 && (n == 1 ==> s[0] == '\n')
    ensures Split(s) == After([b], Split(tail))
  {
    var end := n + |b| - |END|;
    assert end + |END| == n + |b|;
    FirstMarkers(s, n, b);
    SplitStep(s, n, end, b, tail);
  }

  lemma SplitNothing()
    ensures Split("") == Ok([])
  {
  }

  lemma {:induction false} SplitJoinTail(rest: seq<string>)
    requires AllBlocks(rest)
    ensures Split(JoinTail(rest)) == Ok(rest)
    decreases |rest|
  {
    hide Split, Index, IsBlock;
    if rest == [] {
      SplitNothing();
    } else {
      var b, tail := rest[0], JoinTail(rest[1..]);
      Cut("\n", b, tail);
      assert Join(rest) == b + tail;
      assert JoinTail(rest) == "\n" + (b + tail);
      SplitFirst(JoinTail(rest), 1, b, tail);
      SplitJoinTail(rest[1..]);
      assert [b] + rest[1..] == rest;
    }
  }

  lemma Cut(lead: string, b: string, tail: string)
    ensures (lead + (b + tail))[|lead|..|lead| + |b|] == b
    ensures (lead + (b + tail))[|lead| + |b|..] == tail
  {
  }

  lemma SplitJoin(blocks: seq<string>)
    requires AllBlocks(blocks)
    ensures Split(Join(blocks)) == Ok(blocks)
  {
    hide Split, Index, IsBlock;
    if blocks == [] {
      SplitNothing();
    } else {
      var b, tail := blocks[0], JoinTail(blocks[1..]);
      Cut("", b, tail);
      assert "" + (b + tail) == Join(blocks);
      SplitFirst(Join(blocks), 0, b, tail);
      SplitJoinTail(blocks[1..]);
      assert [b] + blocks[1..] == blocks;
    }
  }

  // ── Subsequences ──

  predicate Subsequence<T(==)>(xs: seq<T>, ys: seq<T>) {
    if xs == [] then true
    else if ys == [] then false
    else if xs[0] == ys[0] then Subsequence(xs[1..], ys[1..])
    else Subsequence(xs, ys[1..])
  }

  lemma {:induction false} SubsequenceBlocks(xs: seq<string>, ys: seq<string>)
    requires Subsequence(xs, ys) && AllBlocks(ys)
    ensures AllBlocks(xs)
    decreases |ys|
  {
    if xs != [] {
      if xs[0] == ys[0] {
        SubsequenceBlocks(xs[1..], ys[1..]);
        assert xs == [xs[0]] + xs[1..];
      } else {
        SubsequenceBlocks(xs, ys[1..]);
      }
    }
  }

  /** Whenever a bundle splits, splitting the newline-join of any subsequence of its blocks
      returns that subsequence. */
  lemma SplitJoinOfSubsequence(pem: string, kept: seq<string>)
    requires Split(pem).Ok? && Subsequence(kept, Split(pem).value)
    ensures Split(Join(kept)) == Ok(kept)
  {
    SplitYieldsBlocks(pem);
    SubsequenceBlocks(kept, Split(pem).value);
    SplitJoin(kept);
  }

  // ── trim_chain ──

  datatype Mode = Leaf | NoRoot | Full

  /** What describe(b)["self_signed"] says of a block; a block that does not parse raises. */
  type Described = string -> Result<bool>

  function WithoutRoots(blocks: seq<string>, selfSigned: Described): Result<seq<string>> {
    if blocks == [] then Ok([])
    else
      var root :- selfSigned(blocks[0]);
      var rest :- WithoutRoots(blocks[1..], selfSigned);
      Ok(if root then rest else [blocks[0]] + rest)
  }

  /** The blocks each mode keeps of a nonempty chain. */
  function Kept(blocks: seq<string>, mode: Mode, selfSigned: Described): Result<seq<string>>
    requires blocks != []
  {
    match mode
    case Leaf => Ok([blocks[0]])
    case NoRoot =>
      var rest :- WithoutRoots(blocks[1..], selfSigned);
      Ok([blocks[0]] + rest)
    case Full => Ok(blocks)
  }

  function Trimmed(pem: string, mode: Mode, selfSigned: Described): Result<string> {
    var blocks :- Split(pem);
    if blocks == [] then Ok(pem)
    else
      var kept :- Kept(blocks, mode, selfSigned);
      Ok(Join(kept))
  }

  method TrimChain(pem: string, mode: Mode, selfSigned: Described) returns (r: Result<string>)
    ensures r == Trimmed(pem, mode, selfSigned)
  {
    var blocks :- SplitPemChain(pem);
    if blocks == [] {
      return Ok(pem);
    }
    if mode == Leaf {
      assert Join([blocks[0]]) == blocks[0];
      return Ok(blocks[0]);
    }
    if mode == NoRoot {
      var kept := [blocks[0]];
      for i := 1 to |blocks|
        invariant Kept(blocks, NoRoot, selfSigned)
               == After(kept, WithoutRoots(blocks[i..], selfSigned))
      {
        assert blocks[i..][0] == blocks[i] && blocks[i..][1..] == blocks[i + 1..];
        var root :- selfSigned(blocks[i]);
        if !root {
          AfterOne(kept, blocks[i], WithoutRoots(blocks[i + 1..], selfSigned));
          kept := kept + [blocks[i]];
        }
      }
      assert blocks[|blocks|..] == [];
      AfterOne(kept, "", Ok([]));
      return Ok(Join(kept));
    }
    return Ok(Join(blocks));
  }

  lemma {:induction false} WithoutRootsIsSubsequence(blocks: seq<string>, selfSigned: Described)
    requires WithoutRoots(blocks, selfSigned).Ok?
    ensures Subsequence(WithoutRoots(blocks, selfSigned).value, blocks)
    ensures WithoutRoots(WithoutRoots(blocks, selfSigned).value, selfSigned)
         == WithoutRoots(blocks, selfSigned)
  {
    if blocks != [] {
      var kept := WithoutRoots(blocks[1..], selfSigned).value;
      WithoutRootsIsSubsequence(blocks[1..], selfSigned);
      if selfSigned(blocks[0]) == Ok(true) {
        SubsequenceOfLonger(kept, blocks);
      } else {
        assert ([blocks[0]] + kept)[1..] == kept;
      }
    }
  }

  lemma {:induction false} SubsequenceOfLonger<T>(xs: seq<T>, ys: seq<T>)
    requires ys != [] && Subsequence(xs, ys[1..])
    ensures Subsequence(xs, ys)
    decreases |ys|, 0
  {
    if xs != [] && xs[0] == ys[0] {
      SubsequenceTail(xs, ys[1..]);
    }
  }

  lemma {:induction false} SubsequenceTail<T>(xs: seq<T>, ys: seq<T>)
    requires xs != [] && Subsequence(xs, ys)
    ensures Subsequence(xs[1..], ys)
    decreases |ys|, 1
  {
    if xs[0] == ys[0] {
      SubsequenceOfLonger(xs[1..], ys);
    } else {
      SubsequenceTail(xs, ys[1..]);
      SubsequenceOfLonger(xs[1..], ys);
    }
  }

  lemma {:induction false} SubsequenceSelf<T>(xs: seq<T>)
    ensures Subsequence(xs, xs)
  {
    if xs != [] {
      SubsequenceSelf(xs[1..]);
    }
  }

  lemma KeptShape(blocks: seq<string>, mode: Mode, selfSigned: Described)
    requires blocks != [] && Kept(blocks, mode, selfSigned).Ok?
    ensures var kept := Kept(blocks, mode, selfSigned).value;
            && kept != [] && kept[0] == blocks[0]
            && Subsequence(kept, blocks)
            && Kept(kept, mode, selfSigned) == Ok(kept)
  {
    var kept := Kept(blocks, mode, selfSigned).value;
    match mode {
      case Leaf => assert kept[1..] == [];
      case NoRoot =>
        WithoutRootsIsSubsequence(blocks[1..], selfSigned);
        assert kept[1..] == WithoutRoots(blocks[1..], selfSigned).value;
      case Full => SubsequenceSelf(blocks);
    }
  }

  /** In each mode trim_chain is idempotent, and what it returns splits into the kept blocks:
      the leaf first, a subsequence of the bundle's. */
  lemma TrimIdempotent(pem: string, mode: Mode, selfSigned: Described)
    requires Trimmed(pem, mode, selfSigned).Ok?
    ensures var trimmed := Trimmed(pem, mode, selfSigned).value;
            && Trimmed(trimmed, mode, selfSigned) == Ok(trimmed)
            && Split(pem).Ok? && Split(trimmed).Ok?
            && var all, kept := Split(pem).value, Split(trimmed).value;
               && Subsequence(kept, all)
               && (all != [] ==> kept != [] && kept[0] == all[0])
  {
    var blocks := Split(pem).value;
    if blocks != [] {
      KeptShape(blocks, mode, selfSigned);
      SplitJoinOfSubsequence(pem, Kept(blocks, mode, selfSigned).value);
    }
  }

  /** The three modes keep successive subsequences: leaf within no_root within full. */
  lemma ModesNest(pem: string, selfSigned: Described)
    requires Trimmed(pem, NoRoot, selfSigned).Ok?
    ensures Trimmed(pem, Leaf, selfSigned).Ok? && Trimmed(pem, Full, selfSigned).Ok?
    ensures var leaf := Split(Trimmed(pem, Leaf, selfSigned).value);
            var noRoot := Split(Trimmed(pem, NoRoot, selfSigned).value);
            var full := Split(Trimmed(pem, Full, selfSigned).value);
            && leaf.Ok? && noRoot.Ok? && full == Split(pem)
            && Subsequence(leaf.value, noRoot.value)
            && Subsequence(noRoot.value, full.value)
  {
    TrimIdempotent(pem, NoRoot, selfSigned);
    TrimIdempotent(pem, Full, selfSigned);
    TrimIdempotent(pem, Leaf, selfSigned);
    var blocks := Split(pem).value;
    if blocks == [] {
    } else {
      KeptShape(blocks, Full, selfSigned);
      SplitJoinOfSubsequence(pem, blocks);
      KeptShape(blocks, NoRoot, selfSigned);
      SplitJoinOfSubsequence(pem, Kept(blocks, NoRoot, selfSigned).value);
      KeptShape(blocks, Leaf, selfSigned);
      SplitJoinOfSubsequence(pem, [blocks[0]]);
      assert [blocks[0]][1..] == [];
    }
  }

  // ── Exactly what is split and kept ──

  /** Every begin marker has an end marker after it. */
  predicate Closed(pem: string) {
    forall i :: 0 <= i <= |pem| && At(pem, i, BEGIN) ==> EndsAfter(pem, i)
  }

  predicate EndsAfter(pem: string, i: nat) {
    exists j :: i <= j <= |pem| && At(pem, j, END)
  }

  /** The begin marker shares dashes with an end marker before it. */
  predicate SharesDashes(pem: string, i: nat) {
    exists e :: 0 <= e < i < e + |END| && At(pem, e, END)
  }

  /** Every begin marker has an end marker after it, or shares its dashes with one. */
  predicate Settled(pem: string) {
    forall i :: 0 <= i <= |pem| && At(pem, i, BEGIN) ==> EndsAfter(pem, i) || SharesDashes(pem, i)
  }

  /** A bundle splits when no begin marker is left without an end; and one that splits leaves at
      most a begin marker whose dashes are those of an end marker, which the split cuts through. */
  lemma {:induction false} SplitsWhenClosed(pem: string)
    ensures Closed(pem) ==> Split(pem).Ok?
    ensures Split(pem).Ok? ==> Settled(pem)
    decreases |pem|
  {
    hide Index, After;
    var start := Index(pem, BEGIN, 0);
    IndexIsFirst(pem, BEGIN, 0);
    if start <= |pem| {
      var end := Index(pem, END, start);
      IndexIsFirst(pem, END, start);
      if end <= |pem| {
        var stop := end + |END|;
        SplitStep(pem, start, end, pem[start..stop], pem[stop..]);
        SplitsWhenClosed(pem[stop..]);
        if Closed(pem) {
          ClosedPast(pem, end);
        }
        if Settled(pem[stop..]) {
          SettledPast(pem, end);
        }
        AfterIsOk([pem[start..stop]], Split(pem[stop..]));
      } else {
        assert !EndsAfter(pem, start);
      }
    }
  }

  lemma AfterIsOk<T>(found: seq<T>, more: Result<seq<T>>)
    ensures After(found, more).Ok? <==> more.Ok?
  {
  }

  lemma AtPast(pem: string, stop: nat, i: nat, part: string)
    requires stop <= |pem| && i <= |pem| - stop
    ensures At(pem[stop..], i, part) <==> At(pem, stop + i, part)
  {
    assert pem[stop..|pem|] == pem[stop..];
    if i + |part| <= |pem| - stop {
      AtWithin(pem, stop, |pem|, i, part);
    }
  }

  lemma ClosedPast(pem: string, end: nat)
    requires end + |END| <= |pem| && Closed(pem)
    ensures Closed(pem[end + |END|..])
  {
    var stop := end + |END|;
    var rest := pem[stop..];
    forall i | 0 <= i <= |rest| && At(rest, i, BEGIN)
      ensures EndsAfter(rest, i)
    {
      AtPast(pem, stop, i, BEGIN);
      assert EndsAfter(pem, stop + i);
      var j :| stop + i <= j <= |pem| && At(pem, j, END);
      AtPast(pem, stop, j - stop, END);
    }
  }

  lemma SettledPast(pem: string, end: nat)
    requires end + |END| <= |pem| && At(pem, end, END) && Settled(pem[end + |END|..])
    ensures Settled(pem)
  {
    var stop := end + |END|;
    var rest := pem[stop..];
    forall i | 0 <= i <= |pem| && At(pem, i, BEGIN)
      ensures EndsAfter(pem, i) || SharesDashes(pem, i)
    {
      if i >= stop {
        AtPast(pem, stop, i - stop, BEGIN);
        if EndsAfter(rest, i - stop) {
          var j :| i - stop <= j <= |rest| && At(rest, j, END);
          AtPast(pem, stop, j, END);
          assert At(pem, stop + j, END);
        } else {
          var e :| 0 <= e < i - stop < e + |END| && At(rest, e, END);
          AtPast(pem, stop, e, END);
          assert At(pem, stop + e, END);
        }
      }
    }
  }

  /** What no_root keeps: the leaf, and then every later block that is not self-signed, as often as
      it occurs and in order, and no other. Only a later block that cannot be described raises. */
  lemma NoRootKeepsExactly(pem: string, selfSigned: Described)
    requires Split(pem).Ok? && Split(pem).value != []
    ensures var all, trimmed := Split(pem).value, Trimmed(pem, NoRoot, selfSigned);
            && (trimmed.Ok? <==> forall i :: 1 <= i < |all| ==> selfSigned(all[i]).Ok?)
            && (trimmed.Ok? ==>
                  && Split(trimmed.value).Ok?
                  && var kept := Split(trimmed.value).value;
                     && kept != [] && kept[0] == all[0] && Subsequence(kept[1..], all[1..])
                     && forall b :: multiset(kept[1..])[b]
                                 == if selfSigned(b) == Ok(true) then 0 else multiset(all[1..])[b])
  {
    var all := Split(pem).value;
    WithoutRootsCounts(all[1..], selfSigned);
    if Trimmed(pem, NoRoot, selfSigned).Ok? {
      var kept := Kept(all, NoRoot, selfSigned).value;
      KeptShape(all, NoRoot, selfSigned);
      SplitJoinOfSubsequence(pem, kept);
      WithoutRootsIsSubsequence(all[1..], selfSigned);
      assert kept[1..] == WithoutRoots(all[1..], selfSigned).value;
    }
  }

  lemma {:induction false} WithoutRootsCounts(blocks: seq<string>, selfSigned: Described)
    ensures var kept := WithoutRoots(blocks, selfSigned);
            && (kept.Ok? <==> forall i :: 0 <= i < |blocks| ==> selfSigned(blocks[i]).Ok?)
            && (kept.Ok? ==>
                  forall b :: multiset(kept.value)[b]
                           == if selfSigned(b) == Ok(true) then 0 else multiset(blocks)[b])
  {
    if blocks != [] {
      WithoutRootsCounts(blocks[1..], selfSigned);
      assert blocks == [blocks[0]] + blocks[1..];
      assert forall i :: 1 <= i < |blocks| ==> blocks[i] == blocks[1..][i - 1];
    }
  }

  /** The other modes raise only where the bundle does not split, and return the leaf or all. */
  lemma OtherModesKeep(pem: string, selfSigned: Described)
    ensures Trimmed(pem, Leaf, selfSigned).Ok? <==> Split(pem).Ok?
    ensures Trimmed(pem, Full, selfSigned).Ok? <==> Split(pem).Ok?
    ensures Split(pem).Ok? && Split(pem).value != [] ==>
              && Trimmed(pem, Leaf, selfSigned) == Ok(Split(pem).value[0])
              && Split(Trimmed(pem, Full, selfSigned).value) == Split(pem)
    ensures Split(pem) == Ok([]) ==> forall mode :: Trimmed(pem, mode, selfSigned) == Ok(pem)
  {
    hide Split;
    if Split(pem).Ok? && Split(pem).value != [] {
      SubsequenceSelf(Split(pem).value);
      SplitJoinOfSubsequence(pem, Split(pem).value);
      var leaf := Split(pem).value[0];
      assert [leaf][1..] == [] && JoinTail([leaf][1..]) == "" && leaf + "" == leaf;
      assert Join([leaf]) == leaf;
    }
  }
}
