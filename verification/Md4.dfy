/** MD4: the rotating-register loops of teap_tester/mschapv2.py against the 48 in-place
    operations of RFC 1320. */
module Md4 {
  import opened Bytes

  const MOD := 0x1_0000_0000

  type Word = w: int | 0 <= w < MOD

  // ── Bitwise operations on the low `bits` bits ──

  function And(x: nat, y: nat, bits: nat): nat {
    if bits == 0 then 0 else x % 2 * (y % 2) + 2 * And(x / 2, y / 2, bits - 1)
  }

  function Or(x: nat, y: nat, bits: nat): nat {
    if bits == 0 then 0 else Max(x % 2, y % 2) + 2 * Or(x / 2, y / 2, bits - 1)
  }

  function Xor(x: nat, y: nat, bits: nat): nat {
    if bits == 0 then 0 else (x + y) % 2 + 2 * Xor(x / 2, y / 2, bits - 1)
  }

  function Not(x: Word): Word { MOD - 1 - x }

  function ShiftLeft(x: nat, n: nat): nat
    decreases n
  {
    if n == 0 then x else ShiftLeft(2 * x, n - 1)
  }

  // ── Round functions, shared by both forms ──

  /** ((x << n) | (x >> (32 - n))) of x's low 32 bits, itself cut to 32 bits. */
  function RotateLeft(x: nat, n: nat): Word
    requires 0 < n < 32
  {
    var w := x % MOD;
    Or(ShiftLeft(w, n) % MOD, ShiftRight(w, 32 - n), 32) % MOD
  }

  function F(b: Word, c: Word, d: Word): nat { Or(And(b, c, 32), And(Not(b), d, 32), 32) }

  function G(b: Word, c: Word, d: Word): nat {
    Or(Or(And(b, c, 32), And(b, d, 32), 32), And(c, d, 32), 32)
  }

  function H(b: Word, c: Word, d: Word): nat { Xor(Xor(b, c, 32), d, 32) }

  type Block = x: seq<Word> | |x| == 16 witness seq(16, i => 0)

  /** (a + f(b, c, d) + X[k] + constant) <<< s, of round 1, 2 or 3. */
  function Mix(round: nat, a: Word, b: Word, c: Word, d: Word, xk: Word, s: nat): Word
    requires 1 <= round <= 3 && 0 < s < 32
  {
    if round == 1 then RotateLeft(a + F(b, c, d) + xk, s)
    else if round == 2 then RotateLeft(a + G(b, c, d) + xk + 0x5A827999, s)
    else RotateLeft(a + H(b, c, d) + xk + 0x6ED9EBA1, s)
  }

  // ── Section 3.4 of RFC 1320 ──

  datatype Register = A | B | C | D

  datatype Registers = Registers(a: Word, b: Word, c: Word, d: Word) {
    function Get(r: Register): Word {
      match r case A => a case B => b case C => c case D => d
    }

    function Set(r: Register, w: Word): Registers {
      match r
      case A => this.(a := w)
      case B => this.(b := w)
      case C => this.(c := w)
      case D => this.(d := w)
    }

    function Plus(o: Registers): Registers {
      Registers((a + o.a) % MOD, (b + o.b) % MOD, (c + o.c) % MOD, (d + o.d) % MOD)
    }
  }

  /** [wxyz k s] of the RFC's tables: w = (w + f(x, y, z) + X[k] ...) <<< s */
  datatype Op = Op(w: Register, x: Register, y: Register, z: Register, k: nat, s: nat)

  const ROUND1: seq<Op> := [
    Op(A, B, C, D,  0,  3), Op(D, A, B, C,  1,  7), Op(C, D, A, B,  2, 11), Op(B, C, D, A,  3, 19),
    Op(A, B, C, D,  4,  3), Op(D, A, B, C,  5,  7), Op(C, D, A, B,  6, 11), Op(B, C, D, A,  7, 19),
    Op(A, B, C, D,  8,  3), Op(D, A, B, C,  9,  7), Op(C, D, A, B, 10, 11), Op(B, C, D, A, 11, 19),
    Op(A, B, C, D, 12,  3), Op(D, A, B, C, 13,  7), Op(C, D, A, B, 14, 11), Op(B, C, D, A, 15, 19)]

  const ROUND2: seq<Op> := [
    Op(A, B, C, D,  0,  3), Op(D, A, B, C,  4,  5), Op(C, D, A, B,  8,  9), Op(B, C, D, A, 12, 13),
    Op(A, B, C, D,  1,  3), Op(D, A, B, C,  5,  5), Op(C, D, A, B,  9,  9), Op(B, C, D, A, 13, 13),
    Op(A, B, C, D,  2,  3), Op(D, A, B, C,  6,  5), Op(C, D, A, B, 10,  9), Op(B, C, D, A, 14, 13),
    Op(A, B, C, D,  3,  3), Op(D, A, B, C,  7,  5), Op(C, D, A, B, 11,  9), Op(B, C, D, A, 15, 13)]

  const ROUND3: seq<Op> := [
    Op(A, B, C, D,  0,  3), Op(D, A, B, C,  8,  9), Op(C, D, A, B,  4, 11), Op(B, C, D, A, 12, 15),
    Op(A, B, C, D,  2,  3), Op(D, A, B, C, 10,  9), Op(C, D, A, B,  6, 11), Op(B, C, D, A, 14, 15),
    Op(A, B, C, D,  1,  3), Op(D, A, B, C,  9,  9), Op(C, D, A, B,  5, 11), Op(B, C, D, A, 13, 15),
    Op(A, B, C, D,  3,  3), Op(D, A, B, C, 11,  9), Op(C, D, A, B,  7, 11), Op(B, C, D, A, 15, 15)]

  function Table(round: nat): (ops: seq<Op>)
    requires 1 <= round <= 3
    ensures |ops| == 16
    ensures forall i :: 0 <= i < 16 ==> ops[i].k < 16 && 0 < ops[i].s < 32
  {
    if round == 1 then ROUND1 else if round == 2 then ROUND2 else ROUND3
  }

  function Perform(round: nat, op: Op, x: Block, r: Registers): Registers
    requires 1 <= round <= 3 && op.k < 16 && 0 < op.s < 32
  {
    r.Set(op.w, Mix(round, r.Get(op.w), r.Get(op.x), r.Get(op.y), r.Get(op.z), x[op.k], op.s))
  }

  /** The first n operations of a round. */
  function Operations(round: nat, n: nat, x: Block, r: Registers): Registers
    requires 1 <= round <= 3 && n <= 16
  {
    if n == 0 then r
    else Perform(round, Table(round)[n - 1], x, Operations(round, n - 1, x, r))
  }

  /** The first n rounds. */
  function Rounds(n: nat, x: Block, r: Registers): Registers
    requires n <= 3
  {
    if n == 0 then r else Operations(n, |x|, x, Rounds(n - 1, x, r))
  }

  const ROUNDS: nat := 3

  function ProcessBlock(x: Block, r: Registers): Registers {
    r.Plus(Rounds(ROUNDS, x, r))
  }

  const INITIAL := Registers(0x67452301, 0xEFCDAB89, 0x98BADCFE, 0x10325476)

  // ── Words and padding ──

  /** A little-endian word. */
  function WordAt(m: bytes, at: nat): Word
    requires at + 4 <= |m|
  {
    m[at] as int + 0x100 * m[at + 1] as int + 0x1_0000 * m[at + 2] as int
      + 0x100_0000 * m[at + 3] as int
  }

  function BlockAt(m: bytes, at: nat): Block
    requires at + 64 <= |m|
  {
    seq(16, i requires 0 <= i < 16 => WordAt(m, at + 4 * i))
  }

  /** n in `width` octets, least significant first. */
  function LittleEndian(n: nat, width: nat): (r: bytes)
    ensures |r| == width
  {
    if width == 0 then [] else [n % 0x100] + LittleEndian(n / 0x100, width - 1)
  }

  /** How many zeros take a length of n to 56 modulo 64. */
  function ZerosAfter(n: nat): (z: nat)
    ensures (n + z) % 64 == 56
    ensures z < 64
  {
    (120 - n % 64) % 64
  }

  lemma WholeBlocks(n: nat, total: nat)
    requires n % 64 == 56 && total == n + 8
    ensures total % 64 == 0
  {
    var q := n / 64;
    assert total == 64 * (q + 1);
  }

  const LENGTH_OCTETS: nat := 8

  /** The length in bits, modulo 2^64, in eight octets. */
  function LengthField(n: nat): (r: bytes)
    ensures |r| == 8
  {
    LittleEndian(n * 8 % 0x1_0000_0000_0000_0000, LENGTH_OCTETS)
  }

  /** Section 3.1 and 3.2: a one bit, zeros to 56 modulo 64, and the length in bits. */
  function Padded(data: bytes): (r: bytes)
    ensures |r| % 64 == 0
  {
    var zeros := ZerosAfter(|data| + 1);
    var r := data + [0x80] + Zeros(zeros) + LengthField(|data|);
    WholeBlocks(|data| + 1 + zeros, |r|);
    r
  }

  /** The registers after the first n blocks of m. */
  function Blocks(m: bytes, n: nat): Registers
    requires 64 * n <= |m|
  {
    if n == 0 then INITIAL else ProcessBlock(BlockAt(m, 64 * (n - 1)), Blocks(m, n - 1))
  }

  /** Section 3.5: the four registers, low octets first. */
  function Output(r: Registers): bytes {
    LittleEndian(r.a, 4) + LittleEndian(r.b, 4) + LittleEndian(r.c, 4) + LittleEndian(r.d, 4)
  }

  /** The MD4 digest of RFC 1320. */
  function Rfc1320(data: bytes): bytes {
    var m := Padded(data);
    Output(Blocks(m, |m| / 64))
  }

  // ── The source's form ──

  /** Four registers after i rotations of the tuple: where the source's a, b, c, d stand. */
  predicate Aligned(a: Word, b: Word, c: Word, d: Word, i: nat, r: Registers) {
    if i % 4 == 0 then r == Registers(a, b, c, d)
    else if i % 4 == 1 then r == Registers(b, c, d, a)
    else if i % 4 == 2 then r == Registers(c, d, a, b)
    else r == Registers(d, a, b, c)
  }

  const K2: seq<nat> := [0, 4, 8, 12, 1, 5, 9, 13, 2, 6, 10, 14, 3, 7, 11, 15]
  const K3: seq<nat> := [0, 8, 4, 12, 2, 10, 6, 14, 1, 9, 5, 13, 3, 11, 7, 15]

  /** The source's word index and shift of step i. */
  function Index(round: nat, i: nat): (k: nat)
    requires 1 <= round <= 3 && i < 16
    ensures k < 16
  {
    if round == 1 then i else if round == 2 then K2[i] else K3[i]
  }

  function Shift(round: nat, i: nat): (s: nat)
    requires 1 <= round <= 3
    ensures 0 < s < 32
  {
    if round == 1 then [3, 7, 11, 19][i % 4]
    else if round == 2 then [3, 5, 9, 13][i % 4]
    else [3, 9, 11, 15][i % 4]
  }

  /** The source's tables are the RFC's, and step i writes the register that the rotated tuple
      calls a. */
  lemma TablesAgree(round: nat, i: nat)
    requires 1 <= round <= 3 && i < 16
    ensures Named(round, Table(round)[i], i)
  {
    if round == 1 {
      Round1Agrees(i);
    } else if round == 2 {
      Round2Agrees(i);
    } else {
      Round3Agrees(i);
    }
  }

  predicate Named(round: nat, op: Op, i: nat)
    requires 1 <= round <= 3 && i < 16
  {
    && op.k == Index(round, i) && op.s == Shift(round, i)
    && op.w == [A, D, C, B][i % 4] && op.x == [B, A, D, C][i % 4]
    && op.y == [C, B, A, D][i % 4] && op.z == [D, C, B, A][i % 4]
  }

  lemma Round1Agrees(i: nat)
    requires i < 16
    ensures Named(1, ROUND1[i], i)
  {
  }

  lemma Round2Agrees(i: nat)
    requires i < 16
    ensures Named(2, ROUND2[i], i)
  {
  }

  lemma Round3Agrees(i: nat)
    requires i < 16
    ensures Named(3, ROUND3[i], i)
  {
  }

  lemma StepAligned(round: nat, i: nat, x: Block, a: Word, b: Word, c: Word, d: Word,
                    r: Registers)
    requires 1 <= round <= 3 && i < 16 && Aligned(a, b, c, d, i, r)
    ensures Aligned(d, Mix(round, a, b, c, d, x[Index(round, i)], Shift(round, i)), b, c, i + 1,
                    Perform(round, Table(round)[i], x, r))
  {
    TablesAgree(round, i);
    var m := Mix(round, a, b, c, d, x[Index(round, i)], Shift(round, i));
    RotateAligned(i, a, b, c, d, m, r);
  }

  /** Writing the register called a and rotating the tuple keep the two forms in step. */
  lemma RotateAligned(i: nat, a: Word, b: Word, c: Word, d: Word, m: Word, r: Registers)
    requires Aligned(a, b, c, d, i, r)
    ensures Aligned(d, m, b, c, i + 1, r.Set([A, D, C, B][i % 4], m))
    ensures r.Get([A, D, C, B][i % 4]) == a && r.Get([B, A, D, C][i % 4]) == b
    ensures r.Get([C, B, A, D][i % 4]) == c && r.Get([D, C, B, A][i % 4]) == d
  {
  }

  lemma NoOperations(round: nat, x: Block, r: Registers)
    requires 1 <= round <= 3
    ensures Operations(round, 0, x, r) == r
  {
  }

  lemma NextOperation(round: nat, i: nat, x: Block, r: Registers)
    requires 1 <= round <= 3 && i < 16
    ensures Operations(round, i + 1, x, r)
         == Perform(round, Table(round)[i], x, Operations(round, i, x, r))
  {
  }

  method Round(round: nat, x: Block, a0: Word, b0: Word, c0: Word, d0: Word)
    returns (a: Word, b: Word, c: Word, d: Word)
    requires 1 <= round <= 3
    ensures Registers(a, b, c, d) == Operations(round, |x|, x, Registers(a0, b0, c0, d0))
  {
    hide Operations, Perform, Mix;
    a, b, c, d := a0, b0, c0, d0;
    ghost var r0 := Registers(a0, b0, c0, d0);
    NoOperations(round, x, r0);
    for i := 0 to |x|
      invariant Aligned(a, b, c, d, i, Operations(round, i, x, r0))
    {
      NextOperation(round, i, x, r0);
      StepAligned(round, i, x, a, b, c, d, Operations(round, i, x, r0));
      var k, s := Index(round, i), Shift(round, i);
      a, b, c, d := d, Mix(round, a, b, c, d, x[k], s), b, c;
    }
  }

  lemma OneMoreZero(n: nat)
    requires n % 64 != 56
    ensures ZerosAfter(n) == 1 + ZerosAfter(n + 1)
  {
    var q, m := n / 64, n % 64;
    if m == 63 {
      assert n + 1 == 64 * (q + 1);
    } else {
      assert n + 1 == 64 * q + (m + 1);
      ModuloOf(q, m + 1);
    }
  }

  lemma ModuloOf(q: nat, m: nat)
    requires m < 64
    ensures (64 * q + m) % 64 == m
  {
  }

  method Pad(data: bytes) returns (msg: bytes)
    ensures msg == Padded(data)
  {
    msg := data + [0x80];
    ghost var zeros := 0;
    while |msg| % 64 != 56
      invariant msg == data + [0x80] + Zeros(zeros)
      invariant zeros + ZerosAfter(|data| + 1 + zeros) == ZerosAfter(|data| + 1)
      decreases ZerosAfter(|msg|)
    {
      OneMoreZero(|msg|);
      msg := msg + [0];
      assert Zeros(zeros + 1) == Zeros(zeros) + [0];
      zeros := zeros + 1;
    }
    assert ZerosAfter(|msg|) == 0;
    msg := msg + LengthField(|data|);
  }

  lemma NoBlocks(m: bytes)
    ensures Blocks(m, 0) == INITIAL
  {
  }

  lemma NextBlock(m: bytes, n: nat)
    requires 64 * (n + 1) <= |m|
    ensures Blocks(m, n + 1) == ProcessBlock(BlockAt(m, 64 * n), Blocks(m, n))
  {
  }

  /** The loop over 64-octet blocks. */
  method AllBlocks(msg: bytes, ghost blocks: nat) returns (h: Registers)
    requires |msg| == 64 * blocks
    ensures h == Blocks(msg, blocks)
  {
    hide Blocks, ProcessBlock, BlockAt;
    h := INITIAL;
    NoBlocks(msg);
    var offset := 0;
    ghost var n := 0;
    while offset < |msg|
      invariant offset == 64 * n && n <= blocks
      invariant h == Blocks(msg, n)
    {
      NextBlock(msg, n);
      var x := BlockAt(msg, offset);
      h := OneBlock(x, h);
      offset := offset + 64;
      n := n + 1;
    }
  }

  /** md4: for every message the rotating tuple computes the digest of RFC 1320. */
  method Digest(data: bytes) returns (digest: bytes)
    ensures digest == Rfc1320(data)
  {
    var msg := Pad(data);
    var h := AllBlocks(msg, |msg| / 64);
    return Output(h);
  }

  method OneBlock(x: Block, h: Registers) returns (r: Registers)
    ensures r == ProcessBlock(x, h)
  {
    var a, b, c, d := h.a, h.b, h.c, h.d;
    for n := 0 to ROUNDS
      invariant Registers(a, b, c, d) == Rounds(n, x, h)
    {
      a, b, c, d := Round(n + 1, x, a, b, c, d);
    }
    r := h.Plus(Registers(a, b, c, d));
  }

  /** The number little-endian octets write. */
  function Value(b: bytes): nat {
    if b == [] then 0 else b[0] + 0x100 * Value(b[1..])
  }

  lemma {:induction false} ValueRoundTrip(n: nat, width: nat)
    requires n < Pow256(width)
    ensures Value(LittleEndian(n, width)) == n
  {
    if width > 0 {
      assert LittleEndian(n, width)[1..] == LittleEndian(n / 0x100, width - 1);
      ValueRoundTrip(n / 0x100, width - 1);
    }
  }

  function Pow256(n: nat): nat { if n == 0 then 1 else 0x100 * Pow256(n - 1) }

  lemma EightOctets()
    ensures Pow256(LENGTH_OCTETS) == 0x1_0000_0000_0000_0000
  {
    assert Pow256(8) == 0x1_0000_0000_0000_0000;
  }

  lemma LengthReadsBack(n: nat, width: nat)
    requires n < 0x2000_0000_0000_0000 && Pow256(width) == 0x1_0000_0000_0000_0000
    ensures Value(LittleEndian(n * 8 % 0x1_0000_0000_0000_0000, width)) == 8 * n
  {
    var bits := n * 8;
    assert bits % 0x1_0000_0000_0000_0000 == bits;
    ValueRoundTrip(bits, width);
  }

  /** Below 2^61 octets the length field gives the length back. */
  lemma LengthReads(n: nat)
    requires n < 0x2000_0000_0000_0000
    ensures Value(LengthField(n)) == 8 * n
  {
    EightOctets();
    LengthReadsBack(n, LENGTH_OCTETS);
  }

  /** Two messages below 2^61 octets that pad to the same octets are the same message. */
  lemma PaddingInjective(x: bytes, y: bytes)
    requires |x| < 0x2000_0000_0000_0000 && |y| < 0x2000_0000_0000_0000
    ensures Padded(x) == Padded(y) ==> x == y
  {
    if Padded(x) == Padded(y) {
      var p := Padded(x);
      assert LengthField(|x|) == LengthField(|y|) by {
        assert p[|p| - 8..] == LengthField(|x|);
        assert p[|p| - 8..] == LengthField(|y|);
      }
      LengthReads(|x|);
      LengthReads(|y|);
      assert p[..|x|] == x && p[..|y|] == y;
    }
  }
}
