/** The words of MD4 bit by bit, and its constants: sections 2 and 3 of RFC 1320. */
module Md4Bits {
  import opened Bytes
  import opened Md4

  function Pow2(n: nat): (r: nat)
    ensures r >= 1
  {
    if n == 0 then 1 else 2 * Pow2(n - 1)
  }

  /** Bit i of x, the least significant first. */
  function Bit(x: nat, i: nat): (b: nat)
    ensures b < 2
  {
    if i == 0 then x % 2 else Bit(x / 2, i - 1)
  }

  // ── Bitwise operations ──

  lemma {:induction false} AndBits(x: nat, y: nat, bits: nat, i: nat)
    requires i < bits
    ensures Bit(And(x, y, bits), i) == if Bit(x, i) == 1 && Bit(y, i) == 1 then 1 else 0
  {
    var rest := And(x / 2, y / 2, bits - 1);
    Halves(x % 2 * (y % 2), rest);
    if i > 0 {
      AndBits(x / 2, y / 2, bits - 1, i - 1);
    }
  }

  lemma {:induction false} OrBits(x: nat, y: nat, bits: nat, i: nat)
    requires i < bits
    ensures Bit(Or(x, y, bits), i) == if Bit(x, i) == 1 || Bit(y, i) == 1 then 1 else 0
  {
    var rest := Or(x / 2, y / 2, bits - 1);
    Halves(Max(x % 2, y % 2), rest);
    if i > 0 {
      OrBits(x / 2, y / 2, bits - 1, i - 1);
    }
  }

  lemma {:induction false} XorBits(x: nat, y: nat, bits: nat, i: nat)
    requires i < bits
    ensures Bit(Xor(x, y, bits), i) == if Bit(x, i) != Bit(y, i) then 1 else 0
  {
    var rest := Xor(x / 2, y / 2, bits - 1);
    Halves((x + y) % 2, rest);
    if i > 0 {
      XorBits(x / 2, y / 2, bits - 1, i - 1);
    }
  }

  lemma Halves(b: nat, rest: nat)
    requires b < 2
    ensures (b + 2 * rest) % 2 == b && (b + 2 * rest) / 2 == rest
  {
  }

  lemma {:induction false} NotBits(x: nat, bits: nat, i: nat)
    requires x < Pow2(bits) && i < bits
    ensures Bit(Pow2(bits) - 1 - x, i) == 1 - Bit(x, i)
  {
    var y := Pow2(bits) - 1 - x;
    assert y == (1 - x % 2) + 2 * (Pow2(bits - 1) - 1 - x / 2);
    Halves(1 - x % 2, Pow2(bits - 1) - 1 - x / 2);
    if i > 0 {
      NotBits(x / 2, bits - 1, i - 1);
    }
  }

  lemma WordSize()
    ensures Pow2(32) == MOD
  {
    assert Pow2(8) == 0x100;
    assert Pow2(16) == 0x1_0000 by { Pow2Sum(8, 8); }
    Pow2Sum(16, 16);
  }

  lemma {:induction false} Pow2Sum(m: nat, n: nat)
    ensures Pow2(m + n) == Pow2(m) * Pow2(n)
  {
    if m > 0 {
      Pow2Sum(m - 1, n);
    }
  }

  lemma {:induction false} Below(x: nat, y: nat, bits: nat)
    ensures And(x, y, bits) < Pow2(bits) && Or(x, y, bits) < Pow2(bits) && Xor(x, y, bits) < Pow2(bits)
  {
    if bits > 0 {
      Below(x / 2, y / 2, bits - 1);
    }
  }

  /** Section 3.4: F chooses between its last two arguments by the first, G is the majority, and H
      the parity, each bit for itself. */
  predicate Mixes(round: nat, f: nat, b: Word, c: Word, d: Word, i: nat)
    requires 1 <= round <= 3
  {
    Bit(f, i) ==
    if round == 1 then (if Bit(b, i) == 1 then Bit(c, i) else Bit(d, i))
    else if round == 2 then (if Bit(b, i) + Bit(c, i) + Bit(d, i) >= 2 then 1 else 0)
    else (Bit(b, i) + Bit(c, i) + Bit(d, i)) % 2
  }

  lemma FBits(b: Word, c: Word, d: Word, i: nat)
    requires i < 32
    ensures Mixes(1, F(b, c, d), b, c, d, i)
  {
    hide And, Or, Bit;
    WordSize();
    NotBits(b, 32, i);
    AndBits(b, c, 32, i);
    AndBits(Not(b), d, 32, i);
    OrBits(And(b, c, 32), And(Not(b), d, 32), 32, i);
  }

  lemma GBits(b: Word, c: Word, d: Word, i: nat)
    requires i < 32
    ensures Mixes(2, G(b, c, d), b, c, d, i)
  {
    hide And, Or, Bit;
    AndBits(b, c, 32, i);
    AndBits(b, d, 32, i);
    AndBits(c, d, 32, i);
    OrBits(And(b, c, 32), And(b, d, 32), 32, i);
    OrBits(Or(And(b, c, 32), And(b, d, 32), 32), And(c, d, 32), 32, i);
  }

  lemma HBits(b: Word, c: Word, d: Word, i: nat)
    requires i < 32
    ensures Mixes(3, H(b, c, d), b, c, d, i)
  {
    hide Xor, Bit;
    XorBits(b, c, 32, i);
    XorBits(Xor(b, c, 32), d, 32, i);
  }

  // ── Rotation ──

  lemma {:induction false} ShiftRightBits(x: nat, n: nat, j: nat)
    ensures Bit(ShiftRight(x, n), j) == Bit(x, n + j)
  {
    if n > 0 {
      ShiftRightBits(x / 2, n - 1, j);
    }
  }

  lemma {:induction false} ShiftLeftBits(x: nat, n: nat, j: nat)
    ensures Bit(ShiftLeft(x, n), j) == if j < n then 0 else Bit(x, j - n)
    decreases n
  {
    if n > 0 {
      ShiftLeftBits(2 * x, n - 1, j);
      Halves(0, x);
    }
  }

  lemma {:induction false} LowBits(x: nat, k: nat, j: nat)
    requires j < k
    ensures Bit(x % Pow2(k), j) == Bit(x, j)
  {
    var low := x / 2 % Pow2(k - 1);
    HalfOfRemainder(x, Pow2(k - 1));
    Halves(x % 2, low);
    if j > 0 {
      LowBits(x / 2, k - 1, j - 1);
    }
  }

  lemma HalfOfRemainder(x: nat, m: nat)
    requires m >= 1
    ensures x % (2 * m) == x % 2 + 2 * (x / 2 % m)
  {
    var q := x / 2;
    var t, r := q / m, q % m;
    assert q == m * t + r;
    assert x == 2 * m * t + (x % 2 + 2 * r);
    RemainderIs(x, 2 * m, t, x % 2 + 2 * r);
  }

  lemma RemainderIs(x: nat, m: nat, t: nat, r: nat)
    requires r < m && x == m * t + r
    ensures x % m == r
  {
    var d := x / m;
    assert x == m * d + x % m;
    assert m * (d - t) == r - x % m;
    Multiples(m, d - t);
  }

  lemma Multiples(m: nat, k: int)
    ensures k >= 1 ==> m * k >= m
    ensures k <= -1 ==> m * k + m <= 0
  {
  }

  lemma {:induction false} HighBits(x: nat, k: nat, j: nat)
    requires x < Pow2(k) && k <= j
    ensures Bit(x, j) == 0
  {
    if k > 0 {
      HighBits(x / 2, k - 1, j - 1);
    } else if j > 0 {
      HighBits(0, 0, j - 1);
    }
  }

  /** A rotation to the left moves bit i of the low 32 to place i + n, modulo 32. */
  lemma RotateBits(x: nat, n: nat, i: nat)
    requires 0 < n < 32 && i < 32
    ensures Bit(RotateLeft(x, n), (i + n) % 32) == Bit(x, i)
  {
    hide Bit, Or, ShiftLeft, ShiftRight, Pow2;
    var w, j := x % MOD, (i + n) % 32;
    var left, right := ShiftLeft(w, n) % MOD, ShiftRight(w, 32 - n);
    WordSize();
    LowBits(x, 32, i);
    LowBits(ShiftLeft(w, n), 32, j);
    ShiftLeftBits(w, n, j);
    ShiftRightBits(w, 32 - n, j);
    OrBits(left, right, 32, j);
    LowBits(Or(left, right, 32), 32, j);
    if i + n < 32 {
      HighBits(w, 32, 32 - n + j);
    }
  }

  // ── One operation ──

  const ADDENDS: seq<nat> := [0, 0x5A827999, 0x6ED9EBA1]

  /** The addends of rounds 2 and 3 are the integer parts of 2^30 times the square roots of 2 and
      of 3. */
  lemma AddendsAreRoots()
    ensures ADDENDS[0] == 0
    ensures ADDENDS[1] * ADDENDS[1] <= 2 * 0x1000_0000_0000_0000 < (ADDENDS[1] + 1) * (ADDENDS[1] + 1)
    ensures ADDENDS[2] * ADDENDS[2] <= 3 * 0x1000_0000_0000_0000 < (ADDENDS[2] + 1) * (ADDENDS[2] + 1)
  {
  }

  lemma {:induction false} BitsDetermine(x: nat, y: nat, k: nat)
    requires x < Pow2(k) && y < Pow2(k) && forall i :: 0 <= i < k ==> Bit(x, i) == Bit(y, i)
    ensures x == y
  {
    if k > 0 {
      forall i | 0 <= i < k - 1
        ensures Bit(x / 2, i) == Bit(y / 2, i)
      {
        assert Bit(x, i + 1) == Bit(y, i + 1);
      }
      BitsDetermine(x / 2, y / 2, k - 1);
      assert Bit(x, 0) == Bit(y, 0);
    }
  }

  /** Section 3.4: an operation adds to a the mixture of b, c and d, a word of the block and the
      round's addend, modulo 2^32, and rotates the sum to the left by s. */
  lemma OperationIs(round: nat, a: Word, b: Word, c: Word, d: Word, xk: Word, s: nat, f: Word, i: nat)
    requires 1 <= round <= 3 && 0 < s < 32 && i < 32
    requires forall k :: 0 <= k < 32 ==> Mixes(round, f, b, c, d, k)
    ensures Bit(Mix(round, a, b, c, d, xk, s), (i + s) % 32)
         == Bit((a + f + xk + ADDENDS[round - 1]) % MOD, i)
  {
    hide F, G, H, RotateLeft, Bit, Pow2;
    var g := if round == 1 then F(b, c, d) else if round == 2 then G(b, c, d) else H(b, c, d);
    MixtureIs(round, b, c, d, f);
    assert g == f;
    WordSize();
    RotateBits(a + f + xk + ADDENDS[round - 1], s, i);
    LowBits(a + f + xk + ADDENDS[round - 1], 32, i);
  }

  lemma MixtureIs(round: nat, b: Word, c: Word, d: Word, f: Word)
    requires 1 <= round <= 3
    requires forall k :: 0 <= k < 32 ==> Mixes(round, f, b, c, d, k)
    ensures f == if round == 1 then F(b, c, d) else if round == 2 then G(b, c, d) else H(b, c, d)
  {
    hide And, Or, Xor, Bit, Pow2;
    var g := if round == 1 then F(b, c, d) else if round == 2 then G(b, c, d) else H(b, c, d);
    WordSize();
    Below(And(b, c, 32), And(Not(b), d, 32), 32);
    Below(Or(And(b, c, 32), And(b, d, 32), 32), And(c, d, 32), 32);
    Below(Xor(b, c, 32), d, 32);
    forall k | 0 <= k < 32
      ensures Bit(f, k) == Bit(g, k)
    {
      assert Mixes(round, f, b, c, d, k);
      FBits(b, c, d, k);
      GBits(b, c, d, k);
      HBits(b, c, d, k);
    }
    BitsDetermine(f, g, 32);
  }

  // ── The rest of the digest ──

  /** Section 3.3: the registers start as 01 23 45 67, 89 ab cd ef, fe dc ba 98, 76 54 32 10, low
      octets first. */
  lemma RegistersStart()
    ensures Output(INITIAL) == [0x01, 0x23, 0x45, 0x67, 0x89, 0xAB, 0xCD, 0xEF,
                                0xFE, 0xDC, 0xBA, 0x98, 0x76, 0x54, 0x32, 0x10]
  {
    hide LittleEndian;
    Four(INITIAL.a, [0x01, 0x23, 0x45, 0x67]);
    Four(INITIAL.b, [0x89, 0xAB, 0xCD, 0xEF]);
    Four(INITIAL.c, [0xFE, 0xDC, 0xBA, 0x98]);
    Four(INITIAL.d, [0x76, 0x54, 0x32, 0x10]);
  }

  lemma Four(w: nat, b: bytes)
    requires |b| == 4
    requires w == b[0] as int + 0x100 * (b[1] as int + 0x100 * (b[2] as int + 0x100 * b[3] as int))
    ensures LittleEndian(w, 4) == b
  {
    var tail := b[2] as int + 0x100 * b[3] as int;
    LowOctet(b[0], b[1] as int + 0x100 * tail, 3);
    LowOctet(b[1], tail, 2);
    LowOctet(b[2], b[3], 1);
    LowOctet(b[3], 0, 0);
    assert LittleEndian(0, 0) == [];
  }

  lemma LowOctet(low: byte, rest: nat, width: nat)
    ensures LittleEndian(low + 0x100 * rest, width + 1) == [low] + LittleEndian(rest, width)
  {
  }

  /** Words are read low octets first, sixteen to a block. */
  lemma WordsRead(m: bytes, at: nat, i: nat)
    requires at + 64 <= |m| && i < 16
    ensures BlockAt(m, at)[i] == Value(m[at + 4 * i..at + 4 * i + 4])
  {
    var b := m[at + 4 * i..at + 4 * i + 4];
    assert b[1..][1..] == b[2..] && b[2..][1..] == b[3..] && b[3..][1..] == [];
    assert Value(b) == b[0] + 0x100 * Value(b[1..]);
    assert Value(b[1..]) == b[1] + 0x100 * Value(b[2..]);
    assert Value(b[2..]) == b[2] + 0x100 * Value(b[3..]);
    assert Value(b[3..]) == b[3] + 0x100 * Value([]);
  }

  /** Sections 3.1 and 3.2: the message, a one bit and fewer than 64 zero octets that bring it to 8
      below a multiple of 64, and its length in bits modulo 2^64, low octets first. */
  lemma PaddedReads(data: bytes)
    ensures var m, n := Padded(data), |data|;
            && n + 9 <= |m| < n + 9 + 64 && |m| % 64 == 0
            && m[..n] == data && m[n] == 0x80
            && (forall i :: n < i < |m| - 8 ==> m[i] == 0)
            && Value(m[|m| - 8..]) == 8 * n % 0x1_0000_0000_0000_0000
  {
    hide LittleEndian, Value;
    var m, n := Padded(data), |data|;
    var field := LengthField(n);
    FieldReads(n);
    assert m == data + [0x80] + Zeros(ZerosAfter(n + 1)) + field;
    assert m[|m| - 8..] == field;
  }

  lemma FieldReads(n: nat)
    ensures Value(LengthField(n)) == 8 * n % 0x1_0000_0000_0000_0000
  {
    hide LittleEndian, Value, Pow256;
    EightOctets();
    ValueRoundTrip(n * 8 % 0x1_0000_0000_0000_0000, LENGTH_OCTETS);
  }

  /** Sections 3.4 and 3.5: three rounds of sixteen operations, whose registers are added to those
      before them, for each block; and the four registers in order. */
  lemma DigestIs(x: Block, r: Registers, data: bytes, n: nat)
    requires n < |Padded(data)| / 64
    ensures var t := Operations(3, 16, x, Operations(2, 16, x, Operations(1, 16, x, r)));
            ProcessBlock(x, r) == Registers((r.a + t.a) % MOD, (r.b + t.b) % MOD,
                                            (r.c + t.c) % MOD, (r.d + t.d) % MOD)
    ensures Blocks(Padded(data), n + 1)
         == ProcessBlock(BlockAt(Padded(data), 64 * n), Blocks(Padded(data), n))
    ensures Blocks(Padded(data), 0) == INITIAL
    ensures var h := Blocks(Padded(data), |Padded(data)| / 64);
            var d := Rfc1320(data);
            && |d| == 16 && Value(d[..4]) == h.a && Value(d[4..8]) == h.b
            && Value(d[8..12]) == h.c && Value(d[12..]) == h.d
  {
    hide Operations, Padded, LittleEndian, Blocks, ProcessBlock;
    NoBlocks(Padded(data));
    NextBlock(Padded(data), n);
    BlockIs(x, r);
    OutputReads(Blocks(Padded(data), |Padded(data)| / 64));
  }

  lemma BlockIs(x: Block, r: Registers)
    ensures var t := Operations(3, 16, x, Operations(2, 16, x, Operations(1, 16, x, r)));
            ProcessBlock(x, r) == Registers((r.a + t.a) % MOD, (r.b + t.b) % MOD,
                                            (r.c + t.c) % MOD, (r.d + t.d) % MOD)
  {
    hide Operations;
    assert Rounds(1, x, r) == Operations(1, 16, x, r);
    assert Rounds(2, x, r) == Operations(2, 16, x, Rounds(1, x, r));
    assert Rounds(3, x, r) == Operations(3, 16, x, Rounds(2, x, r));
  }

  lemma OutputReads(h: Registers)
    ensures var d := Output(h);
            && |d| == 16 && Value(d[..4]) == h.a && Value(d[4..8]) == h.b
            && Value(d[8..12]) == h.c && Value(d[12..]) == h.d
  {
    hide LittleEndian, Value;
    FourOctets(h.a);
    FourOctets(h.b);
    FourOctets(h.c);
    FourOctets(h.d);
    var d := Output(h);
    assert d[..4] == LittleEndian(h.a, 4) && d[4..8] == LittleEndian(h.b, 4);
    assert d[8..12] == LittleEndian(h.c, 4) && d[12..] == LittleEndian(h.d, 4);
  }

  lemma FourOctets(w: Word)
    ensures Value(LittleEndian(w, 4)) == w
  {
    assert Pow256(4) == MOD;
    ValueRoundTrip(w, 4);
  }
}
