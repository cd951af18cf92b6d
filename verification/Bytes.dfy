/** Octets, fixed-width octet strings, and network byte order, as every codec of the
    TEAP tester uses them. */
module Bytes {

  type byte = b: int | 0 <= b < 256
  type bytes = seq<byte>

  type Octets16 = d: bytes | |d| == 16 witness Zeros(16)
  type Octets32 = d: bytes | |d| == 32 witness Zeros(32)
  type Octets40 = d: bytes | |d| == 40 witness Zeros(40)
  type Octets64 = d: bytes | |d| == 64 witness Zeros(64)

  datatype Option<+T> = None | Some(value: T)

  /** What a Python exception becomes. */
  datatype Fault = Timeout | SocketError | ServerCertificate | TlsError | ValueError
                 | PackError | LookupError

  datatype Result<+T> = Ok(value: T) | Err(fault: Fault) {
    predicate IsFailure() { Err? }

    function PropagateFailure<U>(): Result<U>
      requires Err?
    {
      Err(fault)
    }

    function Extract(): T
      requires Ok?
    {
      value
    }
  }

  function Zeros(n: nat): (r: bytes)
    ensures |r| == n
    ensures forall i :: 0 <= i < n ==> r[i] == 0
  {
    seq(n, i => 0)
  }

  function Min(a: int, b: int): int { if a <= b then a else b }

  function Max(a: int, b: int): int { if a >= b then a else b }

  /** x >> n */
  function ShiftRight(x: nat, n: nat): nat { if n == 0 then x else ShiftRight(x / 2, n - 1) }

  /** Python's s[..n] and s[n..], which clamp instead of failing. */
  function Take<T>(s: seq<T>, n: nat): seq<T> { s[..Min(n, |s|)] }

  function Drop<T>(s: seq<T>, n: nat): seq<T> { s[Min(n, |s|)..] }

  /** Python's s[lo..hi] for lo <= hi. */
  function Slice<T>(s: seq<T>, lo: nat, hi: nat): seq<T>
    requires lo <= hi
  {
    s[Min(lo, |s|)..Min(hi, |s|)]
  }

  /** A bytearray after `s[lo:hi] = v`. */
  function Splice<T>(s: seq<T>, lo: nat, hi: nat, v: seq<T>): seq<T>
    requires lo <= hi
  {
    s[..Min(lo, |s|)] + v + s[Min(hi, |s|)..]
  }

  function U16(n: nat): (r: bytes)
    requires n < 0x1_0000
    ensures |r| == 2
  {
    [n / 0x100, n % 0x100]
  }

  function U32(n: nat): (r: bytes)
    requires n < 0x1_0000_0000
    ensures |r| == 4
  {
    U16(n / 0x1_0000) + U16(n % 0x1_0000)
  }

  function GetU16(b: bytes, at: nat): (n: nat)
    requires at + 2 <= |b|
    ensures n < 0x1_0000
  {
    (b[at] as int) * 0x100 + b[at + 1] as int
  }

  function GetU32(b: bytes, at: nat): (n: nat)
    requires at + 4 <= |b|
    ensures n < 0x1_0000_0000
  {
    GetU16(b, at) * 0x1_0000 + GetU16(b, at + 2)
  }

  /** struct.unpack("!H", v[:2]): fails on a value shorter than two octets. */
  function ReadU16(v: bytes): Result<nat> {
    if |v| < 2 then Err(PackError) else Ok(GetU16(v, 0))
  }

  /** `part` stands at `at` inside `data`. */
  predicate At<T(==)>(data: seq<T>, at: nat, part: seq<T>) {
    && at + |part| <= |data|
    && forall i {:trigger part[i]} :: 0 <= i < |part| ==> data[at + i] == part[i]
  }

  lemma AtSplit<T>(data: seq<T>, at: nat, a: seq<T>, b: seq<T>)
    requires At(data, at, a + b)
    ensures At(data, at, a) && At(data, at + |a|, b)
  {
    forall i | 0 <= i < |a|
      ensures data[at + i] == a[i]
    {
      assert (a + b)[i] == a[i];
    }
    forall i | 0 <= i < |b|
      ensures data[at + |a| + i] == b[i]
    {
      assert (a + b)[|a| + i] == b[i];
    }
  }

  /** The big-endian number an octet string writes. */
  function Number(b: bytes): nat {
    if b == [] then 0 else Number(b[..|b| - 1]) * 0x100 + b[|b| - 1]
  }

  lemma U16RoundTrip(n: nat, data: bytes, at: nat)
    requires n < 0x1_0000 && At(data, at, U16(n))
    ensures GetU16(data, at) == n
  {
    var b := U16(n);
    assert data[at + 0] == b[0] && data[at + 1] == b[1];
  }

  lemma U32RoundTrip(n: nat, data: bytes, at: nat)
    requires n < 0x1_0000_0000 && At(data, at, U32(n))
    ensures GetU32(data, at) == n
  {
    AtSplit(data, at, U16(n / 0x1_0000), U16(n % 0x1_0000));
    U16RoundTrip(n / 0x1_0000, data, at);
    U16RoundTrip(n % 0x1_0000, data, at + 2);
  }

  lemma Assoc<T>(a: seq<T>, b: seq<T>, c: seq<T>)
    ensures a + (b + c) == a + b + c
  {
  }

  lemma TakeAll<T>(s: seq<T>)
    ensures s[..|s|] == s
  {
  }

  /** Within a prefix, a slice is the whole's. */
  lemma SliceOfPrefix<T>(s: seq<T>, n: nat, lo: nat, hi: nat)
    requires lo <= hi <= n <= |s|
    ensures s[..n][lo..hi] == s[lo..hi]
  {
  }

  /** b"".join(parts). */
  function Concat<T>(parts: seq<seq<T>>): seq<T> {
    if parts == [] then [] else parts[0] + Concat(parts[1..])
  }

  lemma ConsAssoc<T>(s: seq<T>, w: seq<T>)
    requires s != []
    ensures [s[0]] + (s[1..] + w) == s + w
  {
  }

  lemma {:induction false} ConcatSnoc<T>(parts: seq<seq<T>>, last: seq<T>)
    ensures Concat(parts + [last]) == Concat(parts) + last
  {
    if parts == [] {
      assert [last][1..] == [];
    } else {
      assert (parts + [last])[1..] == parts[1..] + [last];
      ConcatSnoc(parts[1..], last);
    }
  }

  lemma {:induction false} ConcatAppend<T>(xs: seq<seq<T>>, ys: seq<seq<T>>)
    ensures Concat(xs + ys) == Concat(xs) + Concat(ys)
  {
    if xs == [] {
      assert xs + ys == ys;
    } else {
      assert (xs + ys)[1..] == xs[1..] + ys;
      ConcatAppend(xs[1..], ys);
    }
  }
}
