/** Scalars as 32 little-endian bytes: scalar_bit and trim_scalar. */
module Scalars {
  import opened Words
  import opened Bits

  /** Bit i of a number. */
  function Bit(k: nat, i: nat): (b: nat)
    ensures b <= 1
  {
    k / Pow2(i) % 2
  }

  /** The number without its i low bits. */
  function Shift(k: nat, i: nat): (r: nat) {
    ShrBound(k, Pow2(i));
    k / Pow2(i)
  }

  /** Dropping one more bit halves the number. */
  lemma ShiftStep(k: nat, i: nat)
    ensures Shift(k, i) == 2 * Shift(k, i + 1) + Bit(k, i)
  {
    var p := Pow2(i);
    DivDiv(k, p, 2);
    assert Pow2(i + 1) == p * 2;
  }

  lemma DivDiv(k: nat, p: int, d: int)
    requires p > 0 && d > 0
    ensures p * d > 0 && k / (p * d) == k / p / d
  {
    var q := k / p / d;
    var r := k % p + p * (k / p % d);
    assert k == q * (p * d) + r by {
      assert k == (k / p) * p + k % p;
      assert (q * d + k / p % d) * p == q * (p * d) + p * (k / p % d);
    }
    assert p * (k / p % d) <= p * (d - 1);
    assert p * d > 0;
    DivModUnique(k, p * d, q, r);
  }

  lemma ShiftSmall(k: nat, i: nat)
    requires k < Pow2(i)
    ensures Shift(k, i) == 0 && Bit(k, i) == 0
  {
    DivModUnique(k, Pow2(i), 0, k);
  }

  lemma ShiftZero(k: nat)
    ensures Shift(k, 0) == k
  {
  }

  lemma BitNext(k: nat, i: nat)
    ensures Bit(k, 0) == k % 2 && Bit(k, i + 1) == Bit(k / 2, i)
  {
    DivDiv(k, 2, Pow2(i));
    assert Pow2(i + 1) == 2 * Pow2(i);
  }

  /** Bitwise operators bit by bit. */
  lemma {:induction false} BitOfBitwise(op: Op, a: nat, b: nat, i: nat)
    ensures Bit(Bitwise(op, a, b), i) == BitOp(op, Bit(a, i), Bit(b, i))
    decreases i
  {
    hide Bitwise, Bit;
    var c := Bitwise(op, a, b);
    BitwiseHalves(op, a, b);
    if i == 0 {
      BitNext(a, 0);
      BitNext(b, 0);
      BitNext(c, 0);
    } else {
      BitNext(a, i - 1);
      BitNext(b, i - 1);
      BitNext(c, i - 1);
      BitOfBitwise(op, a / 2, b / 2, i - 1);
    }
  }

  /** A bit, shifted left. */
  function Scaled(bit: nat, n: nat): (v: nat) {
    if bit == 0 then 0 else Pow2(n)
  }

  /** The n bits of k from bit m, as a number. */
  ghost function Field(k: nat, m: nat, n: nat): int {
    Shift(k, m) - Pow2(n) * Shift(k, m + n)
  }

  lemma FieldStep(k: nat, m: nat, n: nat)
    ensures Field(k, m, 0) == 0
    ensures Field(k, m, n + 1) == Field(k, m, n) + Scaled(Bit(k, m + n), n)
  {
    ShiftStep(k, m + n);
    assert Pow2(n + 1) == 2 * Pow2(n) && Pow2(0) == 1;
    hide Shift, Bit, Pow2;
    FieldAlgebra(Pow2(n), Shift(k, m + n), Shift(k, m + n + 1), Bit(k, m + n));
  }

  lemma FieldAlgebra(p: int, s: int, t: int, b: int)
    requires s == 2 * t + b && 0 <= b <= 1
    ensures (2 * p) * t == p * s - (if b == 0 then 0 else p)
  {
    assert p * s == p * (2 * t) + p * b;
  }

  lemma {:induction false} FieldRange(k: nat, m: nat, n: nat)
    ensures 0 <= Field(k, m, n) < Pow2(n)
  {
    FieldStep(k, m, 0);
    if n == 0 {
    } else {
      FieldRange(k, m, n - 1);
      FieldStep(k, m, n - 1);
    }
  }

  /** The field of n + 1 bits from bit m is bit m below the field of n bits from bit m + 1. */
  lemma FieldFront(k: nat, m: nat, n: nat)
    ensures Field(k, m, n + 1) == 2 * Field(k, m + 1, n) + Bit(k, m)
  {
    ShiftStep(k, m);
    assert Pow2(n + 1) == 2 * Pow2(n);
    hide Shift, Bit, Pow2;
    var p, t := Pow2(n), Shift(k, m + n + 1);
    assert (2 * p) * t == 2 * (p * t);
  }

  /** get bit from scalar at position i; position -1 reads as 0 */
  function ScalarBit(s: seq<byte>, i: int): (b: nat)
    requires |s| == 32 && i < 256
  {
    if i < 0 then 0 else And(Shift(s[i / 8], i % 8), 1)
  }

  lemma ScalarBitIsBit(s: seq<byte>, i: nat)
    requires |s| == 32 && i < 256
    ensures 0 <= LE(s) && ScalarBit(s, i) == Bit(LE(s), i)
  {
    var n, j := i / 8, i % 8;
    LowBit(Shift(s[n], j));
    DropBytes(s, n);
    FirstByte(s[n..]);
    BitOfRest(LE(s), 8 * n, j);
    hide LE, And;
    LowByteBit(s[n], LE(s[n..][1..]), j);
  }

  lemma LowBit(a: nat)
    ensures And(a, 1) == a % 2
  {
    assert Pow2(1) == 2;
    hide Bitwise;
    AndOnes(1, a);
  }

  lemma FirstByte(s: seq<byte>)
    requires |s| > 0
    ensures 0 <= LE(s[1..]) && LE(s) == s[0] as int + 256 * LE(s[1..])
  {
    LEBound(s[1..]);
  }

  /** Bit i + j is bit j of what is left without i bits. */
  lemma BitOfRest(k: nat, i: nat, j: nat)
    ensures Bit(k, i + j) == Bit(Shift(k, i), j)
  {
    Pow2Add(i, j);
    hide Pow2;
    DivDiv(k, Pow2(i), Pow2(j));
  }

  lemma {:induction false} DropBytes(s: seq<int>, n: nat)
    requires AllBytes(s) && n <= |s|
    ensures 0 <= LE(s) && 0 <= LE(s[n..]) && Shift(LE(s), 8 * n) == LE(s[n..])
  {
    LEBound(s);
    LEBound(s[n..]);
    LEBound(s[..n]);
    LEAppend(s[..n], s[n..]);
    assert s == s[..n] + s[n..];
    Pow256IsPow2(n);
    hide LE, Pow2, Pow256;
    assert Pow2(8 * n) * LE(s[n..]) == LE(s[n..]) * Pow2(8 * n);
    DivModUnique(LE(s), Pow2(8 * n), LE(s[n..]), LE(s[..n]));
  }

  lemma LowByteBit(b: byte, high: nat, j: nat)
    requires j < 8
    ensures Bit(b as int + 256 * high, j) == Bit(b, j) == Shift(b, j) % 2
  {
    Pow2Add(j, 7 - j);
    assert Pow2(7) == 128;
    hide Pow2;
    LowByteAlgebra(b, Pow2(j), Pow2(7 - j), high);
  }

  lemma Next128(c: int, high: int)
    requires c == 128
    ensures 256 * high == 2 * (c * high)
  {
  }

  lemma EvenMore(q: int, x: int)
    ensures (q + 2 * x) % 2 == q % 2
  {
  }

  lemma EvenMultiple(q: int, x: int, p: int)
    ensures (q + 2 * x) * p == q * p + 2 * (x * p)
  {
  }

  lemma LowByteAlgebra(b: nat, p: nat, m: nat, high: nat)
    requires p > 0 && p * m == 128
    ensures (b + 256 * high) / p % 2 == b / p % 2
  {
    var x, q, r := m * high, b / p, b % p;
    assert b == q * p + r;
    assert x * p == (p * m) * high;
    Next128(p * m, high);
    EvenMultiple(q, x, p);
    DivModUnique(b + 256 * high, p, q + 2 * x, r);
    EvenMore(q, x);
  }

  // ---------------------------------------------------------------------
  // trim_scalar
  // ---------------------------------------------------------------------

  const TWO254: int := 0x4000000000000000000000000000000000000000000000000000000000000000

  const TOP: int := 0x100000000000000000000000000000000000000000000000000000000000000

  method TrimScalar(s: array<byte>)
    requires s.Length == 32
    modifies s
    ensures LE(s[..]) == TWO254 + old(LE(s[..])) % TWO254 / 8 * 8
  {
    ghost var was := s[..];
    TrimBytes(was);
    ClearBits(s[0]);
    TopBits(s[31]);
    hide LE, And, Or;
    s[0] := And(s[0], 248);
    s[31] := And(s[31], 127);
    s[31] := Or(s[31], 64);
    assert s[..] == was[0 := was[0] / 8 * 8][31 := was[31] % 64 + 64];
  }

  lemma TopBits(b: byte)
    ensures And(b, 127) < 128 && Or(And(b, 127), 64) == b % 64 + 64
  {
    ClearBits(b);
    hide And, Or;
    SetBit(b % 128);
    assert b % 128 % 64 == b % 64;
  }

  lemma SmallPowers()
    ensures Pow2(3) == 8 && Pow2(5) == 32 && Pow2(6) == 64 && Pow2(7) == 128
  {
    assert Pow2(3) == 8;
    assert Pow2(5) == 32;
    assert Pow2(7) == 128;
  }

  lemma ClearBits(b: byte)
    ensures And(b, 248) == b / 8 * 8 && And(b, 127) == b % 128
  {
    SmallPowers();
    hide Pow2, Bitwise;
    AndOnes(7, b);
    ClearLow(b % 8, b / 8);
  }

  lemma ClearLow(low: nat, high: nat)
    requires low < 8 && high < 32
    ensures And(low + 8 * high, 248) == 8 * high
  {
    SmallPowers();
    hide Pow2, Bitwise;
    BitwiseSplit(AND, 3, low, high, 0, 31);
    AndZero(low);
    AndOnes(5, high);
  }

  lemma SetBit(b: byte)
    requires b < 128
    ensures Or(b, 64) == b % 64 + 64
  {
    SmallPowers();
    hide Pow2, Bitwise;
    var low: nat, high: nat := b % 64, b / 64;
    BitwiseSplit(OR, 6, low, high, 0, 1);
    ZeroIdentity(OR, low);
    OneOr(high);
  }

  lemma OneOr(h: nat)
    requires h <= 1
    ensures Or(h, 1) == 1
  {
  }

  lemma TrimBytes(s: seq<byte>)
    requires |s| == 32
    ensures LE(s[0 := s[0] / 8 * 8][31 := s[31] % 64 + 64]) == TWO254 + LE(s) % TWO254 / 8 * 8
  {
    var b0: int, b31: int := s[0], s[31];
    LEUpdate(s, 0, b0 / 8 * 8);
    LEUpdate(s[0 := b0 / 8 * 8], 31, b31 % 64 + 64);
    LastByte(s);
    FirstByte(s);
    TopWeight();
    hide LE, Pow256;
    TrimAlgebra(LE(s), LE(s[..31]), LE(s[1..]), b0, b31);
  }

  lemma LastByte(s: seq<byte>)
    requires |s| == 32
    ensures 0 <= LE(s[..31]) < TOP && LE(s) == LE(s[..31]) + s[31] as int * TOP
  {
    hide LE, Pow256;
    LEAppend(s[..31], s[31..]);
    LESingle(s[31]);
    LEBound(s[..31]);
    TopWeight();
    assert s[31..] == [s[31]];
    assert s == s[..31] + s[31..];
  }

  lemma TopWeight()
    ensures Pow256(31) == TOP && Pow256(0) == 1
  {
    Pow256Values();
    assert Pow256(32) == 256 * Pow256(31);
  }

  lemma TrimAlgebra(v: int, low: int, high: int, b0: int, b31: int)
    requires 0 <= b0 < 256 && 0 <= b31 < 256 && 0 <= low < TOP
    requires v == low + b31 * TOP && v == b0 + 256 * high
    ensures v + (b0 / 8 * 8 - b0) * 1 + (b31 % 64 + 64 - b31) * TOP == TWO254 + v % TWO254 / 8 * 8
  {
    var h, l := b31 / 64, b31 % 64;
    var r := low + l * TOP;
    DivModUnique(v, TWO254, h, r);
    LowBits(r, b0, high - h * (TWO254 / 256));
  }

  lemma LowBits(r: int, b0: int, t: int)
    requires r == b0 + 256 * t
    ensures r / 8 * 8 == r - b0 + b0 / 8 * 8
  {
  }

  /** The number a is k with bits 0, 1 and 2 cleared, bit 254 set, and nothing above it. */
  ghost predicate IsTrimmed(a: int, k: int) {
    && 0x4000000000000000000000000000000000000000000000000000000000000000 <= a
    && a < 0x8000000000000000000000000000000000000000000000000000000000000000
    && a % 8 == 0
    && a / 8 % 0x800000000000000000000000000000000000000000000000000000000000000
       == k / 8 % 0x800000000000000000000000000000000000000000000000000000000000000
  }

  lemma TrimmedUnique(a: int, b: int, k: int)
    requires IsTrimmed(a, k) && IsTrimmed(b, k)
    ensures a == b
  {
    assert a == a / 8 * 8 && b == b / 8 * 8;
  }

  lemma TrimmedIs(k: nat)
    ensures IsTrimmed(TWO254 + k % TWO254 / 8 * 8, k)
  {
    var m := TWO254 / 8;
    var q, r := k / TWO254, k % TWO254;
    assert k == q * TWO254 + r && r / 8 < m;
    assert k / 8 == q * m + r / 8;
    DivModUnique(k / 8, m, q, r / 8);
    DivModUnique((TWO254 + r / 8 * 8) / 8, m, 1, r / 8);
  }
}
