/** Bitwise operators on natural numbers, so that shifts and masks of the sources can be
    written as they are and still be reasoned about as arithmetic. */
module Bits {
  import opened Words

  datatype Op = AND | OR | XOR

  function BitOp(op: Op, x: nat, y: nat): (z: nat)
    requires x < 2 && y < 2
    ensures z < 2
  {
    match op
    case AND => x * y
    case OR => if x == 1 then 1 else y
    case XOR => (x + y) % 2
  }

  function Bitwise(op: Op, a: nat, b: nat): (c: nat)
    decreases a + b
  {
    if a == 0 && b == 0 then 0 else 2 * Bitwise(op, a / 2, b / 2) + BitOp(op, a % 2, b % 2)
  }

  function And(a: nat, b: nat): (c: nat) { Bitwise(AND, a, b) }
  function Or(a: nat, b: nat): (c: nat) { Bitwise(OR, a, b) }
  function Xor(a: nat, b: nat): (c: nat) { Bitwise(XOR, a, b) }

  /** The low k bits and the rest are combined independently. */
  lemma {:induction false} BitwiseSplit(op: Op, k: nat, a: nat, b: nat, c: nat, d: nat)
    requires a < Pow2(k) && c < Pow2(k)
    ensures Bitwise(op, a + Pow2(k) * b, c + Pow2(k) * d) == Bitwise(op, a, c) + Pow2(k) * Bitwise(op, b, d)
  {
    hide *;
    if k == 0 {
      PowerStart();
      BitwiseNone(op);
    } else {
      PowerNext(k - 1);
      var p := Pow2(k - 1);
      BitwiseSplit(op, k - 1, a / 2, b, c / 2, d);
      var e := Bitwise(op, b, d);
      DoubleProduct(p, b);
      DoubleProduct(p, d);
      DoubleProduct(p, e);
      SplitStep(op, a, p * b, c, p * d, p * e);
    }
  }

  lemma ByteSplit(op: Op, a: nat, b: nat, c: nat, d: nat)
    requires a < 256 && c < 256
    ensures Bitwise(op, a + 256 * b, c + 256 * d) == Bitwise(op, a, c) + 256 * Bitwise(op, b, d)
  {
    hide *;
    Pow2Values();
    var p, e := Pow2(8), Bitwise(op, b, d);
    assert p * b == 256 * b && p * d == 256 * d && p * e == 256 * e;
    BitwiseSplit(op, 8, a, b, c, d);
  }

  lemma PowerStart()
    ensures Pow2(0) == 1
  {
  }

  lemma PowerNext(k: nat)
    ensures Pow2(k + 1) == 2 * Pow2(k)
  {
  }

  lemma BitwiseNone(op: Op)
    ensures Bitwise(op, 0, 0) == 0
  {
  }

  lemma DoubleProduct(p: nat, b: nat)
    ensures (2 * p) * b == 2 * (p * b) && p * b >= 0
  {
  }

  lemma HalfSum(a: nat, b: nat)
    ensures (a + 2 * b) / 2 == a / 2 + b && (a + 2 * b) % 2 == a % 2
  {
  }

  lemma SplitStep(op: Op, a: nat, pb: nat, c: nat, pd: nat, pe: nat)
    requires Bitwise(op, a / 2 + pb, c / 2 + pd) == Bitwise(op, a / 2, c / 2) + pe
    ensures Bitwise(op, a + 2 * pb, c + 2 * pd) == Bitwise(op, a, c) + 2 * pe
  {
    hide *;
    HalfSum(a, pb);
    HalfSum(c, pd);
    BitwiseHalf(op, a + 2 * pb, c + 2 * pd);
    BitwiseHalf(op, a, c);
  }

  lemma BitwiseHalf(op: Op, a: nat, b: nat)
    ensures Bitwise(op, a, b) == 2 * Bitwise(op, a / 2, b / 2) + BitOp(op, a % 2, b % 2)
  {
  }

  lemma BitwiseHalves(op: Op, a: nat, b: nat)
    ensures Bitwise(op, a, b) / 2 == Bitwise(op, a / 2, b / 2) && Bitwise(op, a, b) % 2 == BitOp(op, a % 2, b % 2)
  {
    BitwiseHalf(op, a, b);
  }

  lemma {:induction false} BitwiseBound(op: Op, k: nat, a: nat, b: nat)
    requires a < Pow2(k) && b < Pow2(k)
    ensures Bitwise(op, a, b) < Pow2(k)
  {
    if k == 0 {
    } else {
      BitwiseBound(op, k - 1, a / 2, b / 2);
    }
  }

  lemma {:induction false} ZeroIdentity(op: Op, a: nat)
    requires op != AND
    ensures Bitwise(op, a, 0) == a && Bitwise(op, 0, a) == a
  {
    if a == 0 {
    } else {
      ZeroIdentity(op, a / 2);
    }
  }

  lemma {:induction false} AndZero(a: nat)
    ensures And(a, 0) == 0 && And(0, a) == 0
  {
    if a == 0 {
    } else {
      AndZero(a / 2);
    }
  }

  /** OR-ing in a value above the bits in use is addition. */
  lemma OrDisjoint(k: nat, a: nat, b: nat)
    requires a < Pow2(k)
    ensures Or(a, Pow2(k) * b) == a + Pow2(k) * b
  {
    hide Bitwise, Pow2;
    BitwiseSplit(OR, k, a, 0, 0, b);
    ZeroIdentity(OR, a);
    ZeroIdentity(OR, b);
  }

  lemma {:induction false} XorInvolution(a: nat, b: nat)
    ensures Xor(Xor(a, b), b) == a
    decreases a + b
  {
    if a == 0 && b == 0 {
    } else {
      XorInvolution(a / 2, b / 2);
      var c := Xor(a, b);
      BitwiseHalf(XOR, c, b);
      assert c / 2 == Xor(a / 2, b / 2) && c % 2 == (a % 2 + b % 2) % 2;
    }
  }

  lemma HalfMod(a: nat, p: nat)
    requires p > 0
    ensures a % (2 * p) == 2 * (a / 2 % p) + a % 2
  {
    var q := a / 2 / p;
    assert a / 2 == q * p + a / 2 % p;
    assert 2 * (q * p) == q * (2 * p);
    DivModUnique(a, 2 * p, q, 2 * (a / 2 % p) + a % 2);
  }

  lemma {:induction false} AndOnes(k: nat, a: nat)
    ensures And(a, Pow2(k) - 1) == a % Pow2(k)
  {
    hide *;
    if k == 0 {
      PowerStart();
      AndZero(a);
    } else {
      PowerNext(k - 1);
      var p := Pow2(k - 1);
      AndOnes(k - 1, a / 2);
      HalfMod(a, p);
      AndOdd(a, p - 1);
    }
  }

  lemma AndOdd(a: nat, m: nat)
    ensures And(a, 2 * m + 1) == 2 * And(a / 2, m) + a % 2
  {
    BitwiseHalf(AND, a, 2 * m + 1);
  }

  lemma SplitNumbers(op: Op, a: nat, b: nat, x: nat, c: nat, d: nat, y: nat)
    requires a < 256 && c < 256 && x == a + 256 * b && y == c + 256 * d
    ensures Bitwise(op, x, y) == Bitwise(op, a, c) + 256 * Bitwise(op, b, d)
  {
    hide *;
    ByteSplit(op, a, b, c, d);
  }

  lemma LEFirst(s: seq<int>)
    requires |s| > 0
    ensures LE(s) == s[0] + 256 * LE(s[1..])
  {
  }

  /** A byte string and its bytes are combined alike. */
  lemma {:induction false} BitwiseBytes(op: Op, a: seq<byte>, b: seq<byte>, c: seq<byte>)
    requires |a| == |b| == |c|
    requires forall k :: 0 <= k < |a| ==> c[k] == Bitwise(op, a[k], b[k])
    ensures 0 <= LE(a) && 0 <= LE(b) && LE(c) == Bitwise(op, LE(a), LE(b))
  {
    LEBound(a);
    LEBound(b);
    if |a| == 0 {
      BitwiseNone(op);
    } else {
      LEFirst(a);
      LEFirst(b);
      LEFirst(c);
      hide Bitwise, LE, AllBytes;
      BitwiseBytes(op, a[1..], b[1..], c[1..]);
      SplitNumbers(op, a[0], LE(a[1..]), LE(a), b[0], LE(b[1..]), LE(b));
    }
  }

  // ---------------------------------------------------------------------
  // load32_le, store32_le and their 64-bit forms
  // ---------------------------------------------------------------------

  function Load32(s: seq<byte>): (w: nat)
    requires |s| >= 4
  {
    var b0: int, b1: int, b2: int, b3: int := s[0], s[1], s[2], s[3];
    Or(Or(Or(b0, b1 * 0x100), b2 * 0x1_0000), b3 * 0x100_0000)
  }

  lemma Load32Value(s: seq<byte>)
    requires |s| >= 4
    ensures Load32(s) == LE(s[..4]) < TWO32
  {
    Pow2Values();
    hide Bitwise, Pow2;
    var b0: int, b1: int, b2: int, b3: int := s[0], s[1], s[2], s[3];
    OrDisjoint(8, b0, b1);
    OrDisjoint(16, b0 + 0x100 * b1, b2);
    OrDisjoint(24, b0 + 0x100 * b1 + 0x1_0000 * b2, b3);
    LEPeel4(s[..4]);
  }

  function Load24(s: seq<byte>): (w: nat)
    requires |s| >= 3
  {
    var b0: int, b1: int, b2: int := s[0], s[1], s[2];
    Or(Or(b0, b1 * 0x100), b2 * 0x1_0000)
  }

  lemma Load24Value(s: seq<byte>)
    requires |s| >= 3
    ensures Load24(s) == s[0] as int + 0x100 * s[1] as int + 0x1_0000 * s[2] as int
    ensures Load24(s) < 0x100_0000
  {
    Pow2Values();
    hide Bitwise, Pow2;
    var b0: int, b1: int, b2: int := s[0], s[1], s[2];
    OrDisjoint(8, b0, b1);
    OrDisjoint(16, b0 + 0x100 * b1, b2);
  }

  function Load64(s: seq<byte>): (w: nat)
    requires |s| >= 8
  {
    Or(Load32(s), Load32(s[4..]) * TWO32)
  }

  lemma Load64Value(s: seq<byte>)
    requires |s| >= 8
    ensures Load64(s) == LE(s[..8]) < TWO64
  {
    Load32Value(s);
    Load32Value(s[4..]);
    EightBytes(s);
    hide LE, Load32;
    OrHigh(Load32(s), Load32(s[4..]));
  }

  lemma OrHigh(low: nat, high: nat)
    requires low < TWO32
    ensures Or(low, high * TWO32) == low + TWO32 * high
  {
    Pow2Values();
    hide Bitwise, Pow2;
    OrDisjoint(32, low, high);
  }

  lemma EightBytes(s: seq<int>)
    requires |s| >= 8
    ensures LE(s[..8]) == LE(s[..4]) + TWO32 * LE(s[4..][..4])
  {
    Pow256Values();
    hide LE, Pow256;
    LEAppend(s[..4], s[4..8]);
    assert s[..8] == s[..4] + s[4..8] && s[4..][..4] == s[4..8];
  }

  function Store32(w: u32): (s: seq<byte>)
    ensures |s| == 4
  {
    MaskByte(w);
    MaskByte(w / 0x100);
    MaskByte(w / 0x1_0000);
    MaskByte(w / 0x100_0000);
    [And(w, 0xff), And(w / 0x100, 0xff), And(w / 0x1_0000, 0xff), And(w / 0x100_0000, 0xff)]
  }

  lemma MaskByte(w: nat)
    ensures And(w, 0xff) == w % 256
  {
    AndOnes(8, w);
    assert Pow2(8) == 256;
  }

  lemma Store32Value(w: u32)
    ensures LE(Store32(w)) == w
  {
    MaskByte(w);
    MaskByte(w / 0x100);
    MaskByte(w / 0x1_0000);
    MaskByte(w / 0x100_0000);
    var s := Store32(w);
    LEPeel4(s);
    assert s[4..] == [];
    hide LE, Bitwise;
    ByteSum(w);
  }

  lemma ByteSum(w: int)
    requires 0 <= w < TWO32
    ensures w == w % 256 + 0x100 * (w / 0x100 % 256) + 0x1_0000 * (w / 0x1_0000 % 256) + 0x100_0000 * (w / 0x100_0000 % 256)
  {
    var a, b, c := w / 0x100, w / 0x1_0000, w / 0x100_0000;
    assert b == a / 0x100 && c == b / 0x100;
  }

  method StoreWord(out: array<byte>, at: nat, w: u32)
    requires at + 4 <= out.Length
    modifies out
    ensures forall k :: 0 <= k < 4 ==> out[at + k] == Store32(w)[k]
    ensures forall k :: 0 <= k < at || at + 4 <= k < out.Length ==> out[k] == old(out[k])
  {
    hide Store32;
    var s := Store32(w);
    out[at], out[at + 1], out[at + 2], out[at + 3] := s[0], s[1], s[2], s[3];
  }

  function Store64(w: u64): (s: seq<byte>)
    ensures |s| == 8
  {
    Store32(w % TWO32) + Store32(w / TWO32)
  }

  lemma Store64Value(w: u64)
    ensures LE(Store64(w)) == w
  {
    Store32Value(w % TWO32);
    Store32Value(w / TWO32);
    Pow256Values();
    hide LE, Store32, Pow256;
    LEAppend(Store32(w % TWO32), Store32(w / TWO32));
  }

  // ---------------------------------------------------------------------
  // OR-ing input bytes one by one into a zeroed little-endian word
  // ---------------------------------------------------------------------

  ghost predicate ZeroFrom(s: seq<int>, i: nat) {
    forall k :: i <= k < |s| ==> s[k] == 0
  }

  function Zeros(n: nat): (s: seq<byte>)
    ensures |s| == n && ZeroFrom(s, 0)
  {
    seq(n, _ => 0)
  }

  lemma {:induction false} LEZero(s: seq<int>)
    requires ZeroFrom(s, 0)
    ensures LE(s) == 0
  {
    if |s| == 0 {
    } else {
      LEZero(s[1..]);
    }
  }

  lemma LEZeroTail(s: seq<int>, i: nat)
    requires i <= |s| && ZeroFrom(s, i)
    ensures LE(s) == LE(s[..i])
  {
    LEAppend(s[..i], s[i..]);
    assert s == s[..i] + s[i..];
    LEZero(s[i..]);
  }

  lemma OrByte(chunk: seq<byte>, pos: nat, b: byte)
    requires pos < |chunk| && ZeroFrom(chunk, pos)
    ensures 0 <= LE(chunk) && Or(LE(chunk), b * Pow2(8 * pos)) == LE(chunk[pos := b])
    ensures LE(chunk[pos := b]) < Pow256(|chunk|)
  {
    LEZeroTail(chunk, pos);
    LEBound(chunk[..pos]);
    LEBound(chunk[pos := b]);
    Pow256IsPow2(pos);
    LEUpdate(chunk, pos, b);
    hide Bitwise, LE, Pow2, Pow256;
    OrDisjoint(8 * pos, LE(chunk), b);
  }

  /** The ALIGN macro: how many bytes are missing to the next block boundary, computed on
      64-bit sizes as the low bits of the two's complement of x. */
  function Align(x: u64, blockSize: nat): (a: nat)
    requires blockSize > 0
  {
    And((TWO64 - x) % TWO64, blockSize - 1)
  }

  lemma AlignValue(x: u64)
    ensures Align(x, 16) == (16 - x % 16) % 16
    ensures Align(x, 128) == (128 - x % 128) % 128
  {
    hide Bitwise, Pow2;
    Pow2Values();
    AndOnes(4, (TWO64 - x) % TWO64);
    AndOnes(7, (TWO64 - x) % TWO64);
    NegMod(x);
  }

  lemma NegMod(x: int)
    requires 0 <= x < TWO64
    ensures (TWO64 - x) % TWO64 % 16 == (16 - x % 16) % 16
    ensures (TWO64 - x) % TWO64 % 128 == (128 - x % 128) % 128
  {
    Negated(x);
    if x == 0 {
      assert (TWO64 - x) % TWO64 == 0;
    } else {
      Complement16(x, TWO64 - x);
      Complement128(x, TWO64 - x);
    }
  }

  lemma Negated(x: int)
    requires 0 <= x < TWO64
    ensures (TWO64 - x) % TWO64 == if x == 0 then 0 else TWO64 - x
  {
  }

  lemma Complement16(x: int, y: int)
    requires x + y == TWO64
    ensures y % 16 == if x % 16 == 0 then 0 else 16 - x % 16
  {
  }

  lemma Complement128(x: int, y: int)
    requires x + y == TWO64
    ensures y % 128 == if x % 128 == 0 then 0 else 128 - x % 128
  {
  }

  // ---------------------------------------------------------------------
  // Signed words
  // ---------------------------------------------------------------------

  /** The bits of a signed word. */
  function Bits32(x: i32): (u: u32) {
    if x < 0 then x + TWO32 else x
  }

  function Signed32(u: u32): (x: i32) {
    if u < 0x8000_0000 then u else u - TWO32
  }

  function Xor32(x: i32, y: i32): (z: i32) {
    XorWord(Bits32(x), Bits32(y));
    Signed32(Xor(Bits32(x), Bits32(y)))
  }

  function And32(x: i32, y: i32): (z: i32) {
    AndWord(Bits32(x), Bits32(y));
    Signed32(And(Bits32(x), Bits32(y)))
  }

  lemma XorWord(a: u32, b: u32)
    ensures Xor(a, b) < TWO32
  {
    Pow2Values();
    hide Pow2;
    BitwiseBound(XOR, 32, a, b);
  }

  lemma AndWord(a: u32, b: u32)
    ensures And(a, b) < TWO32
  {
    Pow2Values();
    hide Pow2;
    BitwiseBound(AND, 32, a, b);
  }

  lemma {:induction false} XorCommutes(a: nat, b: nat)
    ensures Xor(a, b) == Xor(b, a)
    decreases a + b
  {
    if a == 0 && b == 0 {
    } else {
      XorCommutes(a / 2, b / 2);
    }
  }

  /** A left shift of a 32-bit word, which drops the bits it shifts out. */
  function Shl32(x: u32, k: nat): (w: u32) {
    x * Pow2(k) % TWO32
  }

  function Shr32(x: u32, k: nat): (w: u32) {
    ShrBound(x, Pow2(k));
    x / Pow2(k)
  }

  lemma ShrBound(x: nat, p: nat)
    requires p > 0
    ensures 0 <= x / p <= x
  {
    QuotientBound(x, p, x / p, x % p);
  }

  lemma QuotientBound(x: int, p: int, q: int, r: int)
    requires x == q * p + r && 0 <= r < p && x >= 0
    ensures 0 <= q <= x
  {
    assert q >= 0;
    assert q * 1 <= q * p;
  }

  /** v & (~v + 1) */
  function LowestBit(v: i32): (b: nat) {
    And(Bits32(v), (TWO32 - Bits32(v)) % TWO32)
  }

  /** A number and its complement on n bits share no bit. */
  lemma {:induction false} AndComplement(n: nat, a: nat, b: nat)
    requires a + b + 1 == Pow2(n)
    ensures And(a, b) == 0
  {
    if n == 0 {
    } else {
      AndComplement(n - 1, a / 2, b / 2);
      BitwiseHalf(AND, a, b);
    }
  }

  lemma LowestBitIs(v: i32, s: nat, o: int)
    requires s < 32 && v == Pow2(s) * (2 * o + 1)
    ensures LowestBit(v) == Pow2(s)
  {
    Pow31(s);
    hide *;
    var a, b := OddHalves(v, Pow2(s), Pow2(31 - s), o);
    OddComplement(31 - s, a, b);
    ScaledAnd(s, 2 * a + 1, 2 * b + 1, Bits32(v), TWO32 - Bits32(v));
    LowestBitOf(v, Pow2(s));
  }

  lemma LowestBitOf(v: i32, p: nat)
    requires Bits32(v) > 0 && And(Bits32(v), TWO32 - Bits32(v)) == p * 1
    ensures LowestBit(v) == p
  {
  }

  lemma ScaledAnd(s: nat, a: nat, b: nat, x: nat, y: nat)
    requires x == Pow2(s) * a && y == Pow2(s) * b
    ensures And(x, y) == Pow2(s) * And(a, b)
  {
    hide Pow2;
    AndZero(0);
    BitwiseSplit(AND, s, 0, a, 0, b);
  }

  lemma Pow31(s: nat)
    requires s < 32
    ensures 2 * (Pow2(s) * Pow2(31 - s)) == TWO32
  {
    Pow2Values();
    assert Pow2(32) == 2 * Pow2(31);
    hide Pow2;
    Pow2Add(s, 31 - s);
  }

  lemma OddComplement(n: nat, a: nat, b: nat)
    requires a + b + 1 == Pow2(n)
    ensures And(2 * a + 1, 2 * b + 1) == 1
  {
    BitwiseHalf(AND, 2 * a + 1, 2 * b + 1);
    AndComplement(n, a, b);
  }

  lemma OddHalves(v: i32, p: int, m: int, o: int) returns (a: nat, b: nat)
    requires p > 0 && m > 0 && v == p * (2 * o + 1) && 2 * (p * m) == TWO32
    ensures a + b + 1 == m
    ensures 0 < Bits32(v) == p * (2 * a + 1) && TWO32 - Bits32(v) == p * (2 * b + 1)
  {
    var c := if v < 0 then o + m else o;
    assert p * (2 * c + 1) == p * (2 * o + 1) + (if v < 0 then 2 * (p * m) else 0);
    assert p * (2 * (m - 1 - c) + 1) == 2 * (p * m) - p * (2 * c + 1);
    a, b := c, m - 1 - c;
  }
}
