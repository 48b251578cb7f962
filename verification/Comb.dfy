/** ge_scalarmult_base: the signed all-bits-set comb with five teeth. */
module Comb {
  import opened Words
  import opened Bits
  import opened Scalars
  import opened Groups
  import opened ScalarModL

  // ---------------------------------------------------------------------
  // The recoding
  // ---------------------------------------------------------------------

  // 1 / 2 and (2^255 - 1) / 2, modulo L
  const HALF0: seq<byte> := [0xf7, 0xe9, 0x7a, 0x2e, 0x8d, 0x31, 0x09, 0x2c]
  const HALF1: seq<byte> := [0x6b, 0xce, 0x7b, 0x51, 0xef, 0x7c, 0x6f, 0x0a]
  const HALF2: seq<byte> := [0x00, 0x00, 0x00, 0x00, 0x00, 0x00, 0x00, 0x00]
  const HALF3: seq<byte> := [0x00, 0x00, 0x00, 0x00, 0x00, 0x00, 0x00, 0x08]
  const ONES0: seq<byte> := [0x42, 0x9a, 0xa3, 0xba, 0x23, 0xa5, 0xbf, 0xcb]
  const ONES1: seq<byte> := [0x11, 0x5b, 0x9d, 0xc5, 0x74, 0x95, 0xf3, 0xb6]
  const ONES2: seq<byte> := [0xff, 0xff, 0xff, 0xff, 0xff, 0xff, 0xff, 0xff]
  const ONES3: seq<byte> := [0xff, 0xff, 0xff, 0xff, 0xff, 0xff, 0xff, 0x07]

  function HalfModL(): (t: seq<byte>)
    ensures |t| == 32
  {
    HALF0 + HALF1 + HALF2 + HALF3
  }

  function HalfOnes(): (t: seq<byte>)
    ensures |t| == 32
  {
    ONES0 + ONES1 + ONES2 + ONES3
  }

  lemma Eight(s: seq<int>)
    requires |s| == 8
    ensures LE(s) == s[0] + 0x100 * s[1] + 0x1_0000 * s[2] + 0x100_0000 * s[3]
                     + TWO32 * (s[4] + 0x100 * s[5] + 0x1_0000 * s[6] + 0x100_0000 * s[7])
  {
    LEPeelAt(s, 0);
    LEPeelAt(s, 4);
    assert s[0..] == s && s[8..] == [];
  }

  lemma HalfRows()
    ensures LE(HALF0) == 0x2c09318d2e7ae9f7 && LE(HALF1) == 0x0a6f7cef517bce6b
    ensures LE(HALF2) == 0 && LE(HALF3) == 0x0800000000000000
  {
    hide LE;
    Eight(HALF0);
    Eight(HALF1);
    Eight(HALF2);
    Eight(HALF3);
  }

  lemma OnesRows()
    ensures LE(ONES0) == 0xcbbfa523baa39a42 && LE(ONES1) == 0xb6f39574c59d5b11
    ensures LE(ONES2) == 0xffffffffffffffff && LE(ONES3) == 0x07ffffffffffffff
  {
    hide LE;
    Eight(ONES0);
    Eight(ONES1);
    Eight(ONES2);
    Eight(ONES3);
  }

  /** Twice the constants are 1 and 2^255 - 1 modulo L. */
  lemma Constants()
    ensures 2 * LE(HalfModL()) == ORDER + 1 && 2 * LE(HalfOnes()) == TWO255 - 1 - 7 * ORDER
  {
    HalfRows();
    OnesRows();
    LERows(HALF0, HALF1, HALF2, HALF3);
    LERows(ONES0, ONES1, ONES2, ONES3);
  }

  /** Read with 1 for set bits and -1 for clear bits, the recoded scalar is the scalar modulo L. */
  lemma Recoded(scalar: int, s: int)
    requires s == (scalar * LE(HalfModL()) + LE(HalfOnes())) % ORDER
    ensures (2 * s - (TWO255 - 1)) % ORDER == scalar % ORDER
  {
    Constants();
    hide LE, HalfModL, HalfOnes;
    var x := scalar * LE(HalfModL()) + LE(HalfOnes());
    var q := x / ORDER;
    assert s == x - q * ORDER;
    TwiceProduct(scalar, LE(HalfModL()));
    ModCongruent(2 * s - (TWO255 - 1), scalar, scalar - 7 - 2 * q, ORDER);
  }

  lemma TwiceProduct(k: int, h: int)
    requires 2 * h == ORDER + 1
    ensures 2 * (k * h) == k * ORDER + k
  {
    assert 2 * (k * h) == k * (2 * h);
  }

  // ---------------------------------------------------------------------
  // What the teeth add up to
  // ---------------------------------------------------------------------

  const TWO51: int := 0x8000000000000

  function Teeth(t0: int, t1: int, t2: int, t3: int, t4: int): int {
    t0 + TWO51 * (t1 + TWO51 * (t2 + TWO51 * (t3 + TWO51 * t4)))
  }

  /** The signed value of bits i..50 of tooth k, over 2^i. */
  ghost function Row(s: nat, k: nat, i: nat): int
    requires i <= 51
  {
    2 * Field(s, 51 * k + i, 51 - i) - Pow2(51 - i) + 1
  }

  /** The comb's sum after the positions from i up. */
  ghost function Sum(s: nat, i: nat): int
    requires i <= 51
  {
    Teeth(Row(s, 0, i), Row(s, 1, i), Row(s, 2, i), Row(s, 3, i), Row(s, 4, i))
  }

  /** A bit as 1 or -1. */
  function Sign(bit: int): int {
    2 * bit - 1
  }

  lemma RowStep(s: nat, k: nat, i: nat)
    requires i < 51
    ensures Row(s, k, i) == 2 * Row(s, k, i + 1) + Sign(Bit(s, 51 * k + i))
  {
    FieldFront(s, 51 * k + i, 50 - i);
    assert Pow2(51 - i) == 2 * Pow2(50 - i);
    hide Field, Bit, Pow2;
  }

  /** What the five teeth read at position i. */
  ghost function Position(s: nat, i: nat): int {
    Teeth(Sign(Bit(s, i)), Sign(Bit(s, i + 51)), Sign(Bit(s, i + 102)), Sign(Bit(s, i + 153)), Sign(Bit(s, i + 204)))
  }

  lemma SumStep(s: nat, i: nat)
    requires i < 51
    ensures Sum(s, i) == 2 * Sum(s, i + 1) + Position(s, i)
  {
    RowStep(s, 0, i);
    RowStep(s, 1, i);
    RowStep(s, 2, i);
    RowStep(s, 3, i);
    RowStep(s, 4, i);
    hide Row, Bit;
  }

  lemma SumStart(s: nat)
    ensures Sum(s, 51) == 0
  {
    assert forall k: nat :: Row(s, k, 51) == 0;
    hide Row;
  }

  lemma Power51()
    ensures Pow2(51) == TWO51 && Pow2(255) == TWO255
  {
    hide Pow2;
    Pow2Values();
    PowOne();
    Pow2Add(1, 25);
    Pow2Add(26, 25);
    Pow2Add(51, 51);
    Pow2Add(102, 102);
    Pow2Add(204, 51);
  }

  lemma PowOne()
    ensures Pow2(1) == 2
  {
  }

  lemma RowEnd(s: nat, k: nat)
    ensures Row(s, k, 0) == 2 * (Shift(s, 51 * k) - TWO51 * Shift(s, 51 * (k + 1))) - TWO51 + 1
  {
    Power51();
  }

  lemma SumEnd(s: nat)
    requires s < TWO255
    ensures Sum(s, 0) == 2 * s - (TWO255 - 1)
  {
    RowEnd(s, 0);
    RowEnd(s, 1);
    RowEnd(s, 2);
    RowEnd(s, 3);
    RowEnd(s, 4);
    ShiftZero(s);
    Power51();
    ShiftSmall(s, 255);
    hide Row, Shift, Pow2;
  }

  // ---------------------------------------------------------------------
  // The table index
  // ---------------------------------------------------------------------

  /** (teeth ^ (high - 1)) & 15, on ints */
  function Index(teeth: nat, high: nat): (index: nat)
    requires high <= 1
  {
    And(Xor(teeth, Bits32(high - 1)), 15)
  }

  lemma {:induction false} XorOnes(k: nat, a: nat)
    requires a < Pow2(k)
    ensures Xor(a, Pow2(k) - 1) == Pow2(k) - 1 - a
  {
    hide Bitwise, Pow2;
    if k == 0 {
      PowerStart();
      BitwiseNone(XOR);
    } else {
      PowerNext(k - 1);
      XorOnes(k - 1, a / 2);
      BitwiseHalf(XOR, a, Pow2(k) - 1);
    }
  }

  lemma IndexIs(low: nat, high: nat)
    requires low < 16 && high <= 1
    ensures Index(low + 16 * high, high) == if high == 1 then low else 15 - low
  {
    hide And, Xor;
    if high == 1 {
      XorZero(low + 16);
      LowNibble(low + 16);
    } else {
      FlippedBits(low);
      LowNibble(TWO32 - 1 - low);
      FlippedNibble(low);
    }
  }

  lemma XorZero(a: nat)
    ensures Xor(a, 0) == a
  {
    ZeroIdentity(XOR, a);
  }

  lemma FlippedNibble(low: nat)
    requires low < 16
    ensures (TWO32 - 1 - low) % 16 == 15 - low
  {
  }

  lemma FlippedBits(a: u32)
    ensures Xor(a, TWO32 - 1) == TWO32 - 1 - a
  {
    Pow2Values();
    hide Pow2, Xor;
    XorOnes(32, a);
  }

  lemma LowNibble(a: nat)
    ensures And(a, 15) == a % 16
  {
    Pow2Values();
    hide Pow2, And;
    AndOnes(4, a);
  }

  /** 1 & (((j ^ index) - 1) >> 8) */
  function Select(j: nat, index: nat): (select: int)
    requires j < 16 && index < 16
  {
    SmallXor(j, index);
    And32(1, (Xor(j, index) - 1) / 256)
  }

  lemma SmallXor(j: nat, index: nat)
    requires j < 16 && index < 16
    ensures Xor(j, index) < 16
    ensures Xor(j, index) == 0 <==> j == index
  {
    Pow2Values();
    BitwiseBound(XOR, 4, j, index);
    XorInvolution(j, index);
    ZeroIdentity(XOR, index);
    XorSelf(j);
  }

  lemma {:induction false} XorSelf(a: nat)
    ensures Xor(a, a) == 0
  {
    if a == 0 {
    } else {
      XorSelf(a / 2);
    }
  }

  lemma AndAllOnes(a: u32)
    ensures And(a, TWO32 - 1) == a
  {
    Pow2Values();
    hide Pow2, And;
    AndOnes(32, a);
  }

  lemma SelectIs(j: nat, index: nat)
    requires j < 16 && index < 16
    ensures Select(j, index) == if j == index then 1 else 0
  {
    SmallXor(j, index);
    AndZero(1);
    AndAllOnes(1);
    hide And, Xor;
  }

  /** Entry j of the comb table: the sign of tooth 4 is always positive. */
  ghost function Entry(j: nat): int {
    Teeth(Sign(Bit(j, 0)), Sign(Bit(j, 1)), Sign(Bit(j, 2)), Sign(Bit(j, 3)), 1)
  }

  lemma NibbleEntry(b0: nat, b1: nat, b2: nat, b3: nat)
    requires b0 < 2 && b1 < 2 && b2 < 2 && b3 < 2
    ensures Entry(b0 + 2 * b1 + 4 * b2 + 8 * b3) == Teeth(Sign(b0), Sign(b1), Sign(b2), Sign(b3), 1)
  {
    var j := b0 + 2 * b1 + 4 * b2 + 8 * b3;
    LowBits(j);
    Digits(b0, b1, b2, b3);
    hide Bit, Teeth;
  }

  lemma LowBits(j: nat)
    ensures Bit(j, 0) == j % 2 && Bit(j, 1) == j / 2 % 2 && Bit(j, 2) == j / 4 % 2 && Bit(j, 3) == j / 8 % 2
  {
    assert Pow2(0) == 1 && Pow2(1) == 2 && Pow2(2) == 4;
    SmallPowers();
    hide Pow2;
  }

  lemma Digits(b0: nat, b1: nat, b2: nat, b3: nat)
    requires b0 < 2 && b1 < 2 && b2 < 2 && b3 < 2
    ensures var j := b0 + 2 * b1 + 4 * b2 + 8 * b3;
            j % 2 == b0 && j / 2 % 2 == b1 && j / 4 % 2 == b2 && j / 8 % 2 == b3
  {
  }

  /** The table entry the teeth select, negated when the top tooth is clear, is what the teeth read. */
  lemma SelectedEntry(b0: nat, b1: nat, b2: nat, b3: nat, b4: nat, low: nat)
    requires b0 < 2 && b1 < 2 && b2 < 2 && b3 < 2 && b4 < 2
    requires low == b0 + 2 * b1 + 4 * b2 + 8 * b3
    ensures var index := Index(low + 16 * b4, b4);
            index < 16
            && Teeth(Sign(b0), Sign(b1), Sign(b2), Sign(b3), Sign(b4)) == if b4 == 1 then Entry(index) else -Entry(index)
  {
    hide Index, Entry, Teeth;
    IndexIs(low, b4);
    if b4 == 1 {
      NibbleEntry(b0, b1, b2, b3);
    } else {
      NibbleEntry(1 - b0, 1 - b1, 1 - b2, 1 - b3);
      NegatedTeeth(Sign(b0), Sign(b1), Sign(b2), Sign(b3));
    }
  }

  lemma NegatedTeeth(a0: int, a1: int, a2: int, a3: int)
    ensures Teeth(a0, a1, a2, a3, -1) == -Teeth(-a0, -a1, -a2, -a3, 1)
  {
  }

  lemma Halves(low: nat, b: nat)
    requires low < 16 && b < 2
    ensures (low + 16 * b) / 16 == b && (low + 16 * b) % 16 == low
  {
  }

  // ---------------------------------------------------------------------
  // ge_scalarmult_base
  // ---------------------------------------------------------------------

  /** A point cached for addition. */
  datatype Niels<F> = Niels(yp: F, ym: F, t2: F)

  /** Swapping yp with ym and negating t2 negates the point. */
  ghost predicate NegatedBySwap<F(!new), G(!new)>(g: Group<G>, neg: F -> F, point: Niels<F> -> G) {
    forall n :: point(Opposite(n, neg)) == g.neg(point(n))
  }

  function Opposite<F>(n: Niels<F>, neg: F -> F): Niels<F> {
    Niels(n.ym, n.yp, neg(n.t2))
  }

  ghost predicate CombTable<F(!new), G(!new)>(g: Group<G>, B: G, point: Niels<F> -> G, comb: seq<Niels<F>>) {
    |comb| == 16 && forall j :: 0 <= j < 16 ==> point(comb[j]) == g.Times(Entry(j), B)
  }

  /** The sixteen conditional copies. */
  method SelectEntry<F>(comb: seq<Niels<F>>, index: nat, initial: Niels<F>) returns (n: Niels<F>)
    requires |comb| == 16 && index < 16
    ensures n == comb[index]
  {
    n := initial;
    for j := 0 to 16
      invariant j > index ==> n == comb[index]
    {
      SelectIs(j, index);
      hide Select;
      var select := Select(j, index);
      if select == 1 { n := comb[j]; }
    }
  }

  /** The five bits at position i, as a number. */
  function ReadTeeth(s: seq<byte>, i: nat): (teeth: nat)
    requires |s| == 32 && i < 51
  {
    ScalarBit(s, i) + Scaled(ScalarBit(s, i + 51), 1) + Scaled(ScalarBit(s, i + 102), 2)
    + Scaled(ScalarBit(s, i + 153), 3) + Scaled(ScalarBit(s, i + 204), 4)
  }

  lemma TeethBits(s: seq<byte>, i: nat)
    requires |s| == 32 && i < 51
    ensures 0 <= LE(s)
    ensures ReadTeeth(s, i) == Bit(LE(s), i) + 2 * Bit(LE(s), i + 51) + 4 * Bit(LE(s), i + 102)
                               + 8 * Bit(LE(s), i + 153) + 16 * Bit(LE(s), i + 204)
  {
    ScalarBitIsBit(s, i);
    ScalarBitIsBit(s, i + 51);
    ScalarBitIsBit(s, i + 102);
    ScalarBitIsBit(s, i + 153);
    ScalarBitIsBit(s, i + 204);
    SmallPowers();
    assert Pow2(1) == 2 && Pow2(2) == 4;
    assert Pow2(4) == 16;
    hide LE, ScalarBit, Bit, Pow2;
  }

  /** Adds what the teeth read at position i. */
  method AddTeeth<F(!new), G(!new)>(g: Group<G>, ghost B: G, neg: F -> F, point: Niels<F> -> G, comb: seq<Niels<F>>,
                                    initial: Niels<F>, s: seq<byte>, i: nat, p: G) returns (r: G)
    requires g.Abelian() && NegatedBySwap(g, neg, point) && CombTable(g, B, point, comb)
    requires |s| == 32 && i < 51
    ensures 0 <= LE(s) && r == g.add(p, g.Times(Position(LE(s), i), B))
  {
    hide g.Abelian, ReadTeeth, Index, Entry, LE, Bit, Teeth;
    var teeth := ReadTeeth(s, i);
    TeethBits(s, i);
    ghost var k := LE(s);
    ghost var low := Bit(k, i) + 2 * Bit(k, i + 51) + 4 * Bit(k, i + 102) + 8 * Bit(k, i + 153);
    SelectedEntry(Bit(k, i), Bit(k, i + 51), Bit(k, i + 102), Bit(k, i + 153), Bit(k, i + 204), low);
    Halves(low, Bit(k, i + 204));
    var high := teeth / 16;
    var index := Index(teeth, high);
    var n := SelectEntry(comb, index, initial);
    if high == 1 {
      r := g.add(p, point(n));
    } else {
      assert point(Opposite(n, neg)) == g.neg(point(n));
      g.TimesNeg(Entry(index), B);
      r := g.add(p, point(Opposite(n, neg)));
    }
  }

  method ArrayOf(s: seq<byte>) returns (a: array<byte>)
    ensures fresh(a) && a[..] == s
  {
    a := new byte[|s|];
    for i := 0 to |s|
      invariant a[..i] == s[..i]
    {
      a[i] := s[i];
    }
  }

  /** All-bits-set form: the signed reading of s is the scalar modulo L. */
  method Recode(scalar: array<byte>) returns (s: seq<byte>)
    requires scalar.Length == 32
    ensures |s| == 32 && 0 <= LE(s) < TWO255
    ensures (2 * LE(s) - (TWO255 - 1)) % ORDER == LE(scalar[..]) % ORDER
  {
    hide LE, HalfModL, HalfOnes;
    var half := ArrayOf(HalfModL());
    var ones := ArrayOf(HalfOnes());
    var sScalar := new byte[32];
    WholeSlice(scalar);
    WholeSlice(half);
    WholeSlice(ones);
    MulAdd(sScalar, scalar, half, ones);
    WholeSlice(sScalar);
    s := sScalar[..];
    Recoded(LE(scalar[..]), LE(s));
  }

  lemma WholeSlice(a: array<byte>)
    requires a.Length == 32
    ensures a[..32] == a[..]
  {
  }

  /** [scalar]B, for any 32-byte scalar and a base point whose order divides L. */
  method ScalarmultBase<F(!new), G(!new)>(g: Group<G>, ghost B: G, neg: F -> F, point: Niels<F> -> G,
                                          comb: seq<Niels<F>>, initial: Niels<F>, scalar: array<byte>) returns (p: G)
    requires g.Abelian() && NegatedBySwap(g, neg, point) && CombTable(g, B, point, comb)
    requires g.Times(ORDER, B) == g.zero && scalar.Length == 32
    ensures p == g.Times(LE(scalar[..]), B)
  {
    hide *;
    var s := Recode(scalar);
    p := g.zero;
    SumStart(LE(s));
    g.TimesOne(B);
    for i := 51 downto 0
      invariant 0 <= LE(s) && |s| == 32 && p == g.Times(Sum(LE(s), i), B)
    {
      if i < 50 {
        p := g.add(p, p);
      }
      p := AddTeeth(g, B, neg, point, comb, initial, s, i, p);
      SumStep(LE(s), i);
      g.TimesAdd(Sum(LE(s), i + 1), Sum(LE(s), i + 1), B);
      g.TimesAdd(2 * Sum(LE(s), i + 1), Position(LE(s), i), B);
    }
    SumEnd(LE(s));
    SameMultiple(g, B, Sum(LE(s), 0), LE(scalar[..]));
  }

  lemma SameMultiple<G(!new)>(g: Group<G>, B: G, x: int, y: int)
    requires g.Abelian() && g.Times(ORDER, B) == g.zero && x % ORDER == y % ORDER
    ensures g.Times(x, B) == g.Times(y, B)
  {
    hide g.Abelian;
    g.TimesMod(x, ORDER, B);
    g.TimesMod(y, ORDER, B);
  }
}
