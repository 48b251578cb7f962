/** Signed sliding windows, left to right, and the double-and-add loop that is fused with them. */
module SlidingWindow {
  import opened Words
  import opened Bits
  import opened Scalars
  import opened Groups

  type i16 = x: int | -0x8000 <= x < 0x8000
  type i8 = x: int | -0x80 <= x < 0x80

  // ---------------------------------------------------------------------
  // Signed digits
  // ---------------------------------------------------------------------

  /** The weight of digit d at position i. */
  ghost function Place(d: int, i: nat): int {
    d * Pow2(i)
  }

  /** Bit i, with bit -1 read as 0. */
  ghost function BitAt(k: nat, i: int): nat {
    if i < 0 then 0 else Bit(k, i)
  }

  /** The sum over j >= i of (bit(j - 1) - bit(j)) * 2^(j - i), in closed form. */
  ghost function Upper(k: nat, i: nat): nat {
    Shift(k, i) + BitAt(k, i - 1)
  }

  /** The weight in k of all signed digits from position i up; all of k from position 0 up. */
  ghost function Weight(k: nat, i: nat): nat {
    Upper(k, i) * Pow2(i)
  }

  lemma WeightAll(k: nat)
    ensures Weight(k, 0) == k
  {
    ShiftZero(k);
  }

  lemma WeightNone(k: nat, i: nat)
    requires k < Pow2(i)
    ensures Weight(k, i + 1) == 0
  {
    ShiftSmall(k, i);
    ShiftSmall(k, i + 1);
  }

  /** Where two neighbouring bits agree the signed digit is 0. */
  lemma WeightEqualBits(k: nat, i: nat)
    requires BitAt(k, i) == BitAt(k, i - 1)
    ensures Weight(k, i) == Weight(k, i + 1)
  {
    UpperDoubles(k, i);
    PowDoubles(i);
    hide *;
    EqualProducts(Upper(k, i), Upper(k, i + 1), Pow2(i), Pow2(i + 1));
    WeightIs(k, i);
    WeightIs(k, i + 1);
  }

  lemma UpperDoubles(k: nat, i: nat)
    requires BitAt(k, i) == BitAt(k, i - 1)
    ensures Upper(k, i) == 2 * Upper(k, i + 1)
  {
    ShiftStep(k, i);
    hide Shift, Bit;
  }

  lemma PowDoubles(i: nat)
    ensures Pow2(i + 1) == 2 * Pow2(i)
  {
  }

  lemma EqualProducts(x: int, u: int, p: int, q: int)
    requires x == 2 * u && q == 2 * p
    ensures x * p == u * q
  {
    assert (2 * u) * p == u * (2 * p);
  }

  lemma WeightIs(k: nat, i: nat)
    ensures Weight(k, i) == Upper(k, i) * Pow2(i)
  {
  }

  /** The value of the window of w bits that ends at bit m. */
  ghost function WindowValue(k: nat, m: nat, w: nat): int {
    Upper(k, m) - Pow2(w) * Upper(k, m + w)
  }

  lemma WeightWindow(k: nat, m: nat, w: nat)
    ensures Weight(k, m) == Weight(k, m + w) + WindowValue(k, m, w) * Pow2(m)
  {
    Pow2Add(w, m);
    hide Upper, Pow2;
    ShiftedDifference(Upper(k, m), Upper(k, m + w), Pow2(w), Pow2(m));
  }

  lemma ShiftedDifference(l: int, u: int, a: int, b: int)
    ensures (l - a * u) * b == l * b - u * (a * b)
  {
    assert (a * u) * b == u * (a * b);
  }

  /** What the loop over j adds up to, and how large it can be. */
  lemma WindowDigits(k: nat, m: nat, w: nat)
    requires w >= 1
    ensures WindowValue(k, m, w) == Field(k, m, w - 1) + BitAt(k, m - 1) - Scaled(Bit(k, m + w - 1), w - 1)
    ensures -(Pow2(w - 1) as int) <= WindowValue(k, m, w) <= Pow2(w - 1)
  {
    FieldRange(k, m, w - 1);
    FieldStep(k, m, w - 1);
    assert Pow2(w) == 2 * Pow2(w - 1);
    hide Shift, Bit, Pow2;
    WindowAlgebra(Shift(k, m), BitAt(k, m - 1), Pow2(w), Shift(k, m + w), Bit(k, m + w - 1));
  }

  lemma WindowAlgebra(s: int, low: int, p: int, t: int, b: int)
    requires 0 <= b <= 1
    ensures s + low - p * (t + b) == (s - p * t) + low - (if b == 0 then 0 else p)
  {
  }

  /** A window opens where two bits differ, so its value is not zero. */
  lemma WindowNotZero(k: nat, m: nat, w: nat)
    requires w >= 1 && BitAt(k, m + w - 1) != BitAt(k, m + w - 2)
    ensures WindowValue(k, m, w) != 0
  {
    WindowDigits(k, m, w);
    if w >= 2 {
      FieldStep(k, m, w - 2);
      FieldRange(k, m, w - 2);
      assert Pow2(w - 1) == 2 * Pow2(w - 2);
    } else {
      FieldStep(k, m, 0);
    }
    hide Shift, Bit, Pow2, Field, WindowValue;
  }

  // ---------------------------------------------------------------------
  // The lowest set bit of a window
  // ---------------------------------------------------------------------

  /** How often 2 divides v. */
  ghost function Twos(v: int): nat
    requires v != 0
    decreases if v < 0 then -v else v
  {
    if v % 2 != 0 then 0 else 1 + Twos(v / 2)
  }

  /** v = 2^s * (2 * o + 1) */
  lemma {:induction false} TwosSplit(v: int) returns (o: int)
    requires v != 0
    ensures v == Pow2(Twos(v)) * (2 * o + 1)
    decreases if v < 0 then -v else v
  {
    if v % 2 != 0 {
      o := v / 2;
    } else {
      o := TwosSplit(v / 2);
      TwiceProduct(Pow2(Twos(v / 2)), 2 * o + 1);
    }
  }

  lemma TwiceProduct(p: int, x: int)
    ensures 2 * (p * x) == (2 * p) * x
  {
  }

  lemma {:induction false} TwosBound(v: int, n: nat)
    requires v != 0 && -(Pow2(n) as int) <= v <= Pow2(n)
    ensures Twos(v) <= n
    decreases n
  {
    if n == 0 {
      assert v == 1 || v == -1;
    } else if v % 2 == 0 {
      TwosBound(v / 2, n - 1);
    }
  }

  /** log2(lsb), as slide_step finds it with three masks. */
  function Log2(lsb: nat): (s: nat) {
    var b0 := if And(lsb, 0xAA) != 0 then 1 else 0;
    var b1 := if And(lsb, 0xCC) != 0 then 1 else 0;
    var b2 := if And(lsb, 0xF0) != 0 then 1 else 0;
    Or(Or(b0, b1 * 2), b2 * 4)
  }

  lemma Log2Is(s: nat)
    requires s < 8
    ensures Log2(Pow2(s)) == s
  {
    var b0, b1, b2 := MaskBits(s);
    hide *;
    Log2Bits(Pow2(s), b0, b1, b2);
  }

  lemma Log2Bits(lsb: nat, b0: nat, b1: nat, b2: nat)
    requires b0 < 2 && b1 < 2 && b2 < 2
    requires And(lsb, 0xAA) == 0 <==> b0 == 0
    requires And(lsb, 0xCC) == 0 <==> b1 == 0
    requires And(lsb, 0xF0) == 0 <==> b2 == 0
    ensures Log2(lsb) == b0 + 2 * b1 + 4 * b2
  {
    hide And, Or;
    ThreeBits(b0, b1, b2);
  }

  lemma MaskBits(s: nat) returns (b0: nat, b1: nat, b2: nat)
    requires s < 8
    ensures b0 < 2 && b1 < 2 && b2 < 2 && s == b0 + 2 * b1 + 4 * b2
    ensures And(Pow2(s), 0xAA) == 0 <==> b0 == 0
    ensures And(Pow2(s), 0xCC) == 0 <==> b1 == 0
    ensures And(Pow2(s), 0xF0) == 0 <==> b2 == 0
  {
    hide *;
    MaskPower(s, 0xAA);
    MaskPower(s, 0xCC);
    MaskPower(s, 0xF0);
    b0, b1, b2 := Masks(s);
  }

  lemma ThreeBits(b0: nat, b1: nat, b2: nat)
    requires b0 < 2 && b1 < 2
    ensures Or(Or(b0, b1 * 2), b2 * 4) == b0 + 2 * b1 + 4 * b2
  {
    assert Pow2(1) == 2 && Pow2(2) == 4;
    hide Bitwise, Pow2;
    OrDisjoint(1, b0, b1);
    OrDisjoint(2, b0 + 2 * b1, b2);
  }

  lemma MaskPower(s: nat, m: nat)
    ensures And(Pow2(s), m) == 0 <==> Bit(m, s) == 0
  {
    var p := Pow2(s);
    QuotientRest(m, p);
    AndZero(m % p);
    AndCommonOne(m / p);
    hide Pow2, Bitwise;
    BitwiseSplit(AND, s, 0, 1, m % p, m / p);
  }

  lemma QuotientRest(m: nat, p: nat)
    requires p > 0
    ensures m % p >= 0 && m / p >= 0 && m % p + p * (m / p) == m
    ensures p * (m / p % 2) == 0 <==> m / p % 2 == 0
  {
  }

  lemma AndCommonOne(a: nat)
    ensures And(1, a) == a % 2
  {
    AndZero(a / 2);
    BitwiseHalf(AND, 1, a);
  }

  lemma EightPowers(s: nat)
    requires s < 8
    ensures Pow2(s) == [1, 2, 4, 8, 16, 32, 64, 128][s]
  {
    assert Pow2(2) == 4;
    assert Pow2(4) == 16;
    assert Pow2(6) == 64;
    assert Pow2(7) == 128;
  }

  lemma Masks(s: nat) returns (b0: nat, b1: nat, b2: nat)
    requires s < 8
    ensures Bit(0xAA, s) == b0 && Bit(0xCC, s) == b1 && Bit(0xF0, s) == b2
    ensures b0 < 2 && b1 < 2 && b2 < 2 && s == b0 + 2 * b1 + 4 * b2
  {
    hide Pow2;
    EightPowers(s);
    b0, b1, b2 := Bit(0xAA, s), Bit(0xCC, s), Bit(0xF0, s);
  }

  // ---------------------------------------------------------------------
  // The digit of a window
  // ---------------------------------------------------------------------

  lemma {:induction false} Pow2Mono(a: nat, b: nat)
    requires a <= b
    ensures Pow2(a) <= Pow2(b)
  {
    if a == b {
    } else {
      Pow2Mono(a, b - 1);
    }
  }

  /** An odd number below 2^(width - 1), whose half indexes a table of 2^(width - 2) points. */
  ghost predicate SmallOdd(d: int, width: nat) {
    d % 2 == 1 && width >= 2 && -(Pow2(width - 1) as int) < d < Pow2(width - 1)
  }

  /** A window's value is its lowest bit times an odd digit that fits the table. */
  lemma WindowOdd(k: nat, m: nat, w: nat, width: nat) returns (v: int, s: nat, d: int)
    requires 1 <= w <= width && 2 <= width <= 8
    requires BitAt(k, m + w - 1) != BitAt(k, m + w - 2)
    ensures v == WindowValue(k, m, w) == Place(d, s) && s < w && SmallOdd(d, width)
    ensures -128 <= v <= 128
    ensures Log2(LowestBit(v)) == s
  {
    hide *;
    v := WindowValue(k, m, w);
    WindowNotZero(k, m, w);
    WindowDigits(k, m, w);
    SmallValue(v, w);
    s, d := LowestOdd(v, w);
    SmallDigit(v, d, w, width);
  }

  lemma LowestOdd(v: int, w: nat) returns (s: nat, d: int)
    requires v != 0 && 1 <= w <= 8 && -(Pow2(w - 1) as int) <= v <= Pow2(w - 1) && -128 <= v <= 128
    ensures v == Place(d, s) && s < w && d % 2 == 1 && (0 <= d <= v || v <= d <= 0)
    ensures Log2(LowestBit(v)) == s
  {
    hide Log2, LowestBit, Pow2, Twos;
    TwosBound(v, w - 1);
    s := Twos(v);
    var o := TwosSplit(v);
    d := 2 * o + 1;
    LowestBitIs(v, s, o);
    Log2Is(s);
    DivideBound(v, Pow2(s), d);
  }

  lemma SmallValue(v: int, w: nat)
    requires 1 <= w <= 8 && -(Pow2(w - 1) as int) <= v <= Pow2(w - 1)
    ensures -128 <= v <= 128
  {
    Pow2Values();
    Pow2Mono(w - 1, 7);
  }

  lemma SmallDigit(v: int, d: int, w: nat, width: nat)
    requires 1 <= w <= width && 2 <= width && d % 2 == 1
    requires (0 <= d <= v || v <= d <= 0) && -(Pow2(w - 1) as int) <= v <= Pow2(w - 1)
    ensures SmallOdd(d, width)
  {
    Pow2Mono(w - 1, width - 1);
    EvenPower(width - 1);
    hide Pow2;
    OddBelow(v, d, Pow2(w - 1), Pow2(width - 1));
  }

  lemma EvenPower(n: nat)
    requires n > 0
    ensures Pow2(n) % 2 == 0
  {
  }

  lemma OddBelow(v: int, d: int, q: int, e: int)
    requires d % 2 == 1 && (0 <= d <= v || v <= d <= 0) && -q <= v <= q <= e && e % 2 == 0
    ensures -e < d < e
  {
  }

  lemma DivideBound(v: int, p: int, d: int)
    requires v == p * d && p >= 1
    ensures 0 <= d <= v || v <= d <= 0
  {
    assert d >= 0 ==> (p - 1) * d >= 0;
    assert d <= 0 ==> (p - 1) * d <= 0;
  }

  /** The digit, at its position, stands for the whole window. */
  lemma WindowWeight(k: nat, m: nat, w: nat, s: nat, d: int)
    requires WindowValue(k, m, w) == Place(d, s)
    ensures Weight(k, m) == Weight(k, m + w) + Place(d, m + s)
  {
    WeightWindow(k, m, w);
    Pow2Add(s, m);
    hide Weight, WindowValue, Pow2;
    assert (d * Pow2(s)) * Pow2(m) == d * (Pow2(s) * Pow2(m));
  }

  lemma SmallQuotient(v: int, s: nat, d: int, width: nat)
    requires v == Place(d, s) && SmallOdd(d, width) && width <= 8
    ensures v / Pow2(s) == d && -128 <= d < 128
  {
    SmallValue(d, width);
    DivModUnique(v, Pow2(s), d, 0);
  }

  lemma ZeroPlace(i: nat)
    ensures Place(0, i) == 0
  {
  }

  lemma ShorterScalar(k: nat, i: nat)
    requires k < Pow2(i + 1) && Bit(k, i) == 0
    ensures k < Pow2(i)
  {
    ShiftStep(k, i);
    ShiftSmall(k, i + 1);
    assert k == Shift(k, i) * Pow2(i) + k % Pow2(i);
  }

  lemma ScalarBits(scalar: seq<byte>, i: int)
    requires |scalar| == 32 && -1 <= i < 256
    ensures 0 <= LE(scalar) && ScalarBit(scalar, i) == BitAt(LE(scalar), i)
    ensures i >= 0 ==> ScalarBit(scalar, i) == Bit(LE(scalar), i)
  {
    if i >= 0 { ScalarBitIsBit(scalar, i); } else { LEBound(scalar); }
  }

  /** v is the sum after j rounds of the loop of slide_step. */
  ghost predicate Summing(k: nat, m: nat, w: nat, j: nat, v: int)
    requires w >= 1
  {
    v == Field(k, m, j) - Scaled(Bit(k, m + w - 1), w - 1)
  }

  lemma SummingStart(scalar: seq<byte>, i: nat, w: nat)
    requires |scalar| == 32 && i <= 253 && 1 <= w <= i + 1
    ensures 0 <= LE(scalar) && Summing(LE(scalar), i + 1 - w, w, 0, 0 - Scaled(ScalarBit(scalar, i), w - 1))
  {
    ScalarBits(scalar, i);
    FieldStep(LE(scalar), i + 1 - w, 0);
    hide Field, LE, ScalarBit, Bit, Scaled;
  }

  lemma SummingStep(scalar: seq<byte>, i: nat, w: nat, j: nat, v: int)
    requires |scalar| == 32 && i <= 253 && 1 <= w <= i + 1 && j < w - 1
    requires 0 <= LE(scalar) && Summing(LE(scalar), i + 1 - w, w, j, v)
    ensures Summing(LE(scalar), i + 1 - w, w, j + 1, v + Scaled(ScalarBit(scalar, i - (w - 1) + j), j))
  {
    ScalarBits(scalar, i - (w - 1) + j);
    FieldStep(LE(scalar), i + 1 - w, j);
    hide Field, LE, ScalarBit, Bit, Scaled;
  }

  lemma SummingEnd(scalar: seq<byte>, i: nat, w: nat, v: int)
    requires |scalar| == 32 && i <= 253 && 1 <= w <= i + 1
    requires 0 <= LE(scalar) && Summing(LE(scalar), i + 1 - w, w, w - 1, v)
    ensures v + ScalarBit(scalar, i - w) == WindowValue(LE(scalar), i + 1 - w, w)
  {
    ScalarBits(scalar, i - w);
    WindowDigits(LE(scalar), i + 1 - w, w);
    hide Field, LE, ScalarBit, Bit, Scaled;
  }

  /** The value of the window of w bits whose top bit is bit i, as slide_step adds it up. */
  method WindowSum(scalar: seq<byte>, i: nat, w: nat) returns (v: int)
    requires |scalar| == 32 && i <= 253 && 1 <= w <= i + 1
    ensures 0 <= LE(scalar) && v == WindowValue(LE(scalar), i + 1 - w, w)
  {
    hide *;
    SummingStart(scalar, i, w);
    v := 0 - Scaled(ScalarBit(scalar, i), w - 1);
    for j := 0 to w - 1
      invariant Summing(LE(scalar), i + 1 - w, w, j, v)
    {
      SummingStep(scalar, i, w, j, v);
      v := v + Scaled(ScalarBit(scalar, i - (w - 1) + j), j);
    }
    SummingEnd(scalar, i, w, v);
    v := v + ScalarBit(scalar, i - w);
  }

  // ---------------------------------------------------------------------
  // slide_ctx
  // ---------------------------------------------------------------------

  class SlideCtx {
    var nextIndex: i16
    var nextDigit: i8
    var nextCheck: byte
    ghost var check: int  // nextCheck as it would be without wrapping around at -1

    /** Positions i and up have been visited and gave digits that weigh done in total; every digit
        position above check has been recoded, and at most one digit is still to come. */
    ghost predicate Covered(k: nat, width: nat, i: nat, done: int)
      reads this
    {
      && -1 <= check < i <= 254 && nextCheck == (check + 256) % 256
      && (Pending(i) ==> check < nextIndex && SmallOdd(nextDigit, width))
      && done + PendingWeight(i) == Weight(k, check + 1)
    }

    ghost predicate Pending(i: nat)
      reads this
    {
      0 <= nextIndex < i
    }

    ghost function PendingWeight(i: nat): int
      reads this
    {
      if Pending(i) then Place(nextDigit, nextIndex) else 0
    }

    constructor () {
      nextIndex, nextDigit, nextCheck := 0, 0, 0;
    }

    /** Nothing is recoded yet, and nothing weighs anything above the first check position. */
    ghost predicate Started(k: nat)
      reads this
    {
      nextIndex == -1 && 1 <= check == nextCheck <= 253 && Weight(k, check + 1) == 0
    }

    /** slide_init */
    method Init(scalar: seq<byte>)
      requires |scalar| == 32 && 0 <= LE(scalar) < Pow2(253)
      modifies this
      ensures Started(LE(scalar)) && 1 <= nextCheck <= 253
    {
      var i := 252;
      while i > 0 && ScalarBit(scalar, i) == 0
        invariant 0 <= i <= 252
        invariant LE(scalar) < Pow2(i + 1)
      {
        ScalarBitIsBit(scalar, i);
        ShorterScalar(LE(scalar), i);
        i := i - 1;
      }
      WeightNone(LE(scalar), i + 1);
      hide LE, Weight;
      nextCheck := i + 1;
      nextIndex := -1;
      nextDigit := -1;
      check := i + 1;
    }

    lemma StartedCovered(k: nat, width: nat, i: nat)
      requires Started(k) && nextCheck < i <= 254
      ensures Covered(k, width, i, 0)
    {
    }

    /** After position 0 the digits weigh as much as the scalar. */
    lemma Done(k: nat, width: nat, a: int)
      requires Covered(k, width, 0, Place(a, 0))
      ensures a == k
    {
      WeightAll(k);
    }

    /** At a check position below the top, where two bits agree: move the check down. */
    method SkipDigit(width: nat, i: nat, scalar: seq<byte>, ghost done: int)
      requires |scalar| == 32 && 0 <= LE(scalar) && i == nextCheck
      requires Covered(LE(scalar), width, i + 1, done)
      requires BitAt(LE(scalar), i) == BitAt(LE(scalar), i - 1)
      modifies this
      ensures Covered(LE(scalar), width, i + 1, done) && check < i
    {
      hide LE, BitAt, Weight;
      WeightEqualBits(LE(scalar), i);
      nextCheck := if nextCheck == 0 then 255 else nextCheck - 1;
      check := check - 1;
    }

    /** Where two bits differ: recode the next bits into one digit. */
    method OpenWindow(width: nat, i: nat, scalar: seq<byte>, ghost done: int)
      requires |scalar| == 32 && 0 <= LE(scalar) && i == nextCheck && 2 <= width <= 8
      requires Covered(LE(scalar), width, i + 1, done)
      requires BitAt(LE(scalar), i) != BitAt(LE(scalar), i - 1)
      modifies this
      ensures Covered(LE(scalar), width, i + 1, done) && check < i
    {
      hide LE, BitAt, Weight, WindowValue, Log2, LowestBit, SmallOdd, Place, Pow2;
      var w := if width < i + 1 then width else i + 1;
      ghost var value, twos, odd := WindowOdd(LE(scalar), i + 1 - w, w, width);
      WindowWeight(LE(scalar), i + 1 - w, w, twos, odd);
      var v := WindowSum(scalar, i, w);
      var s := Log2(LowestBit(v));
      SmallQuotient(v, s, odd, width);
      nextIndex := i - (w - 1) + s;
      nextDigit := v / Pow2(s);
      nextCheck := (nextCheck as int + 256 - w) % 256;
      check := check - w;
    }

    /** slide_step: one position further down. */
    method Step(width: nat, i: nat, scalar: seq<byte>, ghost done: int) returns (digit: int)
      requires 2 <= width <= 8 && i <= 253
      requires |scalar| == 32 && 0 <= LE(scalar) < Pow2(253)
      requires Covered(LE(scalar), width, i + 1, done)
      modifies this
      ensures Covered(LE(scalar), width, i, done + Place(digit, i))
      ensures digit == 0 || SmallOdd(digit, width)
    {
      ZeroPlace(i);
      hide LE, BitAt, Weight, SmallOdd, ScalarBit, Pow2, Place;
      if i == nextCheck {
        ScalarBits(scalar, i);
        ScalarBits(scalar, i - 1);
        if ScalarBit(scalar, i) == ScalarBit(scalar, i - 1) {
          SkipDigit(width, i, scalar, done);
        } else {
          OpenWindow(width, i, scalar, done);
        }
      }
      digit := if i == nextIndex then nextDigit else 0;
    }
  }

  // ---------------------------------------------------------------------
  // ge_double_scalarmult_vartime
  // ---------------------------------------------------------------------

  /** Entry j of a window table is the multiple by 2j + 1. */
  ghost predicate OddMultiples<G(!new)>(g: Group<G>, point: G, table: seq<G>) {
    forall j :: 0 <= j < |table| ==> table[j] == g.Times(2 * j + 1, point)
  }

  /** The table of P, [3]P, [5]P and so on. */
  method CacheWindow<G(!new)>(g: Group<G>, point: G, size: nat) returns (table: seq<G>)
    requires g.Abelian() && size >= 1
    ensures |table| == size && OddMultiples(g, point, table)
  {
    hide g.Abelian;
    var twice := g.add(point, point);
    g.TimesOne(point);
    table := [point];
    for i := 0 to size - 1
      invariant |table| == i + 1 && OddMultiples(g, point, table)
    {
      g.TimesAdd(2, 2 * i + 1, point);
      table := table + [g.add(twice, table[i])];
    }
  }

  lemma TableEntry<G(!new)>(g: Group<G>, point: G, table: seq<G>, digit: nat, width: nat)
    requires OddMultiples(g, point, table)
    requires 2 <= width && |table| == Pow2(width - 2) && SmallOdd(digit, width)
    ensures digit / 2 < |table| && table[digit / 2] == g.Times(digit, point)
  {
    assert Pow2(width - 1) == 2 * Pow2(width - 2);
    assert 2 * (digit / 2) + 1 == digit;
  }

  lemma NegatedOdd(digit: int, width: nat)
    requires SmallOdd(digit, width)
    ensures SmallOdd(-digit, width)
  {
  }

  /** Adds the digit's multiple of the table's point; a zero digit adds nothing. */
  method AddDigit<G(!new)>(g: Group<G>, sum: G, table: seq<G>, digit: int, width: nat, ghost point: G)
    returns (r: G)
    requires g.Abelian() && OddMultiples(g, point, table)
    requires 2 <= width && |table| == Pow2(width - 2) && (digit == 0 || SmallOdd(digit, width))
    ensures r == g.add(sum, g.Times(digit, point))
  {
    hide *;
    r := sum;
    if digit > 0 {
      TableEntry(g, point, table, digit, width);
      r := g.add(sum, table[digit / 2]);
    } else if digit < 0 {
      NegatedOdd(digit, width);
      TableEntry(g, point, table, -digit, width);
      g.TimesNeg(-digit, point);
      r := g.add(sum, g.neg(table[-digit / 2]));
    } else {
      g.TimesOne(point);
      g.Zero(sum);
    }
  }

  ghost predicate Inputs<G(!new)>(g: Group<G>, P: G, B: G, p: seq<byte>, b: seq<byte>, cP: seq<G>, window: seq<G>) {
    && g.Abelian() && OddMultiples(g, P, cP) && |cP| == Pow2(1) && OddMultiples(g, B, window) && |window| == Pow2(3)
    && |p| == 32 && |b| == 32 && 0 <= LE(p) < Pow2(253) && 0 <= LE(b) < Pow2(253)
  }

  /** The sum after positions i and up, and the two recodings. */
  ghost predicate Running<G(!new)>(g: Group<G>, P: G, B: G, p: seq<byte>, b: seq<byte>, pSlide: SlideCtx,
                                   bSlide: SlideCtx, i: nat, sum: G, ap: int, ab: int)
    reads pSlide, bSlide
  {
    && 0 <= LE(p) && 0 <= LE(b) && pSlide != bSlide && sum == g.add(g.Times(ap, P), g.Times(ab, B))
    && pSlide.Covered(LE(p), 3, i, Place(ap, i)) && bSlide.Covered(LE(b), 5, i, Place(ab, i))
  }

  /** One round: double, and add what the two recodings give at position i. */
  method Round<G(!new)>(g: Group<G>, ghost P: G, ghost B: G, p: seq<byte>, b: seq<byte>, cP: seq<G>, window: seq<G>,
                        pSlide: SlideCtx, bSlide: SlideCtx, i: nat, sum: G, ghost ap: int, ghost ab: int)
    returns (r: G, ghost np: int, ghost nb: int)
    requires Inputs(g, P, B, p, b, cP, window) && i <= 253
    requires Running(g, P, B, p, b, pSlide, bSlide, i + 1, sum, ap, ab)
    modifies pSlide, bSlide
    ensures Running(g, P, B, p, b, pSlide, bSlide, i, r, np, nb)
  {
    hide g.Abelian, OddMultiples, LE, Pow2, SlideCtx.Covered, Place, SmallOdd;
    r := g.add(sum, sum);
    var pDigit := pSlide.Step(3, i, p, Place(ap, i + 1));
    var bDigit := bSlide.Step(5, i, b, Place(ab, i + 1));
    NextPlace(ap, pDigit, i);
    NextPlace(ab, bDigit, i);
    r := AddDigit(g, r, cP, pDigit, 3, P);
    r := AddDigit(g, r, window, bDigit, 5, B);
    CombineDigits(g, P, B, ap, ab, pDigit, bDigit);
    np, nb := 2 * ap + pDigit, 2 * ab + bDigit;
  }

  /** [p]P + [b]B, with the window of P made here and that of B given. */
  method DoubleScalarmult<G(!new)>(g: Group<G>, P: G, B: G, p: seq<byte>, b: seq<byte>, window: seq<G>)
    returns (sum: G)
    requires g.Abelian() && |window| == 8 && OddMultiples(g, B, window)
    requires |p| == 32 && |b| == 32 && 0 <= LE(p) < Pow2(253) && 0 <= LE(b) < Pow2(253)
    ensures sum == g.add(g.Times(LE(p), P), g.Times(LE(b), B))
  {
    hide *;
    var cP := CacheWindow(g, P, 2);
    InputsHold(g, P, B, p, b, cP, window);
    var pSlide := new SlideCtx();
    pSlide.Init(p);
    var bSlide := new SlideCtx();
    bSlide.Init(b);
    var start: int := if pSlide.nextCheck > bSlide.nextCheck then pSlide.nextCheck else bSlide.nextCheck;
    sum := g.zero;
    StartRunning(g, P, B, p, b, pSlide, bSlide, start + 1);
    ghost var ap, ab := 0, 0;
    for i := start + 1 downto 0
      invariant Running(g, P, B, p, b, pSlide, bSlide, i, sum, ap, ab)
    {
      sum, ap, ab := Round(g, P, B, p, b, cP, window, pSlide, bSlide, i, sum, ap, ab);
    }
    FinishRunning(g, P, B, p, b, pSlide, bSlide, sum, ap, ab);
  }

  lemma InputsHold<G(!new)>(g: Group<G>, P: G, B: G, p: seq<byte>, b: seq<byte>, cP: seq<G>, window: seq<G>)
    requires g.Abelian() && |window| == 8 && OddMultiples(g, B, window) && |cP| == 2 && OddMultiples(g, P, cP)
    requires |p| == 32 && |b| == 32 && 0 <= LE(p) < Pow2(253) && 0 <= LE(b) < Pow2(253)
    ensures Inputs(g, P, B, p, b, cP, window)
  {
    TableSizes();
    hide g.Abelian, OddMultiples, LE, Pow2;
  }

  lemma StartRunning<G(!new)>(g: Group<G>, P: G, B: G, p: seq<byte>, b: seq<byte>, pSlide: SlideCtx, bSlide: SlideCtx,
                              i: nat)
    requires g.Abelian() && pSlide != bSlide && 0 <= LE(p) && 0 <= LE(b)
    requires pSlide.Started(LE(p)) && bSlide.Started(LE(b))
    requires pSlide.nextCheck < i && bSlide.nextCheck < i && i <= 254
    ensures Running(g, P, B, p, b, pSlide, bSlide, i, g.zero, 0, 0)
  {
    ZeroPlace(i);
    StartSum(g, P, B);
    hide g.Abelian, LE, SlideCtx.Covered, SlideCtx.Started;
    pSlide.StartedCovered(LE(p), 3, i);
    bSlide.StartedCovered(LE(b), 5, i);
  }

  lemma FinishRunning<G(!new)>(g: Group<G>, P: G, B: G, p: seq<byte>, b: seq<byte>, pSlide: SlideCtx, bSlide: SlideCtx,
                               sum: G, ap: int, ab: int)
    requires Running(g, P, B, p, b, pSlide, bSlide, 0, sum, ap, ab)
    ensures sum == g.add(g.Times(LE(p), P), g.Times(LE(b), B))
  {
    hide SlideCtx.Covered, LE;
    pSlide.Done(LE(p), 3, ap);
    bSlide.Done(LE(b), 5, ab);
  }

  lemma TableSizes()
    ensures Pow2(1) == 2 && Pow2(3) == 8
  {
  }

  lemma StartSum<G(!new)>(g: Group<G>, P: G, B: G)
    requires g.Abelian()
    ensures g.zero == g.add(g.Times(0, P), g.Times(0, B))
  {
    g.TimesOne(P);
    g.TimesOne(B);
    g.Zero(g.zero);
  }

  lemma NextPlace(a: int, d: int, i: nat)
    ensures Place(2 * a + d, i) == Place(a, i + 1) + Place(d, i)
  {
    var p := Pow2(i);
    assert a * (2 * p) == (2 * a) * p;
  }

  lemma CombineDigits<G(!new)>(g: Group<G>, P: G, B: G, a: int, b: int, d: int, e: int)
    requires g.Abelian()
    ensures var sum := g.add(g.Times(a, P), g.Times(b, B));
            g.add(g.add(g.add(sum, sum), g.Times(d, P)), g.Times(e, B))
            == g.add(g.Times(2 * a + d, P), g.Times(2 * b + e, B))
  {
    hide *;
    var x, y, p, q := g.Times(a, P), g.Times(b, B), g.Times(d, P), g.Times(e, B);
    g.Exchange(x, y, x, y);
    g.TimesAdd(a, a, P);
    g.TimesAdd(b, b, B);
    g.Assoc(g.add(g.add(x, y), g.add(x, y)), p, q);
    g.Exchange(g.Times(2 * a, P), g.Times(2 * b, B), p, q);
    g.TimesAdd(2 * a, d, P);
    g.TimesAdd(2 * b, e, B);
  }
}
