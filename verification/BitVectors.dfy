/** The 32-bit words of the model and Dafny's bit vectors: sums, exclusive or and rotations agree. */
module BitVectors {
  import opened Words
  import opened Bits
  import opened Scalars

  // ---------------------------------------------------------------------
  // The number a bit vector stands for
  // ---------------------------------------------------------------------

  function Number(p: bv32): (n: u32) { p as int }

  function Low(p: bv32): (b: bv32) { p & 1 }
  function Rest(p: bv32): (h: bv32) { p >> 1 }

  function Byte3(p: bv32): (b: bv32) { p >> 24 }
  function Byte2(p: bv32): (b: bv32) { (p >> 16) & 0xff }
  function Byte1(p: bv32): (b: bv32) { (p >> 8) & 0xff }
  function Byte0(p: bv32): (b: bv32) { p & 0xff }
  function Low24(p: bv32): (r: bv32) { p & 0xff_ffff }
  function Low16(p: bv32): (r: bv32) { p & 0xffff }

  /** The byte b one place down, with the lowest bit of the byte c on top. */
  function Shifted(b: bv32, c: bv32): (s: bv32) { (b >> 1) | ((c & 1) << 7) }

  lemma TopByte(p: bv32)
    ensures Number(p) == 0x100_0000 * Number(Byte3(p)) + Number(Low24(p))
  {
  }

  lemma MiddleByte(p: bv32)
    requires p < 0x100_0000
    ensures Number(p) == 0x1_0000 * Number(Byte2(p)) + Number(Low16(p))
  {
  }

  lemma LowBytes(p: bv32)
    requires p < 0x1_0000
    ensures Number(p) == 0x100 * Number(Byte1(p)) + Number(Byte0(p))
  {
  }

  lemma SplitBytes(p: bv32)
    ensures Byte2(Low24(p)) == Byte2(p) && Low16(Low24(p)) == Low16(p)
    ensures Byte1(Low16(p)) == Byte1(p) && Byte0(Low16(p)) == Byte0(p)
    ensures Low24(p) < 0x100_0000 && Low16(p) < 0x1_0000
  {
  }

  lemma FourBytes(p: bv32)
    ensures Number(p) == 0x100_0000 * Number(Byte3(p)) + 0x1_0000 * Number(Byte2(p)) + 0x100 * Number(Byte1(p))
                         + Number(Byte0(p))
  {
    hide *;
    TopByte(p);
    SplitBytes(p);
    MiddleByte(Low24(p));
    LowBytes(Low16(p));
  }

  lemma HalfByte(b: bv32)
    requires b < 0x100
    ensures Number(b) == 2 * Number(Rest(b)) + Number(Low(b))
  {
  }

  lemma ShiftedByte(b: bv32, c: bv32)
    requires b < 0x100
    ensures Number(Shifted(b, c)) == Number(Rest(b)) + 128 * Number(Low(c))
  {
  }

  lemma HalfBytes(p: bv32)
    ensures Byte3(Rest(p)) == Rest(Byte3(p)) && Byte2(Rest(p)) == Shifted(Byte2(p), Byte3(p))
    ensures Byte1(Rest(p)) == Shifted(Byte1(p), Byte2(p)) && Byte0(Rest(p)) == Shifted(Byte0(p), Byte1(p))
    ensures Low(Byte0(p)) == Low(p)
    ensures Byte3(p) < 0x100 && Byte2(p) < 0x100 && Byte1(p) < 0x100 && Byte0(p) < 0x100
  {
  }

  lemma Half(p: bv32)
    ensures Number(p) == 2 * Number(Rest(p)) + Number(Low(p))
  {
    hide *;
    FourBytes(p);
    FourBytes(Rest(p));
    HalfBytes(p);
    HalfByte(Byte3(p));
    HalfByte(Byte2(p));
    HalfByte(Byte1(p));
    HalfByte(Byte0(p));
    ShiftedByte(Byte2(p), Byte3(p));
    ShiftedByte(Byte1(p), Byte2(p));
    ShiftedByte(Byte0(p), Byte1(p));
  }

  lemma LowIs(p: bv32)
    ensures Number(Low(p)) == if Low(p) == 0 then 0 else 1
    ensures Low(p) < 2 && Rest(p) < 0x8000_0000
  {
  }

  lemma HalfNumber(p: bv32)
    ensures Number(p) / 2 == Number(Rest(p)) && Number(p) % 2 == Number(Low(p)) < 2
  {
    hide Number, Low, Rest;
    Half(p);
    LowIs(p);
  }

  lemma Nothing()
    ensures Number(0) == 0 && Number(1) == 1
  {
  }

  lemma SameNumber(p: bv32, q: bv32)
    requires Number(p) == Number(q)
    ensures p == q
  {
    assert (p as int) as bv32 == p && (q as int) as bv32 == q;
  }

  // ---------------------------------------------------------------------
  // Exclusive or
  // ---------------------------------------------------------------------

  function XorVector(p: bv32, q: bv32): (r: bv32) { p ^ q }

  lemma XorParts(p: bv32, q: bv32)
    ensures Rest(XorVector(p, q)) == XorVector(Rest(p), Rest(q))
    ensures Number(Low(XorVector(p, q))) == if Number(Low(p)) == Number(Low(q)) then 0 else 1
  {
  }

  lemma XorHalves(a: nat, b: nat)
    ensures Xor(a, b) == 2 * Xor(a / 2, b / 2) + (if a % 2 == b % 2 then 0 else 1)
  {
    BitwiseHalf(XOR, a, b);
  }

  lemma XorNone()
    ensures Number(XorVector(0, 0)) == 0 && Xor(0, 0) == 0
  {
  }

  lemma XorStep(p: bv32, q: bv32)
    requires Xor(Number(Rest(p)), Number(Rest(q))) == Number(XorVector(Rest(p), Rest(q)))
    ensures Xor(Number(p), Number(q)) == Number(XorVector(p, q))
  {
    hide *;
    HalfNumber(p);
    HalfNumber(q);
    HalfNumber(XorVector(p, q));
    XorParts(p, q);
    XorHalves(Number(p), Number(q));
  }

  lemma RestSmaller(p: bv32)
    ensures Number(Rest(p)) <= Number(p) && (Number(p) > 0 ==> Number(Rest(p)) < Number(p))
  {
    HalfNumber(p);
    hide Number, Rest;
  }

  lemma {:induction false} XorIs(p: bv32, q: bv32)
    ensures Xor(Number(p), Number(q)) == Number(XorVector(p, q))
    decreases Number(p) + Number(q)
  {
    hide *;
    if Number(p) == 0 && Number(q) == 0 {
      Nothing();
      SameNumber(p, 0);
      SameNumber(q, 0);
      XorNone();
    } else {
      RestSmaller(p);
      RestSmaller(q);
      XorIs(Rest(p), Rest(q));
      XorStep(p, q);
    }
  }

  // ---------------------------------------------------------------------
  // Sums
  // ---------------------------------------------------------------------

  function Next(p: bv32): (q: bv32) { p + 1 }
  function SumVector(p: bv32, q: bv32): (r: bv32) { p + q }
  function Before(p: bv32): (q: bv32) { p - 1 }

  const LAST: bv32 := 0xffff_ffff

  lemma EvenNext(p: bv32)
    requires Low(p) == 0
    ensures Rest(Next(p)) == Rest(p) && Low(Next(p)) == 1
  {
  }

  lemma OddNext(p: bv32)
    requires Low(p) != 0 && p != LAST
    ensures Rest(Next(p)) == Next(Rest(p)) && Rest(p) != LAST && Low(Next(p)) == 0 && Low(p) == 1
  {
  }

  lemma LastNext()
    ensures Number(LAST) == 0xffff_ffff && Next(LAST) == 0
  {
  }

  lemma {:induction false} NextIs(p: bv32)
    requires p != LAST
    ensures Number(Next(p)) == Number(p) + 1
    decreases Number(p)
  {
    hide *;
    Nothing();
    Half(p);
    Half(Next(p));
    if Low(p) == 0 {
      EvenNext(p);
    } else {
      OddNext(p);
      NextIs(Rest(p));
    }
  }

  lemma SumSteps(p: bv32, q: bv32)
    ensures SumVector(p, 0) == p
    ensures SumVector(Next(p), Before(q)) == SumVector(p, q) && Next(Before(q)) == q
    ensures q != 0 ==> Before(q) != LAST
  {
  }

  /** Addition of bit vectors is addition modulo 2^32. */
  lemma {:induction false} SumIs(p: bv32, q: bv32)
    ensures Number(SumVector(p, q)) == (Number(p) as int + Number(q)) % 0x1_0000_0000
    decreases Number(q)
  {
    hide *;
    Nothing();
    SumSteps(p, q);
    if q != 0 {
      NextIs(Before(q));
      if p == LAST { LastNext(); } else { NextIs(p); }
      SumIs(Next(p), Before(q));
    }
  }

  // ---------------------------------------------------------------------
  // Shifts and rotations
  // ---------------------------------------------------------------------

  function LeftBy(p: bv32, n: nat): (q: bv32) {
    if n == 0 then p else SumVector(LeftBy(p, n - 1), LeftBy(p, n - 1))
  }

  function RightBy(p: bv32, n: nat): (q: bv32) {
    if n == 0 then p else Rest(RightBy(p, n - 1))
  }

  lemma DoubleMod(x: nat, a: nat, y: nat)
    requires y == x * a % 0x1_0000_0000
    ensures (y + y) % 0x1_0000_0000 == x * (2 * a) % 0x1_0000_0000
  {
    ModMul(2, x * a, 0x1_0000_0000);
    assert 2 * (x * a) == x * (2 * a);
  }

  lemma {:induction false} LeftByIs(p: bv32, n: nat)
    ensures Number(LeftBy(p, n)) == Shl32(Number(p), n)
  {
    hide Number, SumVector;
    if n == 0 {
    } else {
      LeftByIs(p, n - 1);
      SumIs(LeftBy(p, n - 1), LeftBy(p, n - 1));
      DoubleMod(Number(p), Pow2(n - 1), Number(LeftBy(p, n - 1)));
    }
  }

  lemma {:induction false} RightByIs(p: bv32, n: nat)
    ensures Number(RightBy(p, n)) == Shr32(Number(p), n)
  {
    hide Number, Rest;
    if n == 0 {
    } else {
      RightByIs(p, n - 1);
      HalfNumber(RightBy(p, n - 1));
      ShrBound(Number(p), Pow2(n - 1));
      DivDiv(Number(p), Pow2(n - 1), 2);
    }
  }

  lemma {:induction false} LeftByAdd(p: bv32, a: nat, b: nat)
    ensures LeftBy(p, a + b) == LeftBy(LeftBy(p, a), b)
  {
    hide SumVector;
    if b == 0 {
    } else {
      LeftByAdd(p, a, b - 1);
    }
  }

  lemma {:induction false} RightByAdd(p: bv32, a: nat, b: nat)
    ensures RightBy(p, a + b) == RightBy(RightBy(p, a), b)
  {
    hide Rest;
    if b == 0 {
    } else {
      RightByAdd(p, a, b - 1);
    }
  }

  function Left1(p: bv32): (q: bv32) { p << 1 }
  function Left2(p: bv32): (q: bv32) { Left1(Left1(p)) }
  function Left4(p: bv32): (q: bv32) { Left2(Left2(p)) }
  function Left8(p: bv32): (q: bv32) { Left4(Left4(p)) }
  function Left16(p: bv32): (q: bv32) { Left8(Left8(p)) }
  function Right1(p: bv32): (q: bv32) { p >> 1 }
  function Right2(p: bv32): (q: bv32) { Right1(Right1(p)) }
  function Right4(p: bv32): (q: bv32) { Right2(Right2(p)) }
  function Right8(p: bv32): (q: bv32) { Right4(Right4(p)) }
  function Right16(p: bv32): (q: bv32) { Right8(Right8(p)) }

  lemma ShiftDoubles(p: bv32)
    ensures Left1(p) == SumVector(p, p) && Right1(p) == Rest(p)
  {
  }

  lemma ShiftOne(p: bv32)
    ensures LeftBy(p, 1) == Left1(p) && RightBy(p, 1) == Right1(p)
  {
    assert LeftBy(p, 0) == p && RightBy(p, 0) == p;
    ShiftDoubles(p);
    hide SumVector, Rest, Left1, Right1;
  }

  lemma ShiftTwo(p: bv32)
    ensures LeftBy(p, 2) == Left2(p) && RightBy(p, 2) == Right2(p)
  {
    hide LeftBy, RightBy, Left1, Right1;
    LeftByAdd(p, 1, 1);
    RightByAdd(p, 1, 1);
    ShiftOne(p);
    ShiftOne(Left1(p));
    ShiftOne(Right1(p));
  }

  lemma ShiftFour(p: bv32)
    ensures LeftBy(p, 4) == Left4(p) && RightBy(p, 4) == Right4(p)
  {
    hide LeftBy, RightBy, Left2, Right2;
    LeftByAdd(p, 2, 2);
    RightByAdd(p, 2, 2);
    ShiftTwo(p);
    ShiftTwo(Left2(p));
    ShiftTwo(Right2(p));
  }

  lemma ShiftEight(p: bv32)
    ensures LeftBy(p, 8) == Left8(p) && RightBy(p, 8) == Right8(p)
  {
    hide LeftBy, RightBy, Left4, Right4;
    LeftByAdd(p, 4, 4);
    RightByAdd(p, 4, 4);
    ShiftFour(p);
    ShiftFour(Left4(p));
    ShiftFour(Right4(p));
  }

  lemma ShiftSixteen(p: bv32)
    ensures LeftBy(p, 16) == Left16(p) && RightBy(p, 16) == Right16(p)
  {
    hide LeftBy, RightBy, Left8, Right8;
    LeftByAdd(p, 8, 8);
    RightByAdd(p, 8, 8);
    ShiftEight(p);
    ShiftEight(Left8(p));
    ShiftEight(Right8(p));
  }

  function Turn16(p: bv32): (q: bv32) { p.RotateLeft(16) }
  function Turn12(p: bv32): (q: bv32) { p.RotateLeft(12) }
  function Turn8(p: bv32): (q: bv32) { p.RotateLeft(8) }
  function Turn7(p: bv32): (q: bv32) { p.RotateLeft(7) }

  lemma Rotate16(p: bv32)
    ensures XorVector(Left16(p), Right16(p)) == Turn16(p)
  {
  }

  lemma Rotate12(p: bv32)
    ensures XorVector(Left4(Left8(p)), Right4(Right16(p))) == Turn12(p)
  {
  }

  lemma Rotate8(p: bv32)
    ensures XorVector(Left8(p), Right8(Right16(p))) == Turn8(p)
  {
  }

  lemma Rotate7(p: bv32)
    ensures XorVector(Left1(Left2(Left4(p))), Right1(Right8(Right16(p)))) == Turn7(p)
  {
  }

  /** The word of a number, digit by digit. */
  function Vector(x: u32): (p: bv32)
    ensures Number(p) == x
  {
    if x == 0 then Nothing(); 0
    else
      var h := Vector(x / 2);
      VectorSum(h, x);
      SumVector(SumVector(h, h), if x % 2 == 0 then 0 else 1)
  }

  lemma VectorSum(h: bv32, x: u32)
    requires Number(h) == x / 2
    ensures Number(SumVector(SumVector(h, h), if x % 2 == 0 then 0 else 1)) == x
  {
    hide *;
    Nothing();
    SumIs(h, h);
    SumIs(SumVector(h, h), if x % 2 == 0 then 0 else 1);
  }
}
