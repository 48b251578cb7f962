/** The fe_* functions of Monocypher on arrays of ten limbs, which may be the same array. */
module FieldElement {
  import opened Words
  import opened Bits
  import opened Field25519

  /** The field element in an array, reduced modulo 2^255 - 19. */
  ghost function Elem(a: array<i32>): (v: int)
    reads a
    ensures 0 <= v < PRIME
  {
    if a.Length == 10 then Value(a[0], a[1], a[2], a[3], a[4], a[5], a[6], a[7], a[8], a[9]) % PRIME else 0
  }

  // The field operations on reduced integers.

  function Plus(x: int, y: int): int { (x + y) % PRIME }
  function Minus(x: int, y: int): int { (x - y) % PRIME }
  function Mul(x: int, y: int): int { x * y % PRIME }

  /** What the carry chains leave behind. */
  ghost predicate Tight(a: array<i32>)
    reads a
  {
    a.Length == 10 && Reduced(a[0], a[1], a[2], a[3], a[4], a[5], a[6], a[7], a[8], a[9])
  }

  /** What one addition or subtraction of tight elements leaves behind. */
  ghost predicate Loose(a: array<i32>)
    reads a
  {
    a.Length == 10 && LooseLimbs(a[0], a[1], a[2], a[3], a[4], a[5], a[6], a[7], a[8], a[9])
  }

  ghost predicate LooseLimbs(f0: int, f1: int, f2: int, f3: int, f4: int, f5: int, f6: int, f7: int, f8: int, f9: int) {
    && Near(f0, 2 * REDUCED_EVEN) && Near(f1, 2 * REDUCED_ODD) && Near(f2, 2 * REDUCED_EVEN)
    && Near(f3, 2 * REDUCED_ODD) && Near(f4, 2 * REDUCED_EVEN) && Near(f5, 2 * REDUCED_ODD)
    && Near(f6, 2 * REDUCED_EVEN) && Near(f7, 2 * REDUCED_ODD) && Near(f8, 2 * REDUCED_EVEN)
    && Near(f9, 2 * REDUCED_ODD)
  }

  predicate Near(x: int, bound: int) {
    -bound <= x <= bound
  }

  lemma TightIsLoose(a: array<i32>)
    requires Tight(a)
    ensures Loose(a)
  {
  }

  method Store(h: array<i32>, h0: i32, h1: i32, h2: i32, h3: i32, h4: i32, h5: i32, h6: i32, h7: i32, h8: i32, h9: i32)
    requires h.Length == 10
    modifies h
    ensures h[0] == h0 && h[1] == h1 && h[2] == h2 && h[3] == h3 && h[4] == h4
    ensures h[5] == h5 && h[6] == h6 && h[7] == h7 && h[8] == h8 && h[9] == h9
  {
    h[0], h[1], h[2], h[3], h[4], h[5], h[6], h[7], h[8], h[9] := h0, h1, h2, h3, h4, h5, h6, h7, h8, h9;
  }

  method FeMul(h: array<i32>, f: array<i32>, g: array<i32>)
    requires Loose(f) && Loose(g) && h.Length == 10
    modifies h
    ensures Tight(h)
    ensures Elem(h) == Mul(old(Elem(f)), old(Elem(g)))
  {
    hide Value, Reduced;
    var h0, h1, h2, h3, h4, h5, h6, h7, h8, h9 :=
      MulLimbs(f[0], f[1], f[2], f[3], f[4], f[5], f[6], f[7], f[8], f[9],
               g[0], g[1], g[2], g[3], g[4], g[5], g[6], g[7], g[8], g[9]);
    ModMul(Value(f[0], f[1], f[2], f[3], f[4], f[5], f[6], f[7], f[8], f[9]),
           Value(g[0], g[1], g[2], g[3], g[4], g[5], g[6], g[7], g[8], g[9]), PRIME);
    Store(h, h0, h1, h2, h3, h4, h5, h6, h7, h8, h9);
  }

  method FeSq(h: array<i32>, f: array<i32>)
    requires Loose(f) && h.Length == 10
    modifies h
    ensures Tight(h)
    ensures Elem(h) == Mul(old(Elem(f)), old(Elem(f)))
  {
    hide Value, Reduced;
    var h0, h1, h2, h3, h4, h5, h6, h7, h8, h9 :=
      SqLimbs(f[0], f[1], f[2], f[3], f[4], f[5], f[6], f[7], f[8], f[9]);
    ghost var v := Value(f[0], f[1], f[2], f[3], f[4], f[5], f[6], f[7], f[8], f[9]);
    ModMul(v, v, PRIME);
    Store(h, h0, h1, h2, h3, h4, h5, h6, h7, h8, h9);
  }

  method FeMulSmall(h: array<i32>, f: array<i32>, g: i32)
    requires Loose(f) && h.Length == 10 && Near(g, 121666)
    modifies h
    ensures Tight(h)
    ensures Elem(h) == Mul(old(Elem(f)), g)
  {
    var t0, t1, t2, t3, t4, t5, t6, t7, t8, t9 :=
      MulSmallLimbs(f[0], f[1], f[2], f[3], f[4], f[5], f[6], f[7], f[8], f[9], g);
    hide Value, Reduced;
    var h0, h1, h2, h3, h4, h5, h6, h7, h8, h9, k := FeCarry(t0, t1, t2, t3, t4, t5, t6, t7, t8, t9);
    ghost var v := Value(f[0], f[1], f[2], f[3], f[4], f[5], f[6], f[7], f[8], f[9]);
    Fold(v * g, Value(t0, t1, t2, t3, t4, t5, t6, t7, t8, t9), 0, Value(h0, h1, h2, h3, h4, h5, h6, h7, h8, h9), k);
    ModMul(v, g, PRIME);
    Store(h, h0, h1, h2, h3, h4, h5, h6, h7, h8, h9);
  }

  method MulSmallLimbs(f0: i32, f1: i32, f2: i32, f3: i32, f4: i32, f5: i32, f6: i32, f7: i32, f8: i32, f9: i32, g: i32)
    returns (t0: i64, t1: i64, t2: i64, t3: i64, t4: i64, t5: i64, t6: i64, t7: i64, t8: i64, t9: i64)
    requires LooseLimbs(f0, f1, f2, f3, f4, f5, f6, f7, f8, f9) && Near(g, 121666)
    ensures Near(t0, WIDE_EVEN) && Near(t1, WIDE_ODD) && Near(t2, WIDE_EVEN) && Near(t3, WIDE_ODD)
    ensures Near(t4, WIDE_EVEN) && Near(t5, WIDE_ODD) && Near(t6, WIDE_EVEN) && Near(t7, WIDE_ODD)
    ensures Near(t8, WIDE_EVEN) && Near(t9, WIDE_ODD)
    ensures Value(t0, t1, t2, t3, t4, t5, t6, t7, t8, t9) == Value(f0, f1, f2, f3, f4, f5, f6, f7, f8, f9) * g
  {
    t0 := Scale(f0, g, 2 * REDUCED_EVEN);
    t1 := Scale(f1, g, 2 * REDUCED_ODD);
    t2 := Scale(f2, g, 2 * REDUCED_EVEN);
    t3 := Scale(f3, g, 2 * REDUCED_ODD);
    t4 := Scale(f4, g, 2 * REDUCED_EVEN);
    t5 := Scale(f5, g, 2 * REDUCED_ODD);
    t6 := Scale(f6, g, 2 * REDUCED_EVEN);
    t7 := Scale(f7, g, 2 * REDUCED_ODD);
    t8 := Scale(f8, g, 2 * REDUCED_EVEN);
    t9 := Scale(f9, g, 2 * REDUCED_ODD);
    ScaleValue(f0, f1, f2, f3, f4, f5, f6, f7, f8, f9, g);
  }

  method Scale(f: i32, g: i32, ghost bound: nat) returns (t: i64)
    requires Near(f, bound) && Near(g, 121666) && bound * 121666 < 0x8000_0000_0000_0000
    ensures t == f * g && Near(t, bound * 121666)
  {
    MulBound(f, g, bound, 121666);
    t := f as int * g as int;
  }

  lemma ScaleValue(f0: int, f1: int, f2: int, f3: int, f4: int, f5: int, f6: int, f7: int, f8: int, f9: int, g: int)
    ensures Value(f0 * g, f1 * g, f2 * g, f3 * g, f4 * g, f5 * g, f6 * g, f7 * g, f8 * g, f9 * g)
         == Value(f0, f1, f2, f3, f4, f5, f6, f7, f8, f9) * g
  {
  }

  method Fe0(h: array<i32>)
    requires h.Length == 10
    modifies h
    ensures Tight(h) && Elem(h) == 0
  {
    for i := 0 to 10
      invariant forall k :: 0 <= k < i ==> h[k] == 0
    {
      h[i] := 0;
    }
  }

  method Fe1(h: array<i32>)
    requires h.Length == 10
    modifies h
    ensures Tight(h) && Elem(h) == 1
  {
    h[0] := 1;
    for i := 1 to 10
      invariant h[0] == 1 && forall k :: 1 <= k < i ==> h[k] == 0
    {
      h[i] := 0;
    }
  }

  method FeCopy(h: array<i32>, f: array<i32>)
    requires h.Length == 10 == f.Length
    modifies h
    ensures h[..] == old(f[..])
  {
    for i := 0 to 10
      invariant forall k :: 0 <= k < i ==> h[k] == old(f[k])
      invariant f[..] == old(f[..])
    {
      h[i] := f[i];
    }
  }

  ghost predicate TightSeq(a: seq<int>) {
    |a| == 10 && Reduced(a[0], a[1], a[2], a[3], a[4], a[5], a[6], a[7], a[8], a[9])
  }

  lemma TightLimbs(a: array<i32>)
    requires Tight(a)
    ensures TightSeq(a[..]) && Elem(a) == Val(a[..]) % PRIME
    ensures forall k :: 0 <= k < 10 ==> -REDUCED_EVEN <= a[k] <= REDUCED_EVEN
  {
  }

  lemma PlusMod(x: int, y: int)
    ensures Plus(x % PRIME, y % PRIME) == (x + y) % PRIME
  {
    ModAdd(x, y, PRIME);
  }

  lemma MinusMod(x: int, y: int)
    ensures Minus(x % PRIME, y % PRIME) == (x - y) % PRIME
  {
    ModCongruent(x - y, x % PRIME - y % PRIME, x / PRIME - y / PRIME, PRIME);
  }

  method FeAdd(h: array<i32>, f: array<i32>, g: array<i32>)
    requires Tight(f) && Tight(g) && h.Length == 10
    modifies h
    ensures Loose(h)
    ensures Elem(h) == Plus(old(Elem(f)), old(Elem(g)))
  {
    TightLimbs(f);
    TightLimbs(g);
    hide *;
    AddLimbs(h, f, g);
    SumLimbs(old(f[..]), old(g[..]), h);
  }

  method AddLimbs(h: array<i32>, f: array<i32>, g: array<i32>)
    requires f.Length == 10 == g.Length && h.Length == 10
    requires forall k :: 0 <= k < 10 ==> -REDUCED_EVEN <= f[k] <= REDUCED_EVEN
    requires forall k :: 0 <= k < 10 ==> -REDUCED_EVEN <= g[k] <= REDUCED_EVEN
    modifies h
    ensures forall k :: 0 <= k < 10 ==> h[k] as int == old(f[k]) as int + old(g[k]) as int
  {
    for i := 0 to 10
      invariant forall k :: 0 <= k < i ==> h[k] as int == old(f[k]) as int + old(g[k]) as int
      invariant forall k :: i <= k < 10 ==> f[k] == old(f[k]) && g[k] == old(g[k])
    {
      h[i] := f[i] as int + g[i] as int;
    }
  }

  lemma SumLimbs(f: seq<int>, g: seq<int>, h: array<i32>)
    requires TightSeq(f) && TightSeq(g) && h.Length == 10
    requires forall k :: 0 <= k < 10 ==> h[k] == f[k] + g[k]
    ensures Loose(h) && Elem(h) == Plus(Val(f) % PRIME, Val(g) % PRIME)
  {
    assert Val(h[..]) == Val(f) + Val(g);
    PlusMod(Val(f), Val(g));
    hide Val, Plus;
  }

  method FeSub(h: array<i32>, f: array<i32>, g: array<i32>)
    requires Tight(f) && Tight(g) && h.Length == 10
    modifies h
    ensures Loose(h)
    ensures Elem(h) == Minus(old(Elem(f)), old(Elem(g)))
  {
    TightLimbs(f);
    TightLimbs(g);
    hide *;
    SubLimbs(h, f, g);
    DifferenceLimbs(old(f[..]), old(g[..]), h);
  }

  method SubLimbs(h: array<i32>, f: array<i32>, g: array<i32>)
    requires f.Length == 10 == g.Length && h.Length == 10
    requires forall k :: 0 <= k < 10 ==> -REDUCED_EVEN <= f[k] <= REDUCED_EVEN
    requires forall k :: 0 <= k < 10 ==> -REDUCED_EVEN <= g[k] <= REDUCED_EVEN
    modifies h
    ensures forall k :: 0 <= k < 10 ==> h[k] as int == old(f[k]) as int - old(g[k]) as int
  {
    for i := 0 to 10
      invariant forall k :: 0 <= k < i ==> h[k] as int == old(f[k]) as int - old(g[k]) as int
      invariant forall k :: i <= k < 10 ==> f[k] == old(f[k]) && g[k] == old(g[k])
    {
      h[i] := f[i] as int - g[i] as int;
    }
  }

  lemma DifferenceLimbs(f: seq<int>, g: seq<int>, h: array<i32>)
    requires TightSeq(f) && TightSeq(g) && h.Length == 10
    requires forall k :: 0 <= k < 10 ==> h[k] == f[k] - g[k]
    ensures Loose(h) && Elem(h) == Minus(Val(f) % PRIME, Val(g) % PRIME)
  {
    assert Val(h[..]) == Val(f) - Val(g);
    MinusMod(Val(f), Val(g));
    hide Val, Minus;
  }

  // ---------------------------------------------------------------------
  // Constant-time swap
  // ---------------------------------------------------------------------

  lemma MaskedXor(a: u32, b: u32, mask: u32)
    requires mask == 0 || mask == TWO32 - 1
    ensures And(Xor(a, b), mask) == if mask == 0 then 0 else Xor(a, b)
  {
    Pow2Values();
    XorWord(a, b);
    hide Pow2, Bitwise;
    if mask == 0 {
      AndZero(Xor(a, b));
    } else {
      AndOnes(32, Xor(a, b));
    }
  }

  lemma XorTwice(a: u32, b: u32)
    ensures Xor(a, Xor(a, b)) == b && Xor(b, Xor(a, b)) == a
    ensures Xor(a, 0) == a && Xor(b, 0) == b
  {
    XorInvolution(a, b);
    XorInvolution(b, a);
    XorCommutes(a, b);
    XorCommutes(a, Xor(a, b));
    XorCommutes(b, Xor(a, b));
    ZeroIdentity(XOR, a);
    ZeroIdentity(XOR, b);
  }

  /** With an all-ones mask both words change places, with a zero mask neither moves. */
  lemma SwapLimb(f: i32, g: i32, mask: i32)
    requires mask == 0 || mask == -1
    ensures var x := And32(Xor32(f, g), mask); Xor32(f, x) == (if mask == 0 then f else g)
    ensures var x := And32(Xor32(f, g), mask); Xor32(g, x) == (if mask == 0 then g else f)
  {
    hide Xor, And;
    var a, b := Bits32(f), Bits32(g);
    XorWord(a, b);
    MaskedXor(a, b, Bits32(mask));
    XorTwice(a, b);
    assert Bits32(Xor32(f, g)) == Xor(a, b);
  }

  method FeCswap(f: array<i32>, g: array<i32>, b: int)
    requires f.Length == 10 == g.Length && f != g && 0 <= b <= 1
    modifies f, g
    ensures f[..] == if b == 1 then old(g[..]) else old(f[..])
    ensures g[..] == if b == 1 then old(f[..]) else old(g[..])
  {
    hide Xor32, And32;
    var mask: i32 := -b;
    for i := 0 to 10
      invariant forall k :: 0 <= k < i ==> f[k] == if b == 1 then old(g[k]) else old(f[k])
      invariant forall k :: 0 <= k < i ==> g[k] == if b == 1 then old(f[k]) else old(g[k])
      invariant forall k :: i <= k < 10 ==> f[k] == old(f[k]) && g[k] == old(g[k])
    {
      var x := And32(Xor32(f[i], g[i]), mask);
      SwapLimb(f[i], g[i], mask);
      f[i] := Xor32(f[i], x);
      g[i] := Xor32(g[i], x);
    }
  }
}
