/** fe_frombytes and fe_tobytes: the 32-byte encoding of a field element. */
module FieldBytes {
  import opened Words
  import opened Bits
  import opened Field25519
  import opened FieldElement

  // ---------------------------------------------------------------------
  // Decoding
  // ---------------------------------------------------------------------

  lemma LEPeel3At(s: seq<int>, i: nat)
    requires i + 3 <= |s|
    ensures LE(s[i..]) == s[i] + 0x100 * s[i + 1] + 0x1_0000 * s[i + 2] + 0x100_0000 * LE(s[i + 3..])
  {
    assert s[i..][1..] == s[i + 1..] && s[i + 1..][1..] == s[i + 2..] && s[i + 2..][1..] == s[i + 3..];
    assert LE(s[i..]) == s[i] + 256 * LE(s[i + 1..]);
    assert LE(s[i + 1..]) == s[i + 1] + 256 * LE(s[i + 2..]);
  }

  lemma Word24At(s: seq<byte>, i: nat)
    requires i + 3 <= |s|
    ensures 0 <= Load24(s[i..]) < 0x100_0000
    ensures LE(s[i..]) == Load24(s[i..]) + 0x100_0000 * LE(s[i + 3..])
  {
    Load24Value(s[i..]);
    LEPeel3At(s, i);
  }

  lemma Word32At(s: seq<byte>, i: nat)
    requires i + 4 <= |s|
    ensures 0 <= Load32(s[i..]) < TWO32
    ensures LE(s[i..]) == Load32(s[i..]) + TWO32 * LE(s[i + 4..])
  {
    Load32Value(s[i..]);
    LEPeelAt(s, i);
    LEPeel4(s[i..][..4]);
  }

  /** The ten pieces that fe_frombytes cuts 32 bytes into: the first five, and the others. */
  lemma LowPieces(s: seq<byte>)
    requires |s| == 32
    ensures LE(s) == Load32(s) + 0x1_0000_0000 * Load24(s[4..]) + 0x100_0000_0000_0000 * Load24(s[7..])
                     + 0x1_0000_0000_0000_0000_0000 * Load24(s[10..])
                     + 0x100_0000_0000_0000_0000_0000_0000 * Load24(s[13..]) + TWO128 * LE(s[16..])
    ensures Load32(s) < TWO32 && Load24(s[4..]) < 0x100_0000 && Load24(s[7..]) < 0x100_0000
    ensures Load24(s[10..]) < 0x100_0000 && Load24(s[13..]) < 0x100_0000
  {
    hide LE, Load24, Load32;
    assert s[0..] == s;
    Word32At(s, 0);
    Word24At(s, 4);
    Word24At(s, 7);
    Word24At(s, 10);
    Word24At(s, 13);
  }

  lemma HighPieces(s: seq<byte>)
    requires |s| == 32
    ensures LE(s[16..]) == Load32(s[16..]) + 0x1_0000_0000 * Load24(s[20..]) + 0x100_0000_0000_0000 * Load24(s[23..])
                           + 0x1_0000_0000_0000_0000_0000 * Load24(s[26..])
                           + 0x100_0000_0000_0000_0000_0000_0000 * Load24(s[29..])
    ensures Load32(s[16..]) < TWO32 && Load24(s[20..]) < 0x100_0000 && Load24(s[23..]) < 0x100_0000
    ensures Load24(s[26..]) < 0x100_0000 && Load24(s[29..]) < 0x100_0000
  {
    assert LE(s[32..]) == 0;
    hide LE, Load24, Load32;
    Word32At(s, 16);
    Word24At(s, 20);
    Word24At(s, 23);
    Word24At(s, 26);
    Word24At(s, 29);
  }

  method LoadLimbs(s: seq<byte>)
    returns (t0: i64, t1: i64, t2: i64, t3: i64, t4: i64, t5: i64, t6: i64, t7: i64, t8: i64, t9: i64)
    requires |s| == 32
    ensures 0 <= t0 < TWO32 && 0 <= t1 < TWO32 && 0 <= t2 < TWO32 && 0 <= t3 < TWO32 && 0 <= t4 < TWO32
    ensures 0 <= t5 < TWO32 && 0 <= t6 < TWO32 && 0 <= t7 < TWO32 && 0 <= t8 < TWO32 && 0 <= t9 < TWO32
    ensures Value(t0, t1, t2, t3, t4, t5, t6, t7, t8, t9) == LE(s) % TWO255
  {
    hide LE, Load24, Load32, And, Value;
    LowPieces(s);
    HighPieces(s);
    Mask23(Load24(s[29..]));
    DropTopBit(LE(s), LE(s[16..]), Load32(s), Load24(s[4..]), Load24(s[7..]), Load24(s[10..]), Load24(s[13..]),
               Load32(s[16..]), Load24(s[20..]), Load24(s[23..]), Load24(s[26..]), Load24(s[29..]));
    t0 := Load32(s);
    t1 := Load24(s[4..]) * 0x40;
    t2 := Load24(s[7..]) * 0x20;
    t3 := Load24(s[10..]) * 8;
    t4 := Load24(s[13..]) * 4;
    t5 := Load32(s[16..]);
    t6 := Load24(s[20..]) * 0x80;
    t7 := Load24(s[23..]) * 0x20;
    t8 := Load24(s[26..]) * 0x10;
    t9 := And(Load24(s[29..]), 0x7fffff) * 4;
  }

  lemma Mask23(x: nat)
    ensures And(x, 0x7fffff) == x % 0x80_0000
  {
    Pow2Values();
    Pow2Add(7, 16);
    hide Pow2, Bitwise;
    AndOnes(23, x);
  }

  lemma DropTopBit(v: int, high: int, l0: int, l4: int, l7: int, l10: int, l13: int,
                   l16: int, l20: int, l23: int, l26: int, l29: int)
    requires 0 <= l0 < TWO32 && 0 <= l4 < 0x100_0000 && 0 <= l7 < 0x100_0000 && 0 <= l10 < 0x100_0000
    requires 0 <= l13 < 0x100_0000 && 0 <= l16 < TWO32 && 0 <= l20 < 0x100_0000 && 0 <= l23 < 0x100_0000
    requires 0 <= l26 < 0x100_0000 && 0 <= l29 < 0x100_0000
    requires v == l0 + 0x1_0000_0000 * l4 + 0x100_0000_0000_0000 * l7 + 0x1_0000_0000_0000_0000_0000 * l10
                  + 0x100_0000_0000_0000_0000_0000_0000 * l13 + TWO128 * high
    requires high == l16 + 0x1_0000_0000 * l20 + 0x100_0000_0000_0000 * l23 + 0x1_0000_0000_0000_0000_0000 * l26
                     + 0x100_0000_0000_0000_0000_0000_0000 * l29
    ensures v % TWO255 == Value(l0, 0x40 * l4, 0x20 * l7, 8 * l10, 4 * l13, l16, 0x80 * l20, 0x20 * l23, 0x10 * l26,
                                l29 % 0x80_0000 * 4)
  {
    var r := Value(l0, 0x40 * l4, 0x20 * l7, 8 * l10, 4 * l13, l16, 0x80 * l20, 0x20 * l23, 0x10 * l26,
                   l29 % 0x80_0000 * 4);
    assert v == l29 / 0x80_0000 * TWO255 + r;
    assert 0 <= r < TWO255;
    DivModUnique(v, TWO255, l29 / 0x80_0000, r);
  }

  /** Bit 255 is ignored, and the value is neither required nor made to be below the modulus. */
  method FeFromBytes(h: array<i32>, s: seq<byte>)
    requires h.Length == 10 && |s| == 32
    modifies h
    ensures Tight(h)
    ensures Elem(h) == LE(s) % TWO255 % PRIME
  {
    hide LE, Value, Reduced;
    var t0, t1, t2, t3, t4, t5, t6, t7, t8, t9 := LoadLimbs(s);
    var h0, h1, h2, h3, h4, h5, h6, h7, h8, h9, k := FeCarry(t0, t1, t2, t3, t4, t5, t6, t7, t8, t9);
    ModCongruent(Value(t0, t1, t2, t3, t4, t5, t6, t7, t8, t9),
                 Value(h0, h1, h2, h3, h4, h5, h6, h7, h8, h9), k, PRIME);
    Store(h, h0, h1, h2, h3, h4, h5, h6, h7, h8, h9);
  }

  // ---------------------------------------------------------------------
  // Encoding
  // ---------------------------------------------------------------------

  /** q is the floor of q0 plus the first i limbs, over the weight of limb i. */
  ghost predicate Folding(t: seq<int>, q0: int, i: nat, q: int)
    requires i <= |t|
  {
    0 <= q0 + Partial(t, i) - q * Weight(i) < Weight(i)
  }

  lemma FoldingStep(t: seq<int>, q0: int, i: nat, q: int)
    requires i < |t| && Folding(t, q0, i, q)
    ensures Folding(t, q0, i + 1, (q + t[i]) / Radix(i))
  {
    var w, d := Weight(i), Radix(i);
    assert Weight(i + 1) == w * d;
    var v := Partial(t, i);
    assert Partial(t, i + 1) == v + w * t[i];
    hide Weight, Partial, Radix;
    Refold(q0 + v, w, q, t[i], d);
  }

  lemma Refold(v: int, w: int, q: int, t: int, d: int)
    requires d > 0 && 0 <= v - q * w < w
    ensures 0 <= v + w * t - ((q + t) / d) * (w * d) < w * d
  {
    var q', m := (q + t) / d, (q + t) % d;
    assert q + t == q' * d + m;
    assert (q + t) * w == (q' * d) * w + m * w;
    assert (q' * d) * w == q' * (w * d);
    assert 0 <= m * w <= (d - 1) * w;
  }

  lemma FoldingRound(t: seq<int>, q0: int, i: nat, q: int)
    requires 2 * i + 1 < |t| && Folding(t, q0, 2 * i, q)
    ensures Folding(t, q0, 2 * (i + 1), ((q + t[2 * i]) / 0x400_0000 + t[2 * i + 1]) / 0x200_0000)
  {
    hide Folding;
    FoldingStep(t, q0, 2 * i, q);
    FoldingStep(t, q0, 2 * i + 1, (q + t[2 * i]) / Radix(2 * i));
  }

  lemma LooseAt(t: array<i32>, i: nat)
    requires Loose(t) && i < 5
    ensures Near(t[2 * i], 0x410_0000) && Near(t[2 * i + 1], 0x210_0000)
  {
  }

  /** The loop of fe_tobytes: q ends up as floor((q0 + h) / 2^255). */
  method FoldQuotient(t: array<i32>, q0: i32) returns (q: i32)
    requires Loose(t) && -21 <= q0 <= 21
    ensures 0 <= q0 + Val(t[..]) - q * TWO255 < TWO255
    ensures -21 <= q <= 21
  {
    q := q0;
    ghost var s: seq<int> := t[..];
    assert Folding(s, q0, 0, q);
    hide Folding, Partial, Weight, Loose, Val;
    for i := 0 to 5
      invariant -21 <= q <= 21
      invariant Folding(s, q0, 2 * i, q)
    {
      LooseAt(t, i);
      FoldingRound(s, q0, i, q);
      q := q + t[2 * i];
      q := q / 0x400_0000;
      q := q + t[2 * i + 1];
      q := q / 0x200_0000;
    }
    FoldingAll(s, q0, q);
  }

  lemma FoldingAll(t: seq<int>, q0: int, q: int)
    requires |t| == 10 && Folding(t, q0, 10, q)
    ensures 0 <= q0 + Val(t) - q * TWO255 < TWO255
  {
    PartialAll(t);
    Weights();
    hide Partial, Weight, Val;
  }

  /** With the rounded top limb as q0 the floor is that of h / (2^255 - 19). */
  lemma QuotientExact(v: int, low: int, h9: int, q: int)
    requires v == low + W9 * h9 && Near(h9, 0x210_0000) && Near(low, 2 * W9)
    requires 0 <= (19 * h9 + 0x100_0000) / 0x200_0000 + v - q * TWO255 < TWO255
    ensures 0 <= v - q * PRIME < PRIME
  {
    var x := (19 * h9 + 0x100_0000) / 0x200_0000;
    var d := x + v - q * TWO255;
    var y := x - 19 * q;
    assert TWO255 * y <= 19 * d - 19 * x - 19 * low + TWO255 / 2;
    assert TWO255 * y > 19 * d - 19 * x - 19 * low - TWO255 / 2;
    assert v - q * PRIME == d - y;
  }

  method Low26(h: i32) returns (low: i32, c: i32)
    ensures h == low + c * 0x400_0000 && 0 <= low < 0x400_0000
  {
    c := h / 0x400_0000;
    low := h - c * 0x400_0000;
  }

  method Low25(h: i32) returns (low: i32, c: i32)
    ensures h == low + c * 0x200_0000 && 0 <= low < 0x200_0000
  {
    c := h / 0x200_0000;
    low := h - c * 0x200_0000;
  }

  lemma CarriedValue(h0: int, h1: int, h2: int, h3: int, h4: int, h5: int, h6: int, h7: int, h8: int, h9: int, q: int,
                     t0: int, t1: int, t2: int, t3: int, t4: int, t5: int, t6: int, t7: int, t8: int, t9: int,
                     c0: int, c1: int, c2: int, c3: int, c4: int, c5: int, c6: int, c7: int, c8: int, c9: int)
    requires h0 + 19 * q == t0 + c0 * 0x400_0000
    requires h1 + c0 == t1 + c1 * 0x200_0000
    requires h2 + c1 == t2 + c2 * 0x400_0000
    requires h3 + c2 == t3 + c3 * 0x200_0000
    requires h4 + c3 == t4 + c4 * 0x400_0000
    requires h5 + c4 == t5 + c5 * 0x200_0000
    requires h6 + c5 == t6 + c6 * 0x400_0000
    requires h7 + c6 == t7 + c7 * 0x200_0000
    requires h8 + c7 == t8 + c8 * 0x400_0000
    requires h9 + c8 == t9 + c9 * 0x200_0000
    ensures Value(t0, t1, t2, t3, t4, t5, t6, t7, t8, t9) + TWO255 * c9
         == Value(h0, h1, h2, h3, h4, h5, h6, h7, h8, h9) + 19 * q
  {
  }

  /** The carries of fe_tobytes after 19 * q has been added: canonical limbs, and the carry out is q. */
  method Canonical(h0: i32, h1: i32, h2: i32, h3: i32, h4: i32, h5: i32, h6: i32, h7: i32, h8: i32, h9: i32, q: i32)
    returns (t0: i32, t1: i32, t2: i32, t3: i32, t4: i32, t5: i32, t6: i32, t7: i32, t8: i32, t9: i32)
    requires LooseLimbs(h0, h1, h2, h3, h4, h5, h6, h7, h8, h9) && -21 <= q <= 21
    requires 0 <= Value(h0, h1, h2, h3, h4, h5, h6, h7, h8, h9) - q * PRIME < PRIME
    ensures 0 <= t0 < 0x400_0000 && 0 <= t1 < 0x200_0000 && 0 <= t2 < 0x400_0000 && 0 <= t3 < 0x200_0000
    ensures 0 <= t4 < 0x400_0000 && 0 <= t5 < 0x200_0000 && 0 <= t6 < 0x400_0000 && 0 <= t7 < 0x200_0000
    ensures 0 <= t8 < 0x400_0000 && 0 <= t9 < 0x200_0000
    ensures Value(t0, t1, t2, t3, t4, t5, t6, t7, t8, t9)
         == Value(h0, h1, h2, h3, h4, h5, h6, h7, h8, h9) - q * PRIME
  {
    hide Value;
    var c0: i32, c1: i32, c2: i32, c3: i32, c4: i32, c5: i32, c6: i32, c7: i32, c8: i32, c9: i32;
    t0 := h0 + 19 * q as int;
    t1, t2, t3, t4, t5, t6, t7, t8, t9 := h1, h2, h3, h4, h5, h6, h7, h8, h9;
    t0, c0 := Low26(t0);  t1 := t1 + c0;
    t1, c1 := Low25(t1);  t2 := t2 + c1;
    t2, c2 := Low26(t2);  t3 := t3 + c2;
    t3, c3 := Low25(t3);  t4 := t4 + c3;
    t4, c4 := Low26(t4);  t5 := t5 + c4;
    t5, c5 := Low25(t5);  t6 := t6 + c5;
    t6, c6 := Low26(t6);  t7 := t7 + c6;
    t7, c7 := Low25(t7);  t8 := t8 + c7;
    t8, c8 := Low26(t8);  t9 := t9 + c8;
    t9, c9 := Low25(t9);
    CarriedValue(h0, h1, h2, h3, h4, h5, h6, h7, h8, h9, q, t0, t1, t2, t3, t4, t5, t6, t7, t8, t9,
                 c0, c1, c2, c3, c4, c5, c6, c7, c8, c9);
    LimbRange(t0, t1, t2, t3, t4, t5, t6, t7, t8, t9);
    CarryOut(Value(h0, h1, h2, h3, h4, h5, h6, h7, h8, h9), Value(t0, t1, t2, t3, t4, t5, t6, t7, t8, t9), c9, q);
  }

  lemma CarryOut(h: int, t: int, c: int, q: int)
    requires 0 <= h - q * PRIME < PRIME && t + TWO255 * c == h + 19 * q && 0 <= t < TWO255
    ensures c == q && t == h - q * PRIME
  {
  }

  lemma LimbRange(t0: int, t1: int, t2: int, t3: int, t4: int, t5: int, t6: int, t7: int, t8: int, t9: int)
    requires 0 <= t0 < 0x400_0000 && 0 <= t1 < 0x200_0000 && 0 <= t2 < 0x400_0000 && 0 <= t3 < 0x200_0000
    requires 0 <= t4 < 0x400_0000 && 0 <= t5 < 0x200_0000 && 0 <= t6 < 0x400_0000 && 0 <= t7 < 0x200_0000
    requires 0 <= t8 < 0x400_0000 && 0 <= t9 < 0x200_0000
    ensures 0 <= Value(t0, t1, t2, t3, t4, t5, t6, t7, t8, t9) < TWO255
  {
  }

  lemma ShiftedOr(lo: nat, x: u32, k: nat, p: nat, m: nat)
    requires k <= 32 && lo < Pow2(k) == p && Pow2(32 - k) == m
    ensures Or(lo, Shl32(x, k)) == lo + p * (x % m) < TWO32
  {
    var y: nat := x % m;
    ShlValue(x, k, p, m);
    hide Pow2, Bitwise, Shl32;
    OrDisjoint(k, lo, y);
  }

  lemma ShlValue(x: u32, k: nat, p: nat, m: nat)
    requires k <= 32 && Pow2(k) == p && Pow2(32 - k) == m
    ensures Shl32(x, k) == p * (x % m) <= TWO32 - p
  {
    Pow2Add(k, 32 - k);
    Pow2Values();
    hide Pow2;
    assert p * m == TWO32;
    ShiftAlgebra(x, p, m);
  }

  lemma ShiftAlgebra(x: int, p: int, m: int)
    requires p > 0 && m > 0
    ensures x * p % (p * m) == p * (x % m)
    ensures 0 <= p * (x % m) <= p * m - p
  {
    var q, r := x / m, x % m;
    assert x == q * m + r;
    assert x * p == q * (p * m) + p * r by { assert (q * m) * p == q * (p * m); }
    assert 0 <= p * r <= p * (m - 1);
    DivModUnique(x * p, p * m, q, p * r);
  }

  /** The eight 32-bit words that ten canonical limbs are packed into. */
  method PackWords(t0: u32, t1: u32, t2: u32, t3: u32, t4: u32, t5: u32, t6: u32, t7: u32, t8: u32, t9: u32)
    returns (w0: u32, w1: u32, w2: u32, w3: u32, w4: u32, w5: u32, w6: u32, w7: u32)
    requires t0 < 0x400_0000 && t1 < 0x200_0000 && t2 < 0x400_0000 && t3 < 0x200_0000
    requires t4 < 0x400_0000 && t5 < 0x200_0000 && t6 < 0x400_0000 && t7 < 0x200_0000
    requires t8 < 0x400_0000 && t9 < 0x200_0000
    ensures Words8(w0, w1, w2, w3, w4, w5, w6, w7) == Value(t0, t1, t2, t3, t4, t5, t6, t7, t8, t9)
  {
    SmallPowers();
    hide Or, Shl32, Value, Words8, Pow2;
    ShiftedOr(t0, t1, 26, 0x4000000, 0x40);
    ShiftedOr(t1 / 0x40, t2, 19, 0x80000, 0x2000);
    ShiftedOr(t2 / 0x2000, t3, 13, 0x2000, 0x80000);
    ShiftedOr(t3 / 0x80000, t4, 6, 0x40, 0x4000000);
    ShiftedOr(t5, t6, 25, 0x2000000, 0x80);
    ShiftedOr(t6 / 0x80, t7, 19, 0x80000, 0x2000);
    ShiftedOr(t7 / 0x2000, t8, 12, 0x1000, 0x100000);
    ShiftedOr(t8 / 0x100000, t9, 6, 0x40, 0x4000000);
    w0 := Or(t0, Shl32(t1, 26));
    w1 := Or(t1 / 0x40, Shl32(t2, 19));
    w2 := Or(t2 / 0x2000, Shl32(t3, 13));
    w3 := Or(t3 / 0x80000, Shl32(t4, 6));
    w4 := Or(t5, Shl32(t6, 25));
    w5 := Or(t6 / 0x80, Shl32(t7, 19));
    w6 := Or(t7 / 0x2000, Shl32(t8, 12));
    w7 := Or(t8 / 0x100000, Shl32(t9, 6));
    PackedValue(t0, t1, t2, t3, t4, t5, t6, t7, t8, t9, w0, w1, w2, w3, w4, w5, w6, w7);
  }

  lemma PackedValue(t0: int, t1: int, t2: int, t3: int, t4: int, t5: int, t6: int, t7: int, t8: int, t9: int,
                    w0: int, w1: int, w2: int, w3: int, w4: int, w5: int, w6: int, w7: int)
    requires 0 <= t4 < 0x400_0000 && 0 <= t9 < 0x400_0000
    requires w0 == t0 + 0x4000000 * (t1 % 0x40)
    requires w1 == t1 / 0x40 + 0x80000 * (t2 % 0x2000)
    requires w2 == t2 / 0x2000 + 0x2000 * (t3 % 0x80000)
    requires w3 == t3 / 0x80000 + 0x40 * (t4 % 0x4000000)
    requires w4 == t5 + 0x2000000 * (t6 % 0x80)
    requires w5 == t6 / 0x80 + 0x80000 * (t7 % 0x2000)
    requires w6 == t7 / 0x2000 + 0x1000 * (t8 % 0x100000)
    requires w7 == t8 / 0x100000 + 0x40 * (t9 % 0x4000000)
    ensures Words8(w0, w1, w2, w3, w4, w5, w6, w7) == Value(t0, t1, t2, t3, t4, t5, t6, t7, t8, t9)
  {
  }

  lemma SmallPowers()
    ensures Pow2(6) == 0x40 && Pow2(7) == 0x80 && Pow2(12) == 0x1000 && Pow2(13) == 0x2000
    ensures Pow2(19) == 0x8_0000 && Pow2(20) == 0x10_0000 && Pow2(25) == 0x200_0000 && Pow2(26) == 0x400_0000
  {
    assert Pow2(6) == 0x40;
    hide Pow2;
    Pow2Add(6, 6);
    Pow2Add(6, 1);
    Pow2Add(12, 1);
    Pow2Add(13, 6);
    Pow2Add(13, 7);
    Pow2Add(19, 6);
    Pow2Add(20, 6);
    PowOne();
  }

  lemma PowOne()
    ensures Pow2(1) == 2
  {
  }

  function Words8(w0: int, w1: int, w2: int, w3: int, w4: int, w5: int, w6: int, w7: int): int {
    w0 + TWO32 * w1 + TWO64 * w2 + TWO64 * TWO32 * w3
    + TWO128 * (w4 + TWO32 * w5 + TWO64 * w6 + TWO64 * TWO32 * w7)
  }

  lemma StoredWord(s: seq<byte>, i: nat, w: u32)
    requires i + 4 <= |s|
    requires forall k :: 0 <= k < 4 ==> s[i + k] == Store32(w)[k]
    ensures LE(s[i..]) == w + TWO32 * LE(s[i + 4..])
  {
    Store32Value(w);
    LEPeelAt(s, i);
    LEPeel4(Store32(w));
    assert Store32(w)[4..] == [];
  }

  /** The unique encoding below the modulus, in 32 bytes. */
  method FeToBytes(s: array<byte>, h: array<i32>)
    requires s.Length == 32 && Loose(h)
    modifies s
    ensures LE(s[..]) == old(Elem(h))
  {
    LooseTop(h);
    hide LE, Value, Loose, LooseLimbs, Words8, Store32, Val;
    var q: i32 := (19 * h[9] as int + 0x100_0000) / 0x200_0000;
    q := FoldQuotient(h, q);
    QuotientExact(Val(h[..]), Low(h), h[9], q);
    var t0, t1, t2, t3, t4, t5, t6, t7, t8, t9 :=
      Canonical(h[0], h[1], h[2], h[3], h[4], h[5], h[6], h[7], h[8], h[9], q);
    DivModUnique(Val(h[..]), PRIME, q, Val(h[..]) - q * PRIME);
    var w0, w1, w2, w3, w4, w5, w6, w7 := PackWords(t0, t1, t2, t3, t4, t5, t6, t7, t8, t9);
    StoreWords(s, w0, w1, w2, w3, w4, w5, w6, w7);
  }

  ghost function Low(h: array<i32>): int
    requires h.Length == 10
    reads h
  {
    Val(h[..]) - W9 * h[9]
  }

  lemma LooseTop(h: array<i32>)
    requires Loose(h)
    ensures Near(h[9], 0x210_0000) && Near(Low(h), 2 * W9)
    ensures LooseLimbs(h[0], h[1], h[2], h[3], h[4], h[5], h[6], h[7], h[8], h[9])
    ensures Val(h[..]) == Value(h[0], h[1], h[2], h[3], h[4], h[5], h[6], h[7], h[8], h[9])
  {
  }

  method StoreWords(s: array<byte>, w0: u32, w1: u32, w2: u32, w3: u32, w4: u32, w5: u32, w6: u32, w7: u32)
    requires s.Length == 32
    modifies s
    ensures LE(s[..]) == Words8(w0, w1, w2, w3, w4, w5, w6, w7)
  {
    hide LE, Words8, Store32;
    StoreWord(s, 0, w0);
    StoreWord(s, 4, w1);
    StoreWord(s, 8, w2);
    StoreWord(s, 12, w3);
    StoreWord(s, 16, w4);
    StoreWord(s, 20, w5);
    StoreWord(s, 24, w6);
    StoreWord(s, 28, w7);
    StoredWord(s[..], 0, w0);
    StoredWord(s[..], 4, w1);
    StoredWord(s[..], 8, w2);
    StoredWord(s[..], 12, w3);
    StoredWord(s[..], 16, w4);
    StoredWord(s[..], 20, w5);
    StoredWord(s[..], 24, w6);
    StoredWord(s[..], 28, w7);
    Ends(s[..]);
    EightWords(LE(s[..]), LE(s[..][4..]), LE(s[..][8..]), LE(s[..][12..]), LE(s[..][16..]), LE(s[..][20..]),
               LE(s[..][24..]), LE(s[..][28..]), w0, w1, w2, w3, w4, w5, w6, w7);
  }

  lemma EightWords(l0: int, l1: int, l2: int, l3: int, l4: int, l5: int, l6: int, l7: int,
                   w0: int, w1: int, w2: int, w3: int, w4: int, w5: int, w6: int, w7: int)
    requires l0 == w0 + TWO32 * l1 && l1 == w1 + TWO32 * l2 && l2 == w2 + TWO32 * l3 && l3 == w3 + TWO32 * l4
    requires l4 == w4 + TWO32 * l5 && l5 == w5 + TWO32 * l6 && l6 == w6 + TWO32 * l7 && l7 == w7
    ensures l0 == Words8(w0, w1, w2, w3, w4, w5, w6, w7)
  {
  }

  lemma Ends(s: seq<int>)
    requires |s| == 32
    ensures s[0..] == s && LE(s[32..]) == 0
  {
  }
}
