/** Poly1305 as Monocypher computes it, on 32-bit limbs, against section 2.5 of RFC 8439. */
module Poly1305 {
  import opened Words
  import opened Bits

  const P: int := 0x3_ffffffff_ffffffff_ffffffff_fffffffb  // 2^130 - 5

  lemma MulUp(a: int, b: int, A: int, B: int)
    requires 0 <= a <= A && 0 <= b <= B
    ensures 0 <= a * b <= A * B
  {
    assert (A - a) * B >= 0 && a * (B - b) >= 0;
  }

  function Val4(a0: int, a1: int, a2: int, a3: int): int {
    a0 + TWO32 * a1 + TWO64 * a2 + TWO32 * TWO64 * a3
  }

  function Val5(a0: int, a1: int, a2: int, a3: int, a4: int): int {
    Val4(a0, a1, a2, a3) + TWO64 * TWO64 * a4
  }

  lemma Scaled(s: int, a0: int, a1: int, a2: int, a3: int, a4: int, k: int)
    ensures s * (Val5(a0, a1, a2, a3, a4) + k * P) == Val5(s * a0, s * a1, s * a2, s * a3, s * a4) + s * k * P
    ensures s * 0 == 0 && s * 0 * P == 0
  {
    var b0, b1, b2, b3, b4, c := s * a0, s * a1, s * a2, s * a3, s * a4, s * k;
    assert s * (a0 + TWO32 * a1) == b0 + TWO32 * b1;
    assert s * (TWO64 * a2 + TWO32 * TWO64 * a3) == TWO64 * b2 + TWO32 * TWO64 * b3;
    assert s * (TWO64 * TWO64 * a4 + k * P) == TWO64 * TWO64 * b4 + c * P;
  }

  /** The limbs of a key, with the fives of its quotients by 4: r_i = 4 q_i, and e more in the first one. */
  ghost predicate Quartered(r0: int, r1: int, r2: int, r3: int, f0: int, f1: int, f2: int, f3: int,
                            e: int, q0: int, q1: int, q2: int, q3: int) {
    && r0 == 4 * q0 + e && r1 == 4 * q1 && r2 == 4 * q2 && r3 == 4 * q3
    && f0 == 5 * q0 && f1 == 5 * q1 && f2 == 5 * q2 && f3 == 5 * q3
  }

  /** r one limb further up, folded down at 2^130: what each limb of h + c multiplies. */
  lemma ShiftedKey(r0: int, r1: int, r2: int, r3: int, f0: int, f1: int, f2: int, f3: int,
                   e: int, q0: int, q1: int, q2: int, q3: int)
    requires Quartered(r0, r1, r2, r3, f0, f1, f2, f3, e, q0, q1, q2, q3)
    ensures
      var r := Val4(r0, r1, r2, r3);
      && r == Val5(r0, r1, r2, r3, 0) + 0 * P
      && TWO32 * r == Val5(f3, r0, r1, r2, 0) + q3 * P
      && TWO64 * r == Val5(f2, f3, r0, r1, 0) + (q2 + TWO32 * q3) * P
      && TWO32 * TWO64 * r == Val5(f1, f2, f3, r0, 0) + (q1 + TWO32 * q2 + TWO64 * q3) * P
      && TWO64 * TWO64 * r == Val5(f0, f1, f2, f3, e) + (q0 + TWO32 * q1 + TWO64 * q2 + TWO32 * TWO64 * q3) * P
  {
  }

  lemma LimbsTimes(s0: int, s1: int, s2: int, s3: int, s4: int, r: int)
    ensures Val5(s0, s1, s2, s3, s4) * r
         == s0 * r + s1 * (TWO32 * r) + s2 * (TWO64 * r) + s3 * (TWO32 * TWO64 * r) + s4 * (TWO64 * TWO64 * r)
  {
    assert (s0 + TWO32 * s1) * r == s0 * r + s1 * (TWO32 * r);
    assert (TWO64 * s2 + TWO32 * TWO64 * s3) * r == s2 * (TWO64 * r) + s3 * (TWO32 * TWO64 * r);
    assert (TWO64 * TWO64 * s4) * r == s4 * (TWO64 * TWO64 * r);
  }

  /** The columns, one limb of h + c after the other. */
  lemma Assemble(a0: int, a1: int, a2: int, a3: int, b0: int, b1: int, b2: int, b3: int, c0: int, c1: int, c2: int,
                 c3: int, d0: int, d1: int, d2: int, d3: int, f0: int, f1: int, f2: int, f3: int, f4: int,
                 k1: int, k2: int, k3: int, k4: int)
    ensures Val5(a0, a1, a2, a3, 0) + (Val5(b0, b1, b2, b3, 0) + k1 * P) + (Val5(c0, c1, c2, c3, 0) + k2 * P)
            + (Val5(d0, d1, d2, d3, 0) + k3 * P) + (Val5(f0, f1, f2, f3, f4) + k4 * P)
         == Val5(a0 + b0 + c0 + d0 + f0, a1 + b1 + c1 + d1 + f1, a2 + b2 + c2 + d2 + f2, a3 + b3 + c3 + d3 + f3, f4)
            + (k1 + k2 + k3 + k4) * P
  {
  }

  /** (h + c) * r written in columns, the part at and above 2^130 folded down by 2^130 = 5. */
  lemma Columns(s0: int, s1: int, s2: int, s3: int, s4: int, r0: int, r1: int, r2: int, r3: int,
                f0: int, f1: int, f2: int, f3: int, e: int, q0: int, q1: int, q2: int, q3: int) returns (k: int)
    requires Quartered(r0, r1, r2, r3, f0, f1, f2, f3, e, q0, q1, q2, q3)
    ensures
      var x0 := s0 * r0 + s1 * f3 + s2 * f2 + s3 * f1 + s4 * f0;
      var x1 := s0 * r1 + s1 * r0 + s2 * f3 + s3 * f2 + s4 * f1;
      var x2 := s0 * r2 + s1 * r1 + s2 * r0 + s3 * f3 + s4 * f2;
      var x3 := s0 * r3 + s1 * r2 + s2 * r1 + s3 * r0 + s4 * f3;
      Val5(s0, s1, s2, s3, s4) * Val4(r0, r1, r2, r3) == Val5(x0, x1, x2, x3, s4 * e) + k * P
  {
    hide *;
    LimbsTimes(s0, s1, s2, s3, s4, Val4(r0, r1, r2, r3));
    ShiftedKey(r0, r1, r2, r3, f0, f1, f2, f3, e, q0, q1, q2, q3);
    var k1, k2, k3 := q3, q2 + TWO32 * q3, q1 + TWO32 * q2 + TWO64 * q3;
    var k4 := q0 + TWO32 * q1 + TWO64 * q2 + TWO32 * TWO64 * q3;
    Scaled(s0, r0, r1, r2, r3, 0, 0);
    Scaled(s1, f3, r0, r1, r2, 0, k1);
    Scaled(s2, f2, f3, r0, r1, 0, k2);
    Scaled(s3, f1, f2, f3, r0, 0, k3);
    Scaled(s4, f0, f1, f2, f3, e, k4);
    Assemble(s0 * r0, s0 * r1, s0 * r2, s0 * r3, s1 * f3, s1 * r0, s1 * r1, s1 * r2,
             s2 * f2, s2 * f3, s2 * r0, s2 * r1, s3 * f1, s3 * f2, s3 * f3, s3 * r0,
             s4 * f0, s4 * f1, s4 * f2, s4 * f3, s4 * e, s1 * k1, s2 * k2, s3 * k3, s4 * k4);
    k := s1 * k1 + s2 * k2 + s3 * k3 + s4 * k4;
  }

  /** The partial reduction: carries are passed up and bits 130 and above come back as 5 times. */
  lemma PartialReduction(x0: int, x1: int, x2: int, x3: int, x4: int, u5: int,
                         u0: int, u1: int, u2: int, u3: int, u4: int)
    requires 0 <= x0 && 0 <= x1 && 0 <= x2 && 0 <= x3 && 0 <= x4
    requires u5 == x4 + x3 / TWO32
    requires u0 == u5 / 4 * 5 + x0 % TWO32
    requires u1 == u0 / TWO32 + x1 % TWO32 + x0 / TWO32
    requires u2 == u1 / TWO32 + x2 % TWO32 + x1 / TWO32
    requires u3 == u2 / TWO32 + x3 % TWO32 + x2 / TWO32
    requires u4 == u3 / TWO32 + u5 % 4
    ensures Val5(u0 % TWO32, u1 % TWO32, u2 % TWO32, u3 % TWO32, u4) == Val5(x0, x1, x2, x3, x4) - u5 / 4 * P
  {
  }

  // ---------------------------------------------------------------------
  // Section 2.5 of RFC 8439
  // ---------------------------------------------------------------------

  const CLAMP: nat := 0x0ffffffc_0ffffffc_0ffffffc_0fffffff

  ghost function KeyR(key: seq<byte>): int
    requires |key| >= 16
  {
    LEBound(key[..16]);
    And(LE(key[..16]), CLAMP)
  }

  /** One block, whole or not: add it with a byte 1 after it, multiply by r. */
  ghost function Absorb(acc: int, block: seq<byte>, r: int): int {
    (acc + LE(block + [1])) * r % P
  }

  /** The accumulator after the first n whole blocks of the message. */
  ghost function Accumulate(msg: seq<byte>, n: nat, r: int): int
    requires 16 * n <= |msg|
  {
    if n == 0 then 0 else Absorb(Accumulate(msg, n - 1, r), msg[16 * n - 16..16 * n], r)
  }

  /** The authenticator as a number below 2^128. */
  ghost function Tag(key: seq<byte>, msg: seq<byte>): int
    requires |key| >= 32
  {
    var r := KeyR(key);
    var n := |msg| / 16;
    var whole := Accumulate(msg, n, r);
    var acc := if |msg| % 16 == 0 then whole else Absorb(whole, msg[16 * n..], r);
    (acc + LE(key[16..32])) % (TWO64 * TWO64)
  }

  lemma {:induction false} AccumulatePrefix(a: seq<byte>, b: seq<byte>, n: nat, r: int)
    requires 16 * n <= |a|
    ensures Accumulate(a + b, n, r) == Accumulate(a, n, r)
  {
    hide Absorb;
    if n == 0 {
    } else {
      AccumulatePrefix(a, b, n - 1, r);
      assert (a + b)[16 * n - 16..16 * n] == a[16 * n - 16..16 * n];
    }
  }

  lemma LEOne(s: seq<int>)
    ensures LE(s + [1]) == LE(s) + Pow256(|s|)
  {
    LESingle(1);
    hide LE;
    LEAppend(s, [1]);
  }

  // ---------------------------------------------------------------------
  // One block, on words
  // ---------------------------------------------------------------------

  /** What the first comment of poly_block promises about the limbs it is called with. */
  ghost predicate BlockInput(h: seq<int>, c: seq<int>, r: seq<int>) {
    && |h| == 5 && |c| == 5 && |r| == 4
    && (forall k :: 0 <= k < 4 ==> 0 <= h[k] < TWO32 && 0 <= c[k] < TWO32)
    && 0 <= h[4] <= 4 && 0 <= c[4] <= 1
    && ClampedWords(r)
  }

  ghost predicate Clamped(r0: int, r1: int, r2: int, r3: int) {
    && 0 <= r0 <= 0x0fffffff && 0 <= r1 <= 0x0ffffffc && 0 <= r2 <= 0x0ffffffc && 0 <= r3 <= 0x0ffffffc
    && r1 % 4 == 0 && r2 % 4 == 0 && r3 % 4 == 0
  }

  ghost predicate ClampedWords(r: seq<int>) {
    |r| == 4 && Clamped(r[0], r[1], r[2], r[3])
  }

  ghost function Words4(w: seq<int>): int
    requires |w| >= 4
  {
    Val4(w[0], w[1], w[2], w[3])
  }

  ghost function Words5(w: seq<int>): int
    requires |w| >= 5
  {
    Val5(w[0], w[1], w[2], w[3], w[4])
  }

  /** Upper bounds of the five columns, as the comments of poly_block give them. */
  lemma ColumnBounds(s0: int, s1: int, s2: int, s3: int, s4: int, a: int, b: int, c: int, d: int, e: int,
                     A: int, B: int, C: int, D: int)
    requires 0 <= s0 <= 0x1_ffff_fffe && 0 <= s1 <= 0x1_ffff_fffe && 0 <= s2 <= 0x1_ffff_fffe
    requires 0 <= s3 <= 0x1_ffff_fffe && 0 <= s4 <= 5
    requires 0 <= a <= A && 0 <= b <= B && 0 <= c <= C && 0 <= d <= D && 0 <= e <= 0x13ff_fffb
    ensures 0 <= s0 * a + s1 * b + s2 * c + s3 * d + s4 * e
              <= 0x1_ffff_fffe * A + 0x1_ffff_fffe * B + 0x1_ffff_fffe * C + 0x1_ffff_fffe * D + 5 * 0x13ff_fffb
  {
    MulUp(s0, a, 0x1_ffff_fffe, A);
    MulUp(s1, b, 0x1_ffff_fffe, B);
    MulUp(s2, c, 0x1_ffff_fffe, C);
    MulUp(s3, d, 0x1_ffff_fffe, D);
    MulUp(s4, e, 5, 0x13ff_fffb);
  }

  /** (h + c) * r, without carry propagation. */
  method MultiplyColumns(s0: u64, s1: u64, s2: u64, s3: u64, s4: u32, r0: u32, r1: u32, r2: u32, r3: u32)
    returns (x0: u64, x1: u64, x2: u64, x3: u64, x4: u32)
    requires 0 <= s0 <= 0x1_ffff_fffe && 0 <= s1 <= 0x1_ffff_fffe && 0 <= s2 <= 0x1_ffff_fffe
    requires 0 <= s3 <= 0x1_ffff_fffe && 0 <= s4 <= 5
    requires Clamped(r0, r1, r2, r3)
    ensures x0 <= 0x97ffffe007fffff8 && x1 <= 0x8fffffe20ffffff6 && x2 <= 0x87ffffe417fffff4
    ensures x3 <= 0x7fffffe61ffffff2 && x4 <= 15
    ensures Val5(x0, x1, x2, x3, x4) % P == Val5(s0, s1, s2, s3, s4) * Val4(r0, r1, r2, r3) % P
  {
    hide Val4, Val5;
    var rr0: u32 := r0 / 4 * 5;
    var rr1: u32 := r1 / 4 + r1;
    var rr2: u32 := r2 / 4 + r2;
    var rr3: u32 := r3 / 4 + r3;

    ColumnBounds(s0, s1, s2, s3, s4, r0, rr3, rr2, rr1, rr0, 0x0fff_ffff, 0x13ff_fffb, 0x13ff_fffb, 0x13ff_fffb);
    ColumnBounds(s0, s1, s2, s3, s4, r1, r0, rr3, rr2, rr1, 0x0fff_fffc, 0x0fff_ffff, 0x13ff_fffb, 0x13ff_fffb);
    ColumnBounds(s0, s1, s2, s3, s4, r2, r1, r0, rr3, rr2, 0x0fff_fffc, 0x0fff_fffc, 0x0fff_ffff, 0x13ff_fffb);
    ColumnBounds(s0, s1, s2, s3, s4, r3, r2, r1, r0, rr3, 0x0fff_fffc, 0x0fff_fffc, 0x0fff_fffc, 0x0fff_ffff);
    x0 := s0 as int * r0 + s1 as int * rr3 + s2 as int * rr2 + s3 as int * rr1 + s4 as int * rr0;
    x1 := s0 as int * r1 + s1 as int * r0 + s2 as int * rr3 + s3 as int * rr2 + s4 as int * rr1;
    x2 := s0 as int * r2 + s1 as int * r1 + s2 as int * r0 + s3 as int * rr3 + s4 as int * rr2;
    x3 := s0 as int * r3 + s1 as int * r2 + s2 as int * r1 + s3 as int * r0 + s4 as int * rr3;
    MulUp(s4, r0 % 4, 5, 3);
    x4 := s4 as int * (r0 % 4);
    ghost var k := Columns(s0, s1, s2, s3, s4, r0, r1, r2, r3, rr0, rr1, rr2, rr3,
                           r0 % 4, r0 / 4, r1 / 4, r2 / 4, r3 / 4);
    ModCongruent(Val5(s0, s1, s2, s3, s4) * Val4(r0, r1, r2, r3), Val5(x0, x1, x2, x3, x4), k, P);
  }

  /** The partial reduction modulo 2^130 - 5. */
  method ReduceColumns(x0: u64, x1: u64, x2: u64, x3: u64, x4: u32)
    returns (u0: u64, u1: u64, u2: u64, u3: u64, u4: u64)
    requires x0 <= 0x97ffffe007fffff8 && x1 <= 0x8fffffe20ffffff6 && x2 <= 0x87ffffe417fffff4
    requires x3 <= 0x7fffffe61ffffff2 && x4 <= 15
    ensures u4 <= 4
    ensures Val5(u0 % TWO32, u1 % TWO32, u2 % TWO32, u3 % TWO32, u4) % P == Val5(x0, x1, x2, x3, x4) % P
  {
    hide Val4, Val5;
    var u5: u32 := x4 + x3 / TWO32;
    var fold: u32 := u5 / 4 * 5;
    u0 := fold + x0 % TWO32;
    u1 := u0 / TWO32 + x1 % TWO32 + x0 / TWO32;
    u2 := u1 / TWO32 + x2 % TWO32 + x1 / TWO32;
    u3 := u2 / TWO32 + x3 % TWO32 + x2 / TWO32;
    u4 := u3 / TWO32 + u5 % 4;
    PartialReduction(x0, x1, x2, x3, x4, u5, u0, u1, u2, u3, u4);
    ModCongruent(Val5(u0 % TWO32, u1 % TWO32, u2 % TWO32, u3 % TWO32, u4), Val5(x0, x1, x2, x3, x4), -(u5 / 4), P);
  }

  /** poly_block: every intermediate fits its word, h' = (h + c) * r modulo 2^130 - 5, and h' is
      again at most 4_ffffffff_ffffffff_ffffffff_ffffffff. */
  method Block(h: array<u32>, c: array<u32>, r: array<u32>)
    requires h.Length == 5 && c.Length == 5 && r.Length == 4 && h != c && h != r
    requires BlockInput(h[..], c[..], r[..])
    modifies h
    ensures BlockInput(h[..], c[..], r[..])
    ensures Words5(h[..]) % P == (Words5(old(h[..])) + Words5(c[..])) * Words4(r[..]) % P
  {
    hide Val4, Val5;
    var s0: u64, s1: u64 := h[0] as int + c[0], h[1] as int + c[1];
    var s2: u64, s3: u64 := h[2] as int + c[2], h[3] as int + c[3];
    var s4: u32 := h[4] + c[4];
    AddLimbs(h[0], h[1], h[2], h[3], h[4], c[0], c[1], c[2], c[3], c[4]);
    var x0, x1, x2, x3, x4 := MultiplyColumns(s0, s1, s2, s3, s4, r[0], r[1], r[2], r[3]);
    var u0, u1, u2, u3, u4 := ReduceColumns(x0, x1, x2, x3, x4);
    h[0] := u0 % TWO32;
    h[1] := u1 % TWO32;
    h[2] := u2 % TWO32;
    h[3] := u3 % TWO32;
    h[4] := u4 % TWO32;
  }

  lemma AddLimbs(a0: int, a1: int, a2: int, a3: int, a4: int, b0: int, b1: int, b2: int, b3: int, b4: int)
    ensures Val5(a0, a1, a2, a3, a4) + Val5(b0, b1, b2, b3, b4) == Val5(a0 + b0, a1 + b1, a2 + b2, a3 + b3, a4 + b4)
  {
  }

  // ---------------------------------------------------------------------
  // The input buffer: sixteen bytes packed in four words
  // ---------------------------------------------------------------------

  ghost predicate Packs(c: seq<int>, buf: seq<byte>) {
    |c| >= 4 && |buf| == 16 && forall k :: 0 <= k < 4 ==> c[k] == LE(buf[4 * k..4 * k + 4])
  }

  lemma PacksTake(c: seq<int>, buf: seq<byte>, idx: nat, b: byte)
    requires Packs(c, buf) && idx < 16 && ZeroFrom(buf, idx)
    ensures 0 <= c[idx / 4]
    ensures var w := Or(c[idx / 4], b * Pow2(8 * (idx % 4)));
      w < TWO32 && Packs(c[idx / 4 := w], buf[idx := b])
  {
    hide Bitwise, LE, Pow2;
    var j := idx / 4;
    OrByte(buf[4 * j..4 * j + 4], idx % 4, b);
    Pow256Values();
    forall k | 0 <= k < 4
      ensures buf[idx := b][4 * k..4 * k + 4]
           == if k == j then buf[4 * j..4 * j + 4][idx % 4 := b] else buf[4 * k..4 * k + 4]
    {
    }
  }

  lemma PacksValue(c: seq<int>, buf: seq<byte>)
    requires Packs(c, buf)
    ensures Words4(c) == LE(buf)
  {
    Pow256Values();
    hide LE, Pow256;
    LEAppend(buf[0..4], buf[4..]);
    LEAppend(buf[4..8], buf[8..]);
    LEAppend(buf[8..12], buf[12..16]);
    assert buf == buf[0..4] + buf[4..] && buf[4..] == buf[4..8] + buf[8..] && buf[8..] == buf[8..12] + buf[12..16];
    assert c[0] == LE(buf[4 * 0..4 * 0 + 4]) && c[1] == LE(buf[4 * 1..4 * 1 + 4]);
    assert c[2] == LE(buf[4 * 2..4 * 2 + 4]) && c[3] == LE(buf[4 * 3..4 * 3 + 4]);
  }

  // ---------------------------------------------------------------------
  // The key: clamping word by word is the clamping of RFC 8439
  // ---------------------------------------------------------------------

  lemma ClampLow(x: nat)
    ensures And(x, 0x0fffffff) <= 0x0fffffff
  {
    hide Bitwise, Pow2;
    Pow2Values();
    AndOnes(28, x);
  }

  /** x & 0x0ffffffc keeps bits 2 to 27. */
  lemma ClampHigh(x: nat)
    ensures And(x, 0x0ffffffc) <= 0x0ffffffc && And(x, 0x0ffffffc) % 4 == 0
  {
    hide Bitwise, Pow2;
    Pow2Values();
    AndOnes(26, x / 4);
    AndShift2(x, 0x3ff_ffff);
  }

  lemma AndShift2(x: nat, m: nat)
    ensures And(x, 4 * m) == 4 * And(x / 4, m)
  {
    AndZero(x % 4);
    hide Bitwise, Pow2;
    Pow2Values();
    BitwiseSplit(AND, 2, x % 4, x / 4, 0, m);
  }

  lemma ClampWords(w0: nat, w1: nat, w2: nat, w3: nat)
    requires w0 < TWO32 && w1 < TWO32 && w2 < TWO32 && w3 < TWO32
    ensures And(Val4(w0, w1, w2, w3), CLAMP)
         == Val4(And(w0, 0x0fffffff), And(w1, 0x0ffffffc), And(w2, 0x0ffffffc), And(w3, 0x0ffffffc))
  {
    Pow2Values();
    hide Bitwise, Pow2;
    BitwiseSplit(AND, 32, w0, w1 + TWO32 * (w2 + TWO32 * w3), 0x0fffffff, 0x0ffffffc_0ffffffc_0ffffffc);
    BitwiseSplit(AND, 32, w1, w2 + TWO32 * w3, 0x0ffffffc, 0x0ffffffc_0ffffffc);
    BitwiseSplit(AND, 32, w2, w3, 0x0ffffffc, 0x0ffffffc);
  }

  /** Word k of the key. */
  function KeyWord(key: seq<byte>, k: nat): (w: u32)
    requires |key| == 32 && k < 8
  {
    Load32Value(key[4 * k..4 * k + 4]);
    Load32(key[4 * k..4 * k + 4])
  }

  lemma HalfKey(key: seq<byte>, half: nat)
    requires |key| == 32 && half < 2
    ensures LE(key[16 * half..16 * half + 16])
         == Val4(KeyWord(key, 4 * half), KeyWord(key, 4 * half + 1), KeyWord(key, 4 * half + 2), KeyWord(key, 4 * half + 3))
  {
    hide LE, Load32;
    var s := key[16 * half..16 * half + 16];
    var c := [KeyWord(key, 4 * half), KeyWord(key, 4 * half + 1), KeyWord(key, 4 * half + 2), KeyWord(key, 4 * half + 3)];
    forall k | 0 <= k < 4 ensures c[k] == LE(s[4 * k..4 * k + 4]) {
      SliceSlice(key, 16 * half, 16 * half + 16, 4 * k, 4 * k + 4);
      assert 4 * (4 * half + k) == 16 * half + 4 * k;
      assert c[k] == KeyWord(key, 4 * half + k);
      Load32Value(s[4 * k..4 * k + 4]);
      assert s[4 * k..4 * k + 4][..4] == s[4 * k..4 * k + 4];
    }
    PacksValue(c, s);
  }

  /** poly1305_init loads r and the pad from the key. */
  lemma KeyWords(key: seq<byte>)
    requires |key| == 32
    ensures Clamped(And(KeyWord(key, 0), 0x0fffffff), And(KeyWord(key, 1), 0x0ffffffc),
                    And(KeyWord(key, 2), 0x0ffffffc), And(KeyWord(key, 3), 0x0ffffffc))
    ensures Val4(And(KeyWord(key, 0), 0x0fffffff), And(KeyWord(key, 1), 0x0ffffffc),
                 And(KeyWord(key, 2), 0x0ffffffc), And(KeyWord(key, 3), 0x0ffffffc)) == KeyR(key)
    ensures Val4(KeyWord(key, 4), KeyWord(key, 5), KeyWord(key, 6), KeyWord(key, 7)) == LE(key[16..32])
  {
    hide LE, KeyWord, Bitwise, Val4;
    HalfKey(key, 0);
    HalfKey(key, 1);
    assert key[16 * 0..16 * 0 + 16] == key[..16] && key[16 * 1..16 * 1 + 16] == key[16..32];
    ClampWords(KeyWord(key, 0), KeyWord(key, 1), KeyWord(key, 2), KeyWord(key, 3));
    ClampLow(KeyWord(key, 0));
    ClampHigh(KeyWord(key, 1));
    ClampHigh(KeyWord(key, 2));
    ClampHigh(KeyWord(key, 3));
  }

  // ---------------------------------------------------------------------
  // The final reduction and the addition of the pad
  // ---------------------------------------------------------------------

  /** u4 counts how often 2^128 fits in h + 5, so u4 / 4 says whether h >= 2^130 - 5. */
  lemma FinalCarry(h0: int, h1: int, h2: int, h3: int, h4: int, u0: int, u1: int, u2: int, u3: int, u4: int)
    requires 0 <= h0 < TWO32 && 0 <= h1 < TWO32 && 0 <= h2 < TWO32 && 0 <= h3 < TWO32 && 0 <= h4 <= 4
    requires u0 == 5 + h0 && u1 == u0 / TWO32 + h1 && u2 == u1 / TWO32 + h2 && u3 == u2 / TWO32 + h3
    requires u4 == u3 / TWO32 + h4
    ensures 0 <= u4 <= 5 && u4 / 4 == if Val5(h0, h1, h2, h3, h4) >= P then 1 else 0
    ensures 0 <= Val5(h0, h1, h2, h3, h4) < 2 * P
  {
    var low := Val4(u0 % TWO32, u1 % TWO32, u2 % TWO32, u3 % TWO32);
    assert Val5(h0, h1, h2, h3, h4) + 5 == low + TWO64 * TWO64 * u4;
    assert 0 <= low < TWO64 * TWO64;
  }

  lemma FinalSum(h0: int, h1: int, h2: int, h3: int, h4: int, p0: int, p1: int, p2: int, p3: int, q: int,
                 v0: int, v1: int, v2: int, v3: int)
    requires 0 <= q <= 1
    requires v0 == q * 5 + h0 + p0 && v1 == v0 / TWO32 + h1 + p1
    requires v2 == v1 / TWO32 + h2 + p2 && v3 == v2 / TWO32 + h3 + p3
    ensures Val4(v0 % TWO32, v1 % TWO32, v2 % TWO32, v3 % TWO32)
         == (Val5(h0, h1, h2, h3, h4) - q * P + Val4(p0, p1, p2, p3)) % (TWO64 * TWO64)
  {
    var out := Val4(v0 % TWO32, v1 % TWO32, v2 % TWO32, v3 % TWO32);
    var sum := Val5(h0, h1, h2, h3, h4) - q * P + Val4(p0, p1, p2, p3);
    assert sum == out + (v3 / TWO32 + h4 - 4 * q) * (TWO64 * TWO64);
    DivModUnique(sum, TWO64 * TWO64, v3 / TWO32 + h4 - 4 * q, out);
  }

  /** The arithmetic of crypto_poly1305_final, after the last block. */
  method FinalWords(h0: u32, h1: u32, h2: u32, h3: u32, h4: u32, p0: u32, p1: u32, p2: u32, p3: u32)
    returns (v0: u32, v1: u32, v2: u32, v3: u32)
    requires h4 <= 4
    ensures Val4(v0, v1, v2, v3) == (Val5(h0, h1, h2, h3, h4) % P + Val4(p0, p1, p2, p3)) % (TWO64 * TWO64)
  {
    hide Val4, Val5;
    var u0: u64 := 5 + h0 as int;
    var u1: u64 := u0 / TWO32 + h1;
    var u2: u64 := u1 / TWO32 + h2;
    var u3: u64 := u2 / TWO32 + h3;
    var u4: u64 := u3 / TWO32 + h4;
    FinalCarry(h0, h1, h2, h3, h4, u0, u1, u2, u3, u4);

    var uu0: u64 := u4 / 4 * 5 + h0 + p0;
    var uu1: u64 := uu0 / TWO32 + h1 + p1;
    var uu2: u64 := uu1 / TWO32 + h2 + p2;
    var uu3: u64 := uu2 / TWO32 + h3 + p3;
    FinalSum(h0, h1, h2, h3, h4, p0, p1, p2, p3, u4 / 4, uu0, uu1, uu2, uu3);
    ghost var v := Val5(h0, h1, h2, h3, h4);
    assert v % P == v - u4 / 4 * P by { DivModUnique(v, P, u4 / 4, v - u4 / 4 * P); }
    v0, v1, v2, v3 := uu0 % TWO32, uu1 % TWO32, uu2 % TWO32, uu3 % TWO32;
  }
}
