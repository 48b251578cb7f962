/** What the functions of section 4.1.3 of FIPS 180-4 do to the bits of their arguments, and a round and a whole
    compression as sums modulo 2^64. */
module Sha512Words {
  import opened Words
  import opened Bits
  import opened Scalars
  import opened Blocks
  import opened Sha512Stream
  import opened Sha512Compress

  // ---------------------------------------------------------------------
  // Bits of words
  // ---------------------------------------------------------------------

  lemma BitOfRight(x: nat, n: nat, i: nat)
    ensures x / Pow2(n) >= 0 && Bit(x / Pow2(n), i) == Bit(x, i + n)
  {
    hide Pow2;
    ShrBound(x, Pow2(n));
    Pow2Add(n, i);
    DivDiv(x, Pow2(n), Pow2(i));
  }

  /** A left shift, before anything is dropped. */
  lemma {:induction false} BitOfLeft(x: nat, n: nat, i: nat)
    ensures Bit(x * Pow2(n), i) == if i < n then 0 else Bit(x, i - n)
  {
    hide Bit;
    if n == 0 {
    } else {
      assert x * Pow2(n) == 2 * (x * Pow2(n - 1));
      var y := x * Pow2(n - 1);
      hide Pow2;
      if i == 0 {
        BitNext(2 * y, 0);
      } else {
        BitNext(2 * y, i - 1);
        BitOfLeft(x, n - 1, i - 1);
      }
    }
  }

  /** The bits below bit n stay. */
  lemma {:induction false} BitOfRemainder(y: nat, n: nat, i: nat)
    requires i < n
    ensures Bit(y % Pow2(n), i) == Bit(y, i)
  {
    hide Bit;
    var p := Pow2(n - 1);
    assert Pow2(n) == 2 * p;
    hide Pow2;
    HalfMod(y, p);
    var r := y % (2 * p);
    if i == 0 {
      BitNext(y, 0);
      BitNext(r, 0);
    } else {
      BitNext(y, i - 1);
      BitNext(r, i - 1);
      BitOfRemainder(y / 2, n - 1, i - 1);
    }
  }

  lemma WordEnd(x: u64, i: nat)
    requires i >= 64
    ensures Bit(x, i) == 0
  {
    Pow2Values();
    hide Pow2;
    Pow2Add(64, i - 64);
    MulOrder(1, Pow2(i - 64), Pow2(64));
    ShiftSmall(x, i);
  }

  /** ROTR of section 3.2 of FIPS 180-4. */
  lemma RotrBit(x: u64, n: nat, i: nat)
    requires 0 < n < 64 && i < 64
    ensures Bit(Rotr(x, n), i) == Bit(x, (i + n) % 64)
  {
    hide Bit, Bitwise, Pow2;
    Pow2Values();
    BitOfBitwise(OR, Shr64(x, n), Shl64(x, 64 - n), i);
    BitOfRight(x, n, i);
    BitOfRemainder(x * Pow2(64 - n), 64, i);
    BitOfLeft(x, 64 - n, i);
    if i + n >= 64 {
      WordEnd(x, i + n);
    } else {
      assert i < 64 - n;
    }
  }

  /** SHR: nothing comes in at the top. */
  lemma ShrBit(x: u64, n: nat, i: nat)
    requires i < 64
    ensures Bit(Shr64(x, n), i) == if i + n < 64 then Bit(x, i + n) else 0
  {
    hide Bit, Pow2;
    BitOfRight(x, n, i);
    if i + n >= 64 { WordEnd(x, i + n); }
  }

  lemma XorBit(x: u64, y: u64, i: nat)
    ensures Bit(Xor64(x, y), i) == (Bit(x, i) + Bit(y, i)) % 2
  {
    BitOfBitwise(XOR, x, y, i);
    hide Bit, Bitwise;
  }

  lemma AndBit(x: u64, y: u64, i: nat)
    ensures Bit(And64(x, y), i) == if Bit(x, i) == 1 then Bit(y, i) else 0
  {
    BitOfBitwise(AND, x, y, i);
    hide Bit, Bitwise;
  }

  lemma {:induction false} ComplementBits(n: nat, a: nat, b: nat, i: nat)
    requires a + b + 1 == Pow2(n) && i < n
    ensures Bit(a, i) + Bit(b, i) == 1
  {
    hide Bit;
    if i == 0 {
      BitNext(a, 0);
      BitNext(b, 0);
    } else {
      BitNext(a, i - 1);
      BitNext(b, i - 1);
      ComplementBits(n - 1, a / 2, b / 2, i - 1);
    }
  }

  lemma NotBit(x: u64, i: nat)
    requires i < 64
    ensures Bit(Not64(x), i) == 1 - Bit(x, i)
  {
    Pow2Values();
    hide Bit, Pow2;
    ComplementBits(64, x, Not64(x), i);
  }

  // ---------------------------------------------------------------------
  // Section 4.1.3 of FIPS 180-4
  // ---------------------------------------------------------------------

  lemma BigSigma0Bits(x: u64, i: nat)
    requires i < 64
    ensures Bit(BigSigma0(x), i) == (Bit(x, (i + 28) % 64) + Bit(x, (i + 34) % 64) + Bit(x, (i + 39) % 64)) % 2
  {
    hide Bit, Rotr, Xor64;
    XorBit(Xor64(Rotr(x, 28), Rotr(x, 34)), Rotr(x, 39), i);
    XorBit(Rotr(x, 28), Rotr(x, 34), i);
    RotrBit(x, 28, i);
    RotrBit(x, 34, i);
    RotrBit(x, 39, i);
  }

  lemma BigSigma1Bits(x: u64, i: nat)
    requires i < 64
    ensures Bit(BigSigma1(x), i) == (Bit(x, (i + 14) % 64) + Bit(x, (i + 18) % 64) + Bit(x, (i + 41) % 64)) % 2
  {
    hide Bit, Rotr, Xor64;
    XorBit(Xor64(Rotr(x, 14), Rotr(x, 18)), Rotr(x, 41), i);
    XorBit(Rotr(x, 14), Rotr(x, 18), i);
    RotrBit(x, 14, i);
    RotrBit(x, 18, i);
    RotrBit(x, 41, i);
  }

  lemma Sigma0Bits(x: u64, i: nat)
    requires i < 64
    ensures Bit(Sigma0(x), i)
         == (Bit(x, (i + 1) % 64) + Bit(x, (i + 8) % 64) + (if i + 7 < 64 then Bit(x, i + 7) else 0)) % 2
  {
    hide Bit, Rotr, Xor64, Shr64;
    XorBit(Xor64(Rotr(x, 1), Rotr(x, 8)), Shr64(x, 7), i);
    XorBit(Rotr(x, 1), Rotr(x, 8), i);
    RotrBit(x, 1, i);
    RotrBit(x, 8, i);
    ShrBit(x, 7, i);
  }

  lemma Sigma1Bits(x: u64, i: nat)
    requires i < 64
    ensures Bit(Sigma1(x), i)
         == (Bit(x, (i + 19) % 64) + Bit(x, (i + 61) % 64) + (if i + 6 < 64 then Bit(x, i + 6) else 0)) % 2
  {
    hide Bit, Rotr, Xor64, Shr64;
    XorBit(Xor64(Rotr(x, 19), Rotr(x, 61)), Shr64(x, 6), i);
    XorBit(Rotr(x, 19), Rotr(x, 61), i);
    RotrBit(x, 19, i);
    RotrBit(x, 61, i);
    ShrBit(x, 6, i);
  }

  /** Ch chooses between y and z. */
  lemma ChBits(x: u64, y: u64, z: u64, i: nat)
    requires i < 64
    ensures Bit(Ch(x, y, z), i) == if Bit(x, i) == 1 then Bit(y, i) else Bit(z, i)
  {
    hide Bit, Xor64, And64, Not64;
    XorBit(And64(x, y), And64(Not64(x), z), i);
    AndBit(x, y, i);
    AndBit(Not64(x), z, i);
    NotBit(x, i);
  }

  /** Maj is 1 where two or three of its arguments are. */
  lemma MajorityBits(x: u64, y: u64, z: u64, i: nat)
    requires i < 64
    ensures Bit(Maj(x, y, z), i) == if Bit(x, i) + Bit(y, i) + Bit(z, i) >= 2 then 1 else 0
  {
    hide Bit, Xor64, And64;
    XorBit(Xor64(And64(x, y), And64(x, z)), And64(y, z), i);
    XorBit(And64(x, y), And64(x, z), i);
    AndBit(x, y, i);
    AndBit(x, z, i);
    AndBit(y, z, i);
  }

  // ---------------------------------------------------------------------
  // Sections 6.4.2 of FIPS 180-4: the schedule, the rounds and the sum at the end
  // ---------------------------------------------------------------------

  lemma AddMod(x: int, a: u64, b: u64)
    requires a == x % 0x1_0000_0000_0000_0000
    ensures Add(a, b) == (x + b) % 0x1_0000_0000_0000_0000
  {
    ModAdd(x, b, 0x1_0000_0000_0000_0000);
  }

  lemma AddTwo(a: u64, b: u64)
    ensures Add(a, b) == (a as int + b) % 0x1_0000_0000_0000_0000
  {
  }

  /** The two sums of a round; everything else moves on by one register. */
  lemma RoundSums(r: Registers, w: u64, k: u64)
    ensures var n := Round(r, w, k);
            var t1 := r.h as int + BigSigma1(r.e) + Ch(r.e, r.f, r.g) + k + w;
            && n.a == (t1 + BigSigma0(r.a) + Maj(r.a, r.b, r.c)) % 0x1_0000_0000_0000_0000
            && n.e == (r.d + t1) % 0x1_0000_0000_0000_0000
            && n.b == r.a && n.c == r.b && n.d == r.c && n.f == r.e && n.g == r.f && n.h == r.g
  {
    hide BigSigma0, BigSigma1, Ch, Maj, Add;
    var s, c, S, m := BigSigma1(r.e), Ch(r.e, r.f, r.g), BigSigma0(r.a), Maj(r.a, r.b, r.c);
    var t1 := r.h as int + s + c + k + w;
    var u1 := Add(Add(Add(Add(r.h, s), c), k), w);
    AddTwo(r.h, s);
    AddMod(r.h as int + s, Add(r.h, s), c);
    AddMod(r.h as int + s + c, Add(Add(r.h, s), c), k);
    AddMod(r.h as int + s + c + k, Add(Add(Add(r.h, s), c), k), w);
    AddComm(r.d, u1);
    AddMod(t1, u1, r.d);
    AddAssoc(u1, S, m);
    AddMod(t1, u1, S);
    AddMod(t1 + S, Add(u1, S), m);
  }

  lemma FourSum(a: u64, b: u64, c: u64, d: u64)
    ensures Add(Add(Add(a, b), c), d) == (a as int + b + c + d) % 0x1_0000_0000_0000_0000
  {
    hide Add;
    AddTwo(a, b);
    AddMod(a as int + b, Add(a, b), c);
    AddMod(a as int + b + c, Add(Add(a, b), c), d);
  }

  lemma WIs(m: seq<u64>, t: nat)
    requires |m| == 16
    ensures t < 16 ==> W(m, t) == m[t]
    ensures t >= 16 ==>
      W(m, t) == Add(Add(Add(Sigma1(W(m, t - 2)), W(m, t - 7)), Sigma0(W(m, t - 15))), W(m, t - 16))
  {
    hide Sigma0, Sigma1, Add;
  }

  lemma ScheduleSums(m: seq<u64>, t: nat)
    requires |m| == 16
    ensures t < 16 ==> W(m, t) == m[t]
    ensures t >= 16 ==>
      W(m, t) == (Sigma1(W(m, t - 2)) as int + W(m, t - 7) + Sigma0(W(m, t - 15)) + W(m, t - 16))
                 % 0x1_0000_0000_0000_0000
  {
    hide *;
    WIs(m, t);
    if t >= 16 {
      FourSum(Sigma1(W(m, t - 2)), W(m, t - 7), Sigma0(W(m, t - 15)), W(m, t - 16));
    }
  }

  /** Word t of a message schedule, from the words before it. */
  ghost predicate Scheduled(w: seq<u64>, t: nat)
    requires |w| == 80 && 16 <= t < 80
  {
    w[t] == (Sigma1(w[t - 2]) as int + w[t - 7] + Sigma0(w[t - 15]) + w[t - 16]) % 0x1_0000_0000_0000_0000
  }

  /** w is the message schedule of the block m. */
  ghost predicate IsSchedule(w: seq<u64>, m: Words16) {
    |w| == 80 && w[..16] == m && forall t :: 16 <= t < 80 ==> Scheduled(w, t)
  }

  /** From r to n in a round, with the word w and the constant k. */
  ghost predicate IsRound(n: Registers, r: Registers, w: u64, k: u64) {
    var t1 := r.h as int + BigSigma1(r.e) + Ch(r.e, r.f, r.g) + k + w;
    && n.a == (t1 + BigSigma0(r.a) + Maj(r.a, r.b, r.c)) % 0x1_0000_0000_0000_0000
    && n.e == (r.d + t1) % 0x1_0000_0000_0000_0000
    && n.b == r.a && n.c == r.b && n.d == r.c && n.f == r.e && n.g == r.f && n.h == r.g
  }

  /** The working variables at the start and after each of eighty rounds. */
  ghost predicate IsRun(st: seq<Registers>, h: Hash8, w: seq<u64>)
    requires |w| == 80
  {
    && |st| == 81 && st[0] == Registers(h[0], h[1], h[2], h[3], h[4], h[5], h[6], h[7])
    && (forall t :: 0 <= t < 80 ==> IsRound(st[t + 1], st[t], w[t], K(t)))
  }

  lemma ScheduleAt(w: seq<u64>, m: Words16, t: nat)
    requires IsSchedule(w, m) && t < 80
    ensures |w| == 80
    ensures t < 16 ==> w[t] == m[t]
    ensures t >= 16 ==>
      w[t] == (Sigma1(w[t - 2]) as int + w[t - 7] + Sigma0(w[t - 15]) + w[t - 16]) % 0x1_0000_0000_0000_0000
  {
    hide Sigma0, Sigma1;
    if t < 16 { assert w[t] == w[..16][t]; } else { assert Scheduled(w, t); }
  }

  lemma {:induction false} ScheduleIs(w: seq<u64>, m: Words16, t: nat)
    requires IsSchedule(w, m) && t < 80
    ensures |w| == 80 && w[t] == W(m, t)
  {
    hide *;
    ScheduleSums(m, t);
    ScheduleAt(w, m, t);
    if t >= 16 {
      ScheduleIs(w, m, t - 2);
      ScheduleIs(w, m, t - 7);
      ScheduleIs(w, m, t - 15);
      ScheduleIs(w, m, t - 16);
    }
  }

  lemma RoundIs(n: Registers, r: Registers, w: u64, k: u64)
    ensures IsRound(n, r, w, k) <==> n == Round(r, w, k)
  {
    hide BigSigma0, BigSigma1, Ch, Maj, Round;
    RoundSums(r, w, k);
  }

  lemma RunAt(st: seq<Registers>, h: Hash8, w: seq<u64>, t: nat)
    requires |w| == 80 && IsRun(st, h, w) && t < 80
    ensures |st| == 81 && st[0] == Start(h) && IsRound(st[t + 1], st[t], w[t], K(t))
  {
    hide IsRound, K;
  }

  /** Every block has a schedule, and every hash and block have a run. */
  lemma RunExists(h: Hash8, m: Words16) returns (w: seq<u64>, st: seq<Registers>)
    ensures |w| == 80 && IsSchedule(w, m) && IsRun(st, h, w)
  {
    w := SomeSchedule(m);
    hide W, Rounds, Round, K, IsRound;
    st := seq(81, t requires 0 <= t < 81 => Rounds(Start(h), m, t));
    RoundsStart(Start(h), m);
    forall t: nat | t < 80 ensures IsRound(st[t + 1], st[t], w[t], K(t)) {
      RoundsNext(Start(h), m, t);
      RoundIs(st[t + 1], st[t], w[t], K(t));
    }
  }

  lemma SomeSchedule(m: Words16) returns (w: seq<u64>)
    ensures |w| == 80 && IsSchedule(w, m) && forall t :: 0 <= t < 80 ==> w[t] == W(m, t)
  {
    hide W, Sigma0, Sigma1;
    w := seq(80, t requires 0 <= t < 80 => W(m, t));
    forall t: nat | t < 80
      ensures t < 16 ==> w[t] == m[t]
      ensures t >= 16 ==> Scheduled(w, t)
    {
      ScheduleSums(m, t);
    }
    assert w[..16] == m;
  }

  lemma {:induction false} RunIs(st: seq<Registers>, h: Hash8, m: Words16, w: seq<u64>, t: nat)
    requires |w| == 80 && IsSchedule(w, m) && IsRun(st, h, w) && t <= 80
    ensures |st| == 81 && st[t] == Rounds(Start(h), m, t)
  {
    hide *;
    RoundsStart(Start(h), m);
    if t == 0 {
      RunAt(st, h, w, 0);
    } else {
      RunIs(st, h, m, w, t - 1);
      ScheduleIs(w, m, t - 1);
      RunAt(st, h, w, t - 1);
      RoundIs(st[t], st[t - 1], w[t - 1], K(t - 1));
      RoundsNext(Start(h), m, t - 1);
    }
  }

  /** The compression function: each word of the hash plus a register of the last round. */
  lemma CompressSums(st: seq<Registers>, h: Hash8, m: Words16, w: seq<u64>)
    requires |w| == 80 && IsSchedule(w, m) && IsRun(st, h, w)
    ensures |st| == 81
    ensures var r := st[80];
            Compress(h, m) ==
              [(h[0] as int + r.a) % 0x1_0000_0000_0000_0000, (h[1] as int + r.b) % 0x1_0000_0000_0000_0000,
               (h[2] as int + r.c) % 0x1_0000_0000_0000_0000, (h[3] as int + r.d) % 0x1_0000_0000_0000_0000,
               (h[4] as int + r.e) % 0x1_0000_0000_0000_0000, (h[5] as int + r.f) % 0x1_0000_0000_0000_0000,
               (h[6] as int + r.g) % 0x1_0000_0000_0000_0000, (h[7] as int + r.h) % 0x1_0000_0000_0000_0000]
  {
    hide *;
    RunIs(st, h, m, w, 80);
    CompressIs(h, m);
    AddedSums(h, st[80]);
  }

  lemma AddedSums(h: Hash8, r: Registers)
    ensures Added(h, r) ==
              [(h[0] as int + r.a) % 0x1_0000_0000_0000_0000, (h[1] as int + r.b) % 0x1_0000_0000_0000_0000,
               (h[2] as int + r.c) % 0x1_0000_0000_0000_0000, (h[3] as int + r.d) % 0x1_0000_0000_0000_0000,
               (h[4] as int + r.e) % 0x1_0000_0000_0000_0000, (h[5] as int + r.f) % 0x1_0000_0000_0000_0000,
               (h[6] as int + r.g) % 0x1_0000_0000_0000_0000, (h[7] as int + r.h) % 0x1_0000_0000_0000_0000]
  {
  }
}
