/** The two SHA-512 compression functions: Monocypher's, with sixteen words as a ring, and Raaz's, with
    rotating register names, against section 6.4.2 of FIPS 180-4. */
module Sha512Compress {
  import opened Words
  import opened Bits
  import opened Blocks
  import opened Chunks
  import opened Sha512Stream

  // ---------------------------------------------------------------------
  // Section 4.1.3 of FIPS 180-4
  // ---------------------------------------------------------------------

  lemma WordBitwise(op: Op, a: u64, b: u64)
    ensures Bitwise(op, a, b) < TWO64
  {
    Pow2Values();
    hide Pow2, Bitwise;
    BitwiseBound(op, 64, a, b);
  }

  function And64(a: u64, b: u64): (c: u64) { WordBitwise(AND, a, b); And(a, b) }
  function Or64(a: u64, b: u64): (c: u64) { WordBitwise(OR, a, b); Or(a, b) }
  function Xor64(a: u64, b: u64): (c: u64) { WordBitwise(XOR, a, b); Xor(a, b) }
  function Not64(a: u64): (c: u64) { TWO64 - 1 - a }
  function Add(a: u64, b: u64): (c: u64) { (a as int + b) % TWO64 }

  function Shr64(x: u64, n: nat): (r: u64) {
    ShrBound(x, Pow2(n));
    x / Pow2(n)
  }

  function Shl64(x: u64, n: nat): (r: u64) {
    x * Pow2(n) % TWO64
  }

  function Rotr(x: u64, n: nat): (r: u64)
    requires n <= 64
  {
    Or64(Shr64(x, n), Shl64(x, 64 - n))
  }

  function BigSigma0(x: u64): (r: u64) { Xor64(Xor64(Rotr(x, 28), Rotr(x, 34)), Rotr(x, 39)) }
  function BigSigma1(x: u64): (r: u64) { Xor64(Xor64(Rotr(x, 14), Rotr(x, 18)), Rotr(x, 41)) }
  function Sigma0(x: u64): (r: u64) { Xor64(Xor64(Rotr(x, 1), Rotr(x, 8)), Shr64(x, 7)) }
  function Sigma1(x: u64): (r: u64) { Xor64(Xor64(Rotr(x, 19), Rotr(x, 61)), Shr64(x, 6)) }
  function Ch(x: u64, y: u64, z: u64): (r: u64) { Xor64(And64(x, y), And64(Not64(x), z)) }
  function Maj(x: u64, y: u64, z: u64): (r: u64) { Xor64(Xor64(And64(x, y), And64(x, z)), And64(y, z)) }

  /** The round constants, in rows of eight; both sources list the same eighty. */
  function KRow(i: nat): (row: seq<u64>)
    requires i < 10
    ensures |row| == 8
  {
    match i
    case 0 => [0x428a2f98d728ae22, 0x7137449123ef65cd, 0xb5c0fbcfec4d3b2f, 0xe9b5dba58189dbbc,
              0x3956c25bf348b538, 0x59f111f1b605d019, 0x923f82a4af194f9b, 0xab1c5ed5da6d8118]
    case 1 => [0xd807aa98a3030242, 0x12835b0145706fbe, 0x243185be4ee4b28c, 0x550c7dc3d5ffb4e2,
              0x72be5d74f27b896f, 0x80deb1fe3b1696b1, 0x9bdc06a725c71235, 0xc19bf174cf692694]
    case 2 => [0xe49b69c19ef14ad2, 0xefbe4786384f25e3, 0x0fc19dc68b8cd5b5, 0x240ca1cc77ac9c65,
              0x2de92c6f592b0275, 0x4a7484aa6ea6e483, 0x5cb0a9dcbd41fbd4, 0x76f988da831153b5]
    case 3 => [0x983e5152ee66dfab, 0xa831c66d2db43210, 0xb00327c898fb213f, 0xbf597fc7beef0ee4,
              0xc6e00bf33da88fc2, 0xd5a79147930aa725, 0x06ca6351e003826f, 0x142929670a0e6e70]
    case 4 => [0x27b70a8546d22ffc, 0x2e1b21385c26c926, 0x4d2c6dfc5ac42aed, 0x53380d139d95b3df,
              0x650a73548baf63de, 0x766a0abb3c77b2a8, 0x81c2c92e47edaee6, 0x92722c851482353b]
    case 5 => [0xa2bfe8a14cf10364, 0xa81a664bbc423001, 0xc24b8b70d0f89791, 0xc76c51a30654be30,
              0xd192e819d6ef5218, 0xd69906245565a910, 0xf40e35855771202a, 0x106aa07032bbd1b8]
    case 6 => [0x19a4c116b8d2d0c8, 0x1e376c085141ab53, 0x2748774cdf8eeb99, 0x34b0bcb5e19b48a8,
              0x391c0cb3c5c95a63, 0x4ed8aa4ae3418acb, 0x5b9cca4f7763e373, 0x682e6ff3d6b2b8a3]
    case 7 => [0x748f82ee5defb2fc, 0x78a5636f43172f60, 0x84c87814a1f0ab72, 0x8cc702081a6439ec,
              0x90befffa23631e28, 0xa4506cebde82bde9, 0xbef9a3f7b2c67915, 0xc67178f2e372532b]
    case 8 => [0xca273eceea26619c, 0xd186b8c721c0c207, 0xeada7dd6cde0eb1e, 0xf57d4f7fee6ed178,
              0x06f067aa72176fba, 0x0a637dc5a2c898a6, 0x113f9804bef90dae, 0x1b710b35131c471b]
    case 9 => [0x28db77f523047d84, 0x32caab7b40c72493, 0x3c9ebe0a15c9bebc, 0x431d67c49c100d4c,
              0x4cc5d4becb3e42b6, 0x597f299cfc657e2a, 0x5fcb6fab3ad6faec, 0x6c44198c4a475817]
  }

  function K(t: nat): (k: u64)
    requires t < 80
  {
    KRow(t / 8)[t % 8]
  }

  /** The message schedule. */
  function W(m: seq<u64>, t: nat): (w: u64)
    requires |m| == 16
  {
    if t < 16 then m[t] else Add(Add(Add(Sigma1(W(m, t - 2)), W(m, t - 7)), Sigma0(W(m, t - 15))), W(m, t - 16))
  }

  /** The working variables. */
  datatype Registers = Registers(a: u64, b: u64, c: u64, d: u64, e: u64, f: u64, g: u64, h: u64)

  function Round(r: Registers, w: u64, k: u64): Registers {
    var t1 := Add(Add(Add(Add(r.h, BigSigma1(r.e)), Ch(r.e, r.f, r.g)), k), w);
    var t2 := Add(BigSigma0(r.a), Maj(r.a, r.b, r.c));
    Registers(Add(t1, t2), r.a, r.b, r.c, Add(r.d, t1), r.e, r.f, r.g)
  }

  function Rounds(r: Registers, m: seq<u64>, t: nat): Registers
    requires |m| == 16 && t <= 80
  {
    if t == 0 then r else Round(Rounds(r, m, t - 1), W(m, t - 1), K(t - 1))
  }

  function Start(hash: seq<u64>): Registers
    requires |hash| == 8
  {
    Registers(hash[0], hash[1], hash[2], hash[3], hash[4], hash[5], hash[6], hash[7])
  }

  function Compress(hash: Hash8, m: Words16): (r: Hash8) {
    hide *;
    Added(hash, Rounds(Start(hash), m, 80))
  }

  function Added(hash: Hash8, r: Registers): (s: Hash8) {
    [Add(hash[0], r.a), Add(hash[1], r.b), Add(hash[2], r.c), Add(hash[3], r.d),
     Add(hash[4], r.e), Add(hash[5], r.f), Add(hash[6], r.g), Add(hash[7], r.h)]
  }

  /** What the sixteen words of Monocypher's block are left as: the last words of the schedule. */
  function Left(hash: Hash8, m: Words16): (r: Words16) {
    hide W;
    seq(16, k requires 0 <= k < 16 => W(m, 64 + k))
  }

  /** One more word of the schedule, sixteen after w. */
  lemma WNext(m: seq<u64>, t: nat)
    requires |m| == 16
    ensures W(m, t + 16) == Add(Add(Add(Sigma1(W(m, t + 14)), W(m, t + 9)), Sigma0(W(m, t + 1))), W(m, t))
  {
    hide Sigma0, Sigma1, Add;
  }

  lemma AddComm(a: u64, b: u64)
    ensures Add(a, b) == Add(b, a)
  {
  }

  lemma AddAssoc(a: u64, b: u64, c: u64)
    ensures Add(Add(a, b), c) == Add(a, Add(b, c))
  {
    ModAdd(a as int + b, c, TWO64);
    ModAdd(a, b as int + c, TWO64);
  }

  lemma FiveTerms(s: u64, c: u64, h: u64, k: u64, w: u64)
    ensures Add(Add(Add(s, c), h), Add(k, w)) == Add(Add(Add(Add(h, s), c), k), w)
  {
    hide Add;
    AddAssoc(Add(Add(s, c), h), k, w);
    AddComm(Add(s, c), h);
    AddAssoc(h, s, c);
  }

  lemma FourTerms(w: u64, s1: u64, s0: u64, w9: u64)
    ensures Add(Add(Add(w, s1), s0), w9) == Add(Add(Add(s1, w9), s0), w)
    ensures Add(w, Add(Add(s1, w9), s0)) == Add(Add(Add(s1, w9), s0), w)
  {
    hide Add;
    AddComm(w, s1);
    AddAssoc(s1, w, s0);
    AddAssoc(s1, Add(w, s0), w9);
    AddAssoc(w, s0, w9);
    AddAssoc(s1, w9, s0);
    AddComm(w9, s0);
    AddComm(w, Add(s0, w9));
    AddAssoc(s1, Add(s0, w9), w);
    AddComm(w, Add(Add(s1, w9), s0));
  }

  // ---------------------------------------------------------------------
  // sha512_compress of Monocypher
  // ---------------------------------------------------------------------

  /** The body of a round, with the sum as it is associated in the source. */
  method RingRound(r: Registers, w: u64, k: u64) returns (n: Registers)
    ensures n == Round(r, w, k)
  {
    hide BigSigma0, BigSigma1, Ch, Maj, Add;
    var a, b, c, d, e, f, g, h := r.a, r.b, r.c, r.d, r.e, r.f, r.g, r.h;
    FiveTerms(BigSigma1(e), Ch(e, f, g), h, k, w);
    var input := Add(k, w);
    var t1 := Add(Add(Add(BigSigma1(e), Ch(e, f, g)), h), input);
    var t2 := Add(BigSigma0(a), Maj(a, b, c));
    h := g;
    g := f;
    f := e;
    e := Add(d, t1);
    d := c;
    c := b;
    b := a;
    a := Add(t1, t2);
    n := Registers(a, b, c, d, e, f, g, h);
  }

  /** Words before position j are already those of the round of sixteen that starts at t, the others
      still those of the one before. */
  ghost predicate Ring(input: seq<u64>, m: seq<u64>, t: nat, j: nat)
    requires |m| == 16 && t >= 16
  {
    |input| == 16 && j <= 16 && forall k :: 0 <= k < 16 ==> input[k] == W(m, if k < j then t + k else t - 16 + k)
  }

  /** The words that position j is computed from, at (j - 2) & 15, (j - 15) & 15 and (j - 7) & 15. */
  lemma RingAt(input: seq<u64>, m: seq<u64>, t: nat, j: nat)
    requires |m| == 16 && t >= 16 && j < 16 && Ring(input, m, t, j)
    ensures input[j] == W(m, t - 16 + j) && input[(j + 14) % 16] == W(m, t - 16 + j + 14)
    ensures input[(j + 9) % 16] == W(m, t - 16 + j + 9) && input[(j + 1) % 16] == W(m, t - 16 + j + 1)
  {
    hide W;
  }

  lemma RingStep(input: seq<u64>, m: seq<u64>, t: nat, j: nat)
    requires |m| == 16 && t >= 16 && j < 16 && Ring(input, m, t, j)
    ensures Ring(input[j := W(m, t + j)], m, t, j + 1)
  {
    hide W;
  }

  /** input[j] += lit_sigma1(...) and so on: the word that is sixteen older becomes the new one. */
  method AdvanceRing(input: array<u64>, ghost m: seq<u64>, ghost t: nat, j: nat)
    requires |m| == 16 && t >= 16 && input.Length == 16 && j < 16 && Ring(input[..], m, t, j)
    modifies input
    ensures Ring(input[..], m, t, j + 1) && input[j] == W(m, t + j)
  {
    hide *;
    ghost var was := input[..];
    WNext(m, t - 16 + j);
    RingAt(was, m, t, j);
    RingStep(was, m, t, j);
    var k14, k9, k1 := (j + 14) % 16, (j + 9) % 16, (j + 1) % 16;
    FourTerms(input[j], Sigma1(input[k14]), Sigma0(input[k1]), input[k9]);
    input[j] := Add(input[j], Sigma1(input[k14]));
    input[j] := Add(input[j], Sigma0(input[k1]));
    input[j] := Add(input[j], input[k9]);
    assert input[..] == was[j := W(m, t + j)];
  }

  /** The whole compression of one block; the sixteen words are overwritten. */
  method RingCompress(hash: array<u64>, input: array<u64>)
    requires hash.Length == 8 && input.Length == 16 && hash != input
    modifies hash, input
    ensures hash[..] == Compress(old(hash[..]), old(input[..]))
    ensures input[..] == Left(old(hash[..]), old(input[..]))
  {
    hide *;
    ghost var m, h0 := input[..], hash[..];
    var r := Start(hash[..]);
    RoundsStart(r, m);
    for j := 0 to 16
      invariant r == Rounds(Start(h0), m, j) && input[..] == m && hash[..] == h0
    {
      FirstWords(m, j);
      RoundsNext(Start(h0), m, j);
      r := RingRound(r, input[j], K(j));
    }
    FirstRing(m);
    for i := 1 to 5
      invariant r == Rounds(Start(h0), m, 16 * i) && Ring(input[..], m, 16 * i, 0) && hash[..] == h0
    {
      for j := 0 to 16
        invariant r == Rounds(Start(h0), m, 16 * i + j) && Ring(input[..], m, 16 * i, j) && hash[..] == h0
      {
        AdvanceRing(input, m, 16 * i, j);
        RoundsNext(Start(h0), m, 16 * i + j);
        r := RingRound(r, input[j], K(16 * i + j));
      }
      NextRing(input[..], m, 16 * i);
    }
    LeftWords(input[..], h0, m);
    AddRegisters(hash, r);
    CompressIs(h0, m);
  }

  lemma LeftWords(input: seq<u64>, h: Hash8, m: Words16)
    requires Ring(input, m, 80, 0)
    ensures input == Left(h, m)
  {
    hide W;
  }

  lemma RoundsStart(r: Registers, m: seq<u64>)
    requires |m| == 16
    ensures Rounds(r, m, 0) == r
  {
  }

  lemma RoundsNext(r: Registers, m: seq<u64>, t: nat)
    requires |m| == 16 && t < 80
    ensures Rounds(r, m, t + 1) == Round(Rounds(r, m, t), W(m, t), K(t))
  {
    hide Round, W, K;
  }

  lemma CompressIs(h: Hash8, m: Words16)
    ensures Compress(h, m) == Added(h, Rounds(Start(h), m, 80))
  {
    hide Rounds, Start, Add;
  }

  lemma FirstWords(m: seq<u64>, j: nat)
    requires |m| == 16 && j < 16
    ensures W(m, j) == m[j]
  {
  }

  lemma FirstRing(m: seq<u64>)
    requires |m| == 16
    ensures Ring(m, m, 16, 0)
  {
  }

  lemma NextRing(input: seq<u64>, m: seq<u64>, t: nat)
    requires |m| == 16 && t >= 16 && Ring(input, m, t, 16)
    ensures Ring(input, m, t + 16, 0)
  {
    hide W;
  }

  method AddInto(hash: array<u64>, i: nat, x: u64)
    requires hash.Length == 8 && i < 8
    modifies hash
    ensures hash[..] == old(hash[..])[i := Add(old(hash[i]), x)]
  {
    hide Add;
    hash[i] := Add(hash[i], x);
  }

  /** hash[0] += a and so on */
  method AddRegisters(hash: array<u64>, r: Registers)
    requires hash.Length == 8
    modifies hash
    ensures hash[..] == Added(old(hash[..]), r)
  {
    hide Add;
    AddInto(hash, 0, r.a);
    AddInto(hash, 1, r.b);
    AddInto(hash, 2, r.c);
    AddInto(hash, 3, r.d);
    AddInto(hash, 4, r.e);
    AddInto(hash, 5, r.f);
    AddInto(hash, 6, r.g);
    AddInto(hash, 7, r.h);
  }

  // ---------------------------------------------------------------------
  // raazHashSha512PortableCompress
  // ---------------------------------------------------------------------

  /** The other way to write the majority of three bits. */
  function MajOr(x: u64, y: u64, z: u64): (r: u64) { Or64(And64(x, Or64(y, z)), And64(y, z)) }

  lemma {:induction false} MajBits(x: nat, y: nat, z: nat)
    ensures Xor(Xor(And(x, y), And(x, z)), And(y, z)) == Or(And(x, Or(y, z)), And(y, z))
    decreases x + y + z
  {
    if x == 0 && y == 0 && z == 0 {
    } else {
      MajBits(x / 2, y / 2, z / 2);
      BitwiseHalves(AND, x, y);
      BitwiseHalves(AND, x, z);
      BitwiseHalves(AND, y, z);
      BitwiseHalves(OR, y, z);
      BitwiseHalf(XOR, Xor(And(x, y), And(x, z)), And(y, z));
      BitwiseHalves(XOR, And(x, y), And(x, z));
      BitwiseHalves(AND, x, Or(y, z));
      BitwiseHalf(OR, And(x, Or(y, z)), And(y, z));
      hide Bitwise;
      OneBit(x % 2, y % 2, z % 2);
    }
  }

  lemma OneBit(x: nat, y: nat, z: nat)
    requires x < 2 && y < 2 && z < 2
    ensures BitOp(XOR, BitOp(XOR, BitOp(AND, x, y), BitOp(AND, x, z)), BitOp(AND, y, z))
         == BitOp(OR, BitOp(AND, x, BitOp(OR, y, z)), BitOp(AND, y, z))
  {
  }

  lemma MajSame(x: u64, y: u64, z: u64)
    ensures Maj(x, y, z) == MajOr(x, y, z)
  {
    MajBits(x, y, z);
    hide Bitwise;
  }

  /** The Step macro: only d and h change, and the names move on by one. */
  method Step(a: u64, b: u64, c: u64, d: u64, e: u64, f: u64, g: u64, h: u64, w: u64, k: u64)
    returns (d': u64, h': u64)
    ensures Round(Registers(a, b, c, d, e, f, g, h), w, k) == Registers(h', a, b, c, d', e, f, g)
  {
    MajSame(a, b, c);
    hide BigSigma0, BigSigma1, Ch, Maj, MajOr, Add;
    var temp := Add(Add(Add(Add(h, BigSigma1(e)), Ch(e, f, g)), k), w);
    AddAssoc(temp, BigSigma0(a), MajOr(a, b, c));
    d' := Add(d, temp);
    h' := Add(Add(temp, BigSigma0(a)), MajOr(a, b, c));
  }

  /** Eight steps, after which every register has its own name again. */
  method EightSteps(r: Registers, w0: u64, w1: u64, w2: u64, w3: u64, w4: u64, w5: u64, w6: u64, w7: u64, t: nat,
                    ghost r0: Registers, ghost m: seq<u64>) returns (n: Registers)
    requires |m| == 16 && t + 8 <= 80 && r == Rounds(r0, m, t)
    requires w0 == W(m, t) && w1 == W(m, t + 1) && w2 == W(m, t + 2) && w3 == W(m, t + 3)
    requires w4 == W(m, t + 4) && w5 == W(m, t + 5) && w6 == W(m, t + 6) && w7 == W(m, t + 7)
    ensures n == Rounds(r0, m, t + 8)
  {
    hide *;
    var a, b, c, d, e, f, g, h := r.a, r.b, r.c, r.d, r.e, r.f, r.g, r.h;
    RoundsNext(r0, m, t);
    d, h := Step(a, b, c, d, e, f, g, h, w0, K(t));
    RoundsNext(r0, m, t + 1);
    c, g := Step(h, a, b, c, d, e, f, g, w1, K(t + 1));
    RoundsNext(r0, m, t + 2);
    b, f := Step(g, h, a, b, c, d, e, f, w2, K(t + 2));
    RoundsNext(r0, m, t + 3);
    a, e := Step(f, g, h, a, b, c, d, e, w3, K(t + 3));
    RoundsNext(r0, m, t + 4);
    h, d := Step(e, f, g, h, a, b, c, d, w4, K(t + 4));
    RoundsNext(r0, m, t + 5);
    g, c := Step(d, e, f, g, h, a, b, c, w5, K(t + 5));
    RoundsNext(r0, m, t + 6);
    f, b := Step(c, d, e, f, g, h, a, b, w6, K(t + 6));
    RoundsNext(r0, m, t + 7);
    e, a := Step(b, c, d, e, f, g, h, a, w7, K(t + 7));
    n := Registers(a, b, c, d, e, f, g, h);
  }

  /** One word of the SCHEDULE macro. */
  method NextWord(w: u64, w14: u64, w9: u64, w1: u64, ghost m: seq<u64>, ghost t: nat) returns (v: u64)
    requires |m| == 16 && w == W(m, t) && w14 == W(m, t + 14) && w9 == W(m, t + 9) && w1 == W(m, t + 1)
    ensures v == W(m, t + 16)
  {
    WNext(m, t);
    hide W, Sigma0, Sigma1, Add;
    FourTerms(w, Sigma1(w14), Sigma0(w1), w9);
    v := Add(w, Add(Add(Sigma1(w14), w9), Sigma0(w1)));
  }

  /** Sixteen words of the schedule, from word t on. */
  ghost predicate Window(m: seq<u64>, t: nat, w0: u64, w1: u64, w2: u64, w3: u64, w4: u64, w5: u64, w6: u64, w7: u64,
                         w8: u64, w9: u64, w10: u64, w11: u64, w12: u64, w13: u64, w14: u64, w15: u64)
  {
    && |m| == 16
    && w0 == W(m, t) && w1 == W(m, t + 1) && w2 == W(m, t + 2) && w3 == W(m, t + 3)
    && w4 == W(m, t + 4) && w5 == W(m, t + 5) && w6 == W(m, t + 6) && w7 == W(m, t + 7)
    && w8 == W(m, t + 8) && w9 == W(m, t + 9) && w10 == W(m, t + 10) && w11 == W(m, t + 11)
    && w12 == W(m, t + 12) && w13 == W(m, t + 13) && w14 == W(m, t + 14) && w15 == W(m, t + 15)
  }

  /** The SCHEDULE macro: every word in turn, the later ones from the new values of the earlier ones. */
  method Schedule(w0: u64, w1: u64, w2: u64, w3: u64, w4: u64, w5: u64, w6: u64, w7: u64,
                  w8: u64, w9: u64, w10: u64, w11: u64, w12: u64, w13: u64, w14: u64, w15: u64,
                  ghost m: seq<u64>, ghost t: nat)
    returns (v0: u64, v1: u64, v2: u64, v3: u64, v4: u64, v5: u64, v6: u64, v7: u64,
             v8: u64, v9: u64, v10: u64, v11: u64, v12: u64, v13: u64, v14: u64, v15: u64)
    requires Window(m, t, w0, w1, w2, w3, w4, w5, w6, w7, w8, w9, w10, w11, w12, w13, w14, w15)
    ensures Window(m, t + 16, v0, v1, v2, v3, v4, v5, v6, v7, v8, v9, v10, v11, v12, v13, v14, v15)
  {
    hide W, Sigma0, Sigma1, Add;
    v0, v1, v2, v3, v4, v5, v6, v7, v8, v9, v10, v11, v12, v13, v14, v15 :=
      w0, w1, w2, w3, w4, w5, w6, w7, w8, w9, w10, w11, w12, w13, w14, w15;
    v0 := NextWord(v0, v14, v9, v1, m, t);
    v1 := NextWord(v1, v15, v10, v2, m, t + 1);
    v2 := NextWord(v2, v0, v11, v3, m, t + 2);
    v3 := NextWord(v3, v1, v12, v4, m, t + 3);
    v4 := NextWord(v4, v2, v13, v5, m, t + 4);
    v5 := NextWord(v5, v3, v14, v6, m, t + 5);
    v6 := NextWord(v6, v4, v15, v7, m, t + 6);
    v7 := NextWord(v7, v5, v0, v8, m, t + 7);
    v8 := NextWord(v8, v6, v1, v9, m, t + 8);
    v9 := NextWord(v9, v7, v2, v10, m, t + 9);
    v10 := NextWord(v10, v8, v3, v11, m, t + 10);
    v11 := NextWord(v11, v9, v4, v12, m, t + 11);
    v12 := NextWord(v12, v10, v5, v13, m, t + 12);
    v13 := NextWord(v13, v11, v6, v14, m, t + 13);
    v14 := NextWord(v14, v12, v7, v15, m, t + 14);
    v15 := NextWord(v15, v13, v8, v0, m, t + 15);
  }

  /** LOAD: word i of a block, most significant byte first. */
  function Load(block: seq<byte>, i: nat): (w: u64)
    requires |block| == 128 && i < 16
    ensures w == WordsOf(BIG, block)[i]
  {
    Load64BEValue(block[8 * i..8 * i + 8]);
    Load64BE(block[8 * i..8 * i + 8])
  }

  lemma BlockWords(block: Words16)
    ensures forall k :: 0 <= k < 16 ==> W(block, k) == block[k]
  {
  }

  /** One block: eighty steps, with the schedule advanced after every sixteen but the last. */
  method PortableBlock(hash: array<u64>, block: seq<byte>)
    requires hash.Length == 8 && |block| == 128
    modifies hash
    ensures hash[..] == Compress(old(hash[..]), WordsOf(BIG, block))
  {
    hide W, Rounds, Compress, Start, Added, Load, WordsOf;
    ghost var r0, m: seq<u64> := Start(hash[..]), WordsOf(BIG, block);
    var r := Start(hash[..]);
    RoundsStart(r0, m);
    BlockWords(m);
    var w0, w1, w2, w3 := Load(block, 0), Load(block, 1), Load(block, 2), Load(block, 3);
    var w4, w5, w6, w7 := Load(block, 4), Load(block, 5), Load(block, 6), Load(block, 7);
    var w8, w9, w10, w11 := Load(block, 8), Load(block, 9), Load(block, 10), Load(block, 11);
    var w12, w13, w14, w15 := Load(block, 12), Load(block, 13), Load(block, 14), Load(block, 15);
    for i := 0 to 5
      invariant r == Rounds(r0, m, 16 * i) && hash[..] == old(hash[..])
      invariant i < 5 ==>
        Window(m, 16 * i, w0, w1, w2, w3, w4, w5, w6, w7, w8, w9, w10, w11, w12, w13, w14, w15)
    {
      r := EightSteps(r, w0, w1, w2, w3, w4, w5, w6, w7, 16 * i, r0, m);
      r := EightSteps(r, w8, w9, w10, w11, w12, w13, w14, w15, 16 * i + 8, r0, m);
      if i < 4 {
        w0, w1, w2, w3, w4, w5, w6, w7, w8, w9, w10, w11, w12, w13, w14, w15 :=
          Schedule(w0, w1, w2, w3, w4, w5, w6, w7, w8, w9, w10, w11, w12, w13, w14, w15, m, 16 * i);
      }
    }
    AddRegisters(hash, r);
    CompressIs(old(hash[..]), m);
  }

  /** Any number of blocks: the state of section 6.4.2 of FIPS 180-4 after all of them. */
  method PortableCompress(mesg: seq<byte>, nblocks: nat, hash: array<u64>)
    requires |mesg| == 128 * nblocks && hash.Length == 8
    modifies hash
    ensures hash[..] == Fed(Compress, old(hash[..]), mesg, nblocks)
  {
    hide Compress, WordsOf;
    var left, i := nblocks, 0;
    while left > 0
      invariant left + i == nblocks && hash[..] == Fed(Compress, old(hash[..]), mesg, i)
    {
      var block := mesg[128 * i..128 * i + 128];
      FedLast(Compress, old(hash[..]), mesg, i, block);
      PortableBlock(hash, block);
      left, i := left - 1, i + 1;
    }
  }

  /** The whole of Monocypher's SHA-512. */
  method CryptoSha512(hash: array<byte>, chunks: seq<seq<byte>>)
    requires hash.Length >= 64 && forall i :: 0 <= i < |chunks| ==> |chunks[i]| < TWO64
    modifies hash
    ensures forall i :: 0 <= i < 64 ==> hash[i] == DigestByte(Digest(Compress, IV, Concat(chunks)), i)
  {
    hide *;
    HashChunks(Compress, Left, hash, chunks);
  }
}
