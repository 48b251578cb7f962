/** The authenticator as section 2.5 of RFC 8439 describes it: the value of a polynomial in r. */
module Poly1305Sum {
  import opened Words
  import opened Bits
  import opened Poly1305

  /** Block i of a message, as a number with a byte 1 after it. */
  ghost function Coefficient(msg: seq<byte>, i: nat): int
    requires 16 * i < |msg|
  {
    LE(msg[16 * i..if 16 * i + 16 <= |msg| then 16 * i + 16 else |msg|] + [1])
  }

  function BlockCount(size: nat): (q: nat)
    ensures 16 * q < size + 16 && size <= 16 * q
  {
    (size + 15) / 16
  }

  /** The first n terms of the polynomial of degree q: block i is the coefficient of r^(q - i). */
  ghost function Terms(msg: seq<byte>, r: int, n: nat, q: nat): int
    requires n <= q && n <= BlockCount(|msg|)
  {
    if n == 0 then 0 else Terms(msg, r, n - 1, q) + Coefficient(msg, n - 1) * Pow(r, q - (n - 1))
  }

  lemma {:induction false} TermsRaised(msg: seq<byte>, r: int, n: nat, q: nat)
    requires n <= q && n <= BlockCount(|msg|)
    ensures Terms(msg, r, n, q + 1) == Terms(msg, r, n, q) * r
  {
    hide Coefficient;
    if n == 0 {
    } else {
      TermsRaised(msg, r, n - 1, q);
      Raised(Terms(msg, r, n - 1, q), Coefficient(msg, n - 1), Pow(r, q - (n - 1)), r);
    }
  }

  lemma Raised(t: int, c: int, p: int, r: int)
    ensures (t + c * p) * r == t * r + c * (r * p)
  {
  }

  /** Horner's rule: one more block is added and everything is multiplied by r. */
  lemma TermsNext(msg: seq<byte>, r: int, n: nat)
    requires n < BlockCount(|msg|)
    ensures Terms(msg, r, n + 1, n + 1) == (Terms(msg, r, n, n) + Coefficient(msg, n)) * r
  {
    hide Coefficient;
    TermsRaised(msg, r, n, n);
    var c := Coefficient(msg, n);
    assert Pow(r, 1) == r * Pow(r, 0) == r;
    assert (Terms(msg, r, n, n) + c) * r == Terms(msg, r, n, n) * r + c * r;
  }

  lemma AbsorbTerm(acc: int, block: seq<byte>, r: int, terms: int, c: int)
    requires acc % P == terms % P && c == LE(block + [1])
    ensures Absorb(acc, block, r) == (terms + c) * r % P
  {
    hide LE;
    ModAdd(acc, c, P);
    ModAdd(terms, c, P);
    ModMul(acc + c, r, P);
    ModMul(terms + c, r, P);
  }

  lemma {:induction false} AccumulateTerms(msg: seq<byte>, r: int, n: nat)
    requires 16 * n <= |msg|
    ensures Accumulate(msg, n, r) == Terms(msg, r, n, n) % P
  {
    hide Absorb, Terms;
    if n == 0 {
      TermsNone(msg, r);
    } else {
      AccumulateTerms(msg, r, n - 1);
      TermsNext(msg, r, n - 1);
      AbsorbTerm(Accumulate(msg, n - 1, r), msg[16 * n - 16..16 * n], r, Terms(msg, r, n - 1, n - 1),
                 Coefficient(msg, n - 1));
    }
  }

  lemma TermsNone(msg: seq<byte>, r: int)
    ensures Terms(msg, r, 0, 0) == 0
  {
  }

  lemma CountBlocks(size: nat)
    ensures (size + 15) / 16 == size / 16 + (if size % 16 == 0 then 0 else 1)
  {
  }

  /** All blocks, the last one whole or not. */
  lemma AllTerms(msg: seq<byte>, r: int)
    ensures var n, q := |msg| / 16, (|msg| + 15) / 16;
            (if |msg| % 16 == 0 then Accumulate(msg, n, r) else Absorb(Accumulate(msg, n, r), msg[16 * n..], r))
            == Terms(msg, r, q, q) % P
  {
    hide Terms, Absorb, LE, Accumulate;
    var n := |msg| / 16;
    CountBlocks(|msg|);
    AccumulateTerms(msg, r, n);
    if |msg| % 16 != 0 {
      TermsNext(msg, r, n);
      assert 16 * n + 16 > |msg| && msg[16 * n..] == msg[16 * n..|msg|];
      AbsorbTerm(Accumulate(msg, n, r), msg[16 * n..], r, Terms(msg, r, n, n), Coefficient(msg, n));
    }
  }

  /** Section 2.5.1 of RFC 8439 in closed form: for the q blocks of a message, whole or not, the sum of
      block i times r^(q - i) modulo 2^130 - 5, plus the second half of the key modulo 2^128. */
  lemma TagIsPolynomial(key: seq<byte>, msg: seq<byte>)
    requires |key| >= 32
    ensures var q := (|msg| + 15) / 16;
            Tag(key, msg)
            == (Terms(msg, KeyR(key), q, q) % P + LE(key[16..32])) % 0x1_0000_0000_0000_0000_0000_0000_0000_0000
  {
    hide Terms, Absorb, LE, Accumulate, KeyR;
    AllTerms(msg, KeyR(key));
  }

  // ---------------------------------------------------------------------
  // The clamped key
  // ---------------------------------------------------------------------

  /** Byte i of r: the top four bits of bytes 3, 7, 11 and 15 and the bottom two bits of bytes 4, 8 and 12 are clear. */
  function ClampedByte(b: byte, i: nat): (c: byte) {
    if i in {3, 7, 11, 15} then b % 16 else if i in {4, 8, 12} then b / 4 * 4 else b
  }

  function MaskByte(i: nat): (m: byte) {
    if i in {3, 7, 11, 15} then 0x0f else if i in {4, 8, 12} then 0xfc else 0xff
  }

  lemma MaskedByte(b: byte, i: nat)
    ensures And(b, MaskByte(i)) == ClampedByte(b, i)
  {
    Pow2Values();
    hide Bitwise, Pow2;
    if i in {3, 7, 11, 15} {
      AndOnes(4, b);
    } else if i in {4, 8, 12} {
      LowBitsCleared(b);
    } else {
      AndOnes(8, b);
    }
  }

  lemma LowBitsCleared(b: byte)
    ensures And(b, 0xfc) == b / 4 * 4
  {
    hide *;
    ClearTwo(b % 4, b / 4);
  }

  lemma ClearTwo(low: nat, high: nat)
    requires low < 4 && high < 64
    ensures And(low + 4 * high, 0xfc) == 4 * high
  {
    hide Pow2, Bitwise;
    Powers();
    BitwiseSplit(AND, 2, low, high, 0, 63);
    AndZero(low);
    AndOnes(6, high);
  }

  lemma Powers()
    ensures Pow2(2) == 4 && Pow2(6) == 64
  {
  }

  /** Section 2.5 of RFC 8439: r is the first half of the key with its bytes clamped. */
  lemma KeyIsClamped(key: seq<byte>, c: seq<byte>)
    requires |key| >= 16 && |c| == 16 && forall i :: 0 <= i < 16 ==> c[i] == ClampedByte(key[i], i)
    ensures KeyR(key) == LE(c)
  {
    var m := seq(16, i requires 0 <= i < 16 => MaskByte(i));
    MaskValue(m);
    hide LE, Bitwise, ClampedByte, MaskByte;
    forall i | 0 <= i < 16 ensures c[i] == And(key[..16][i], m[i]) { MaskedByte(key[i], i); }
    BitwiseBytes(AND, key[..16], m, c);
  }

  lemma MaskValue(m: seq<byte>)
    requires |m| == 16 && forall i :: 0 <= i < 16 ==> m[i] == MaskByte(i)
    ensures LE(m) == CLAMP
  {
    LEPeel4(m);
    LEPeelAt(m, 4);
    LEPeelAt(m, 8);
    LEPeelAt(m, 12);
    assert m[16..] == [];
    hide LE;
  }
}
