/** The byte substitutions of AES, and the arithmetic of GF(2^8) on the four bytes of a word at once. */
module AesBytes {
  // ---------------------------------------------------------------------
  // The S-box, section 5.1.1 of FIPS 197
  // ---------------------------------------------------------------------

  /** sbox, 16 bytes in a row */
  function SBoxRow(i: bv8): (row: bv128) {
    match i
    case 0 => 0x637c777b_f26b6fc5_3001672b_fed7ab76
    case 1 => 0xca82c97d_fa5947f0_add4a2af_9ca472c0
    case 2 => 0xb7fd9326_363ff7cc_34a5e5f1_71d83115
    case 3 => 0x04c723c3_1896059a_071280e2_eb27b275
    case 4 => 0x09832c1a_1b6e5aa0_523bd6b3_29e32f84
    case 5 => 0x53d100ed_20fcb15b_6acbbe39_4a4c58cf
    case 6 => 0xd0efaafb_434d3385_45f9027f_503c9fa8
    case 7 => 0x51a3408f_929d38f5_bcb6da21_10fff3d2
    case 8 => 0xcd0c13ec_5f974417_c4a77e3d_645d1973
    case 9 => 0x60814fdc_222a9088_46eeb814_de5e0bdb
    case 10 => 0xe0323a0a_4906245c_c2d3ac62_9195e479
    case 11 => 0xe7c8376d_8dd54ea9_6c56f4ea_657aae08
    case 12 => 0xba78252e_1ca6b4c6_e8dd741f_4bbd8b8a
    case 13 => 0x703eb566_4803f60e_613557b9_86c11d9e
    case 14 => 0xe1f89811_69d98e94_9b1e87e9_ce5528df
    case _ => 0x8ca1890d_bfe64268_41992d0f_b054bb16
  }

  /** inv_sbox */
  function ISBoxRow(i: bv8): (row: bv128) {
    match i
    case 0 => 0x52096ad5_3036a538_bf40a39e_81f3d7fb
    case 1 => 0x7ce33982_9b2fff87_348e4344_c4dee9cb
    case 2 => 0x547b9432_a6c2233d_ee4c950b_42fac34e
    case 3 => 0x082ea166_28d924b2_765ba249_6d8bd125
    case 4 => 0x72f8f664_86689816_d4a45ccc_5d65b692
    case 5 => 0x6c704850_fdedb9da_5e154657_a78d9d84
    case 6 => 0x90d8ab00_8cbcd30a_f7e45805_b8b34506
    case 7 => 0xd02c1e8f_ca3f0f02_c1afbd03_01138a6b
    case 8 => 0x3a911141_4f67dcea_97f2cfce_f0b4e673
    case 9 => 0x96ac7422_e7ad3585_e2f937e8_1c75df6e
    case 10 => 0x47f11a71_1d29c589_6fb7620e_aa18be1b
    case 11 => 0xfc563e4b_c6d27920_9adbc0fe_78cd5af4
    case 12 => 0x1fdda833_8807c731_b1121059_2780ec5f
    case 13 => 0x60517fa9_19b54a0d_2de57a9f_93c99cef
    case 14 => 0xa0e03b4d_ae2af5b0_c8ebbb3c_83539961
    case _ => 0x172b047e_ba77d626_e1691463_55210c7d
  }

  function SBox(b: bv8): (s: bv8) {
    ((SBoxRow(b >> 4) >> (0x78 - 8 * (b & 0xf))) & 0xff) as bv8
  }

  function ISBox(b: bv8): (s: bv8) {
    ((ISBoxRow(b >> 4) >> (0x78 - 8 * (b & 0xf))) & 0xff) as bv8
  }

  lemma Unsub00(b: bv8)
    requires b < 0x40
    ensures ISBox(SBox(b)) == b
  {
  }

  lemma Unsub40(b: bv8)
    requires 0x40 <= b < 0x80
    ensures ISBox(SBox(b)) == b
  {
  }

  lemma Unsub80(b: bv8)
    requires 0x80 <= b < 0xc0
    ensures ISBox(SBox(b)) == b
  {
  }

  lemma UnsubC0(b: bv8)
    requires b >= 0xc0
    ensures ISBox(SBox(b)) == b
  {
  }

  lemma Resub00(b: bv8)
    requires b < 0x40
    ensures SBox(ISBox(b)) == b
  {
  }

  lemma Resub40(b: bv8)
    requires 0x40 <= b < 0x80
    ensures SBox(ISBox(b)) == b
  {
  }

  lemma Resub80(b: bv8)
    requires 0x80 <= b < 0xc0
    ensures SBox(ISBox(b)) == b
  {
  }

  lemma ResubC0(b: bv8)
    requires b >= 0xc0
    ensures SBox(ISBox(b)) == b
  {
  }

  /** The two tables are permutations that undo each other. */
  lemma SBoxInverse(b: bv8)
    ensures ISBox(SBox(b)) == b && SBox(ISBox(b)) == b
  {
    hide *;
    if b < 0x40 {
      Unsub00(b);
      Resub00(b);
    } else if b < 0x80 {
      Unsub40(b);
      Resub40(b);
    } else if b < 0xc0 {
      Unsub80(b);
      Resub80(b);
    } else {
      UnsubC0(b);
      ResubC0(b);
    }
  }

  /** Multiplication by {02}, section 4.2.1 of FIPS 197. */
  function Xtime(b: bv8): (r: bv8) {
    (b << 1) ^ (if b & 0x80 != 0 then 0x1b else 0)
  }

  /** Multiplication in GF(2^8), the powers of {02} times a, one for each bit of b. */
  function Product(a: bv8, b: bv8): (p: bv8) {
    var a1 := Xtime(a);
    var a2 := Xtime(a1);
    var a3 := Xtime(a2);
    var a4 := Xtime(a3);
    var a5 := Xtime(a4);
    var a6 := Xtime(a5);
    If(b, 0x01, a) ^ If(b, 0x02, a1) ^ If(b, 0x04, a2) ^ If(b, 0x08, a3)
    ^ If(b, 0x10, a4) ^ If(b, 0x20, a5) ^ If(b, 0x40, a6) ^ If(b, 0x80, Xtime(a6))
  }

  function If(b: bv8, bit: bv8, a: bv8): (r: bv8) {
    if b & bit != 0 then a else 0
  }

  /** y is the inverse of b, where zero counts as its own inverse. */
  predicate Inverse(b: bv8, y: bv8) {
    Product(b, y) == if b == 0 && y == 0 then 0 else 1
  }

  /** The affine transformation of equation 5.1. */
  function Affine(x: bv8): (r: bv8) {
    x ^ x.RotateLeft(1) ^ x.RotateLeft(2) ^ x.RotateLeft(3) ^ x.RotateLeft(4) ^ 0x63
  }

  function Unaffine(x: bv8): (r: bv8) {
    x.RotateLeft(1) ^ x.RotateLeft(3) ^ x.RotateLeft(6) ^ 0x05
  }

  lemma AffineInverse(x: bv8)
    ensures Affine(Unaffine(x)) == x
  {
  }

  lemma Inverse00(b: bv8)
    requires b < 0x40
    ensures Inverse(b, Unaffine(SBox(b)))
  {
  }

  lemma Inverse40(b: bv8)
    requires 0x40 <= b < 0x80
    ensures Inverse(b, Unaffine(SBox(b)))
  {
  }

  lemma Inverse80(b: bv8)
    requires 0x80 <= b < 0xc0
    ensures Inverse(b, Unaffine(SBox(b)))
  {
  }

  lemma InverseC0(b: bv8)
    requires b >= 0xc0
    ensures Inverse(b, Unaffine(SBox(b)))
  {
  }

  /** The table is the S-box of FIPS 197: the inverse in GF(2^8), and the affine transformation. */
  lemma SBoxMeaning(b: bv8)
    ensures exists y :: Inverse(b, y) && SBox(b) == Affine(y)
  {
    hide *;
    AffineInverse(SBox(b));
    if b < 0x40 {
      Inverse00(b);
    } else if b < 0x80 {
      Inverse40(b);
    } else if b < 0xc0 {
      Inverse80(b);
    } else {
      InverseC0(b);
    }
  }

  /** Addition in GF(2^8). */
  function Plus(a: bv8, b: bv8): (c: bv8) {
    a ^ b
  }

  lemma PlusCommutes(a: bv8, b: bv8)
    ensures Plus(a, b) == Plus(b, a)
  {
  }

  lemma PlusAssociates(a: bv8, b: bv8, c: bv8)
    ensures Plus(Plus(a, b), c) == Plus(a, Plus(b, c))
  {
  }

  lemma PlusInterchange(a: bv8, b: bv8, c: bv8, d: bv8)
    ensures Plus(Plus(a, b), Plus(c, d)) == Plus(Plus(a, c), Plus(b, d))
  {
    hide *;
    PlusAssociates(a, b, Plus(c, d));
    PlusAssociates(b, c, d);
    PlusCommutes(b, c);
    PlusAssociates(c, b, d);
    PlusAssociates(a, c, Plus(b, d));
  }

  /** The two parts of Xtime. */
  function Shifted(b: bv8): (r: bv8) {
    b << 1
  }

  function Reduction(b: bv8): (r: bv8) {
    if b & 0x80 != 0 then 0x1b else 0
  }

  lemma XtimeParts(b: bv8)
    ensures Xtime(b) == Plus(Shifted(b), Reduction(b))
  {
  }

  lemma ShiftedSum(a: bv8, b: bv8)
    ensures Shifted(Plus(a, b)) == Plus(Shifted(a), Shifted(b))
  {
  }

  lemma ReductionSum(a: bv8, b: bv8)
    ensures Reduction(Plus(a, b)) == Plus(Reduction(a), Reduction(b))
  {
  }

  lemma XtimeSum(a: bv8, b: bv8)
    ensures Xtime(Plus(a, b)) == Plus(Xtime(a), Xtime(b))
  {
    hide *;
    XtimeParts(a);
    XtimeParts(b);
    XtimeParts(Plus(a, b));
    ShiftedSum(a, b);
    ReductionSum(a, b);
    PlusInterchange(Shifted(a), Shifted(b), Reduction(a), Reduction(b));
  }

  // ---------------------------------------------------------------------
  // Words of four bytes
  // ---------------------------------------------------------------------

  /** MkW, the first byte in the most significant place. */
  function MkW(w3: bv8, w2: bv8, w1: bv8, w0: bv8): (w: bv32) {
    (w0 as bv32) | ((w1 as bv32) << 8) | ((w2 as bv32) << 16) | ((w3 as bv32) << 24)
  }

  function B0(w: bv32): (b: bv8) {
    (w & 0xff) as bv8
  }

  function B1(w: bv32): (b: bv8) {
    ((w >> 8) & 0xff) as bv8
  }

  function B2(w: bv32): (b: bv8) {
    ((w >> 16) & 0xff) as bv8
  }

  function B3(w: bv32): (b: bv8) {
    ((w >> 24) & 0xff) as bv8
  }

  lemma BytesOfWord(w3: bv8, w2: bv8, w1: bv8, w0: bv8)
    ensures var w := MkW(w3, w2, w1, w0);
            B0(w) == w0 && B1(w) == w1 && B2(w) == w2 && B3(w) == w3
  {
  }

  lemma WordOfBytes(w: bv32)
    ensures MkW(B3(w), B2(w), B1(w), B0(w)) == w
  {
  }

  // ---------------------------------------------------------------------
  // Four bytes at once
  // ---------------------------------------------------------------------

  /** The bytes of two words added in pairs. */
  function Add(a: bv32, b: bv32): (c: bv32) {
    a ^ b
  }

  lemma AddCommutes(a: bv32, b: bv32)
    ensures Add(a, b) == Add(b, a)
  {
  }

  lemma AddAssociates(a: bv32, b: bv32, c: bv32)
    ensures Add(Add(a, b), c) == Add(a, Add(b, c))
  {
  }

  lemma AddCancels(a: bv32, b: bv32)
    ensures Add(Add(a, b), b) == a
  {
  }

  lemma Interchange(a: bv32, b: bv32, c: bv32, d: bv32)
    ensures Add(Add(a, b), Add(c, d)) == Add(Add(a, c), Add(b, d))
  {
    hide *;
    AddAssociates(a, b, Add(c, d));
    AddAssociates(b, c, d);
    AddCommutes(b, c);
    AddAssociates(c, b, d);
    AddAssociates(a, c, Add(b, d));
  }

  lemma CancelLeft(a: bv32, b: bv32)
    ensures Add(a, Add(a, b)) == b
  {
    hide *;
    AddCommutes(a, b);
    AddCommutes(a, Add(b, a));
    AddCancels(b, a);
  }

  lemma Bridge(a: bv32, p: bv32, b: bv32)
    ensures Add(Add(a, p), Add(p, b)) == Add(a, b)
  {
    hide *;
    AddAssociates(a, p, Add(p, b));
    CancelLeft(p, b);
  }

  lemma CommonTail(a: bv32, b: bv32, t: bv32)
    ensures Add(Add(a, t), Add(b, t)) == Add(a, b)
  {
    hide *;
    AddCommutes(b, t);
    Bridge(a, t, b);
  }

  function ShiftLeftBytes(r: bv32): (w: bv32) {
    (r << 1) & 0xfefefefe
  }

  function CycleBits(r: bv32): (w: bv32) {
    (r >> 7) & 0x01010101
  }

  function Times1b(m: bv32): (w: bv32) {
    m * 0x1b
  }

  function Mult02(r: bv32): (w: bv32) {
    Add(ShiftLeftBytes(r), Times1b(CycleBits(r)))
  }

  function Twice(m: bv32): (w: bv32) {
    m << 1
  }

  function Eight(m: bv32): (w: bv32) {
    m << 3
  }

  /** 0x1b is 2 + 1 and eight times as much. */
  function Spread(m: bv32): (w: bv32) {
    Add(Add(m, Twice(m)), Eight(Add(m, Twice(m))))
  }

  /** The product with 0x1b carries nothing from one byte to the next, nor from bit to bit. */
  lemma NoCarry(m: bv32)
    requires m & 0x01010101 == m
    ensures Times1b(m) == Spread(m)
  {
  }

  lemma Masked(r: bv32)
    ensures CycleBits(r) & 0x01010101 == CycleBits(r)
  {
  }

  lemma Mult02Low(r: bv32)
    ensures B0(Mult02(r)) == Xtime(B0(r)) && B1(Mult02(r)) == Xtime(B1(r))
  {
    NoCarry(CycleBits(r));
    hide Times1b;
  }

  lemma Mult02High(r: bv32)
    ensures B2(Mult02(r)) == Xtime(B2(r)) && B3(Mult02(r)) == Xtime(B3(r))
  {
    NoCarry(CycleBits(r));
    hide Times1b;
  }

  /** Mult02 multiplies each of the four bytes by {02}. */
  lemma Mult02Bytes(r: bv32)
    ensures B0(Mult02(r)) == Xtime(B0(r)) && B1(Mult02(r)) == Xtime(B1(r))
    ensures B2(Mult02(r)) == Xtime(B2(r)) && B3(Mult02(r)) == Xtime(B3(r))
  {
    hide *;
    Mult02Low(r);
    Mult02High(r);
  }

  lemma LeftSum(a: bv32, b: bv32)
    ensures ShiftLeftBytes(Add(a, b)) == Add(ShiftLeftBytes(a), ShiftLeftBytes(b))
  {
  }

  lemma CycleSum(a: bv32, b: bv32)
    ensures CycleBits(Add(a, b)) == Add(CycleBits(a), CycleBits(b))
  {
  }

  lemma TwiceSum(a: bv32, b: bv32)
    ensures Twice(Add(a, b)) == Add(Twice(a), Twice(b))
  {
  }

  lemma EightSum(a: bv32, b: bv32)
    ensures Eight(Add(a, b)) == Add(Eight(a), Eight(b))
  {
  }

  lemma SpreadSum(x: bv32, y: bv32)
    ensures Spread(Add(x, y)) == Add(Spread(x), Spread(y))
  {
    hide Add, Twice, Eight;
    TwiceSum(x, y);
    Interchange(x, y, Twice(x), Twice(y));
    var p, q := Add(x, Twice(x)), Add(y, Twice(y));
    EightSum(p, q);
    Interchange(p, q, Eight(p), Eight(q));
  }

  lemma Mult02Sum(a: bv32, b: bv32)
    ensures Mult02(Add(a, b)) == Add(Mult02(a), Mult02(b))
  {
    hide Add, Spread, Times1b, CycleBits, ShiftLeftBytes;
    LeftSum(a, b);
    CycleSum(a, b);
    Masked(a);
    Masked(b);
    Masked(Add(a, b));
    var x, y := CycleBits(a), CycleBits(b);
    NoCarry(x);
    NoCarry(y);
    NoCarry(Add(x, y));
    SpreadSum(x, y);
    Interchange(ShiftLeftBytes(a), ShiftLeftBytes(b), Spread(x), Spread(y));
  }

  /** The byte in column j of a row. */
  function Lane(w: bv32, j: nat): (b: bv8)
    requires j < 4
  {
    match j
    case 0 => B3(w)
    case 1 => B2(w)
    case 2 => B1(w)
    case 3 => B0(w)
  }

  lemma B0Sum(a: bv32, b: bv32)
    ensures B0(Add(a, b)) == Plus(B0(a), B0(b))
  {
  }

  lemma B1Sum(a: bv32, b: bv32)
    ensures B1(Add(a, b)) == Plus(B1(a), B1(b))
  {
  }

  lemma B2Sum(a: bv32, b: bv32)
    ensures B2(Add(a, b)) == Plus(B2(a), B2(b))
  {
  }

  lemma B3Sum(a: bv32, b: bv32)
    ensures B3(Add(a, b)) == Plus(B3(a), B3(b))
  {
  }

  lemma LaneSum(a: bv32, b: bv32, j: nat)
    requires j < 4
    ensures Lane(Add(a, b), j) == Plus(Lane(a, j), Lane(b, j))
  {
    hide B0, B1, B2, B3, Add, Plus;
    if j == 0 {
      B3Sum(a, b);
    } else if j == 1 {
      B2Sum(a, b);
    } else if j == 2 {
      B1Sum(a, b);
    } else {
      B0Sum(a, b);
    }
  }

  lemma LaneMult02(a: bv32, j: nat)
    requires j < 4
    ensures Lane(Mult02(a), j) == Xtime(Lane(a, j))
  {
    hide Mult02, Xtime, B0, B1, B2, B3;
    Mult02Bytes(a);
  }
}
