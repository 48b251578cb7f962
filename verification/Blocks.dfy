/** Message blocks as 64-bit words, in either byte order, and the input buffers of BLAKE2b and SHA-512
    that OR in one byte at a time. */
module Blocks {
  import opened Words
  import opened Bits

  datatype Order = LITTLE | BIG

  function Reverse(s: seq<byte>): (r: seq<byte>)
    ensures |r| == |s| && forall i :: 0 <= i < |s| ==> r[i] == s[|s| - 1 - i]
  {
    seq(|s|, i requires 0 <= i < |s| => s[|s| - 1 - i])
  }

  /** The number that eight bytes stand for. */
  function WordOf(order: Order, s: seq<byte>): (w: u64)
    requires |s| == 8
  {
    WordBound(s);
    WordBound(Reverse(s));
    match order
    case LITTLE => LE(s)
    case BIG => LE(Reverse(s))
  }

  lemma WordBound(s: seq<byte>)
    requires |s| == 8
    ensures 0 <= LE(s) < TWO64
  {
    LEBound(s);
    Pow256Values();
  }

  /** The words of a buffer. */
  function WordsOf(order: Order, buf: seq<byte>): (w: seq<u64>)
    requires |buf| % 8 == 0
    ensures |w| == |buf| / 8
  {
    seq(|buf| / 8, k requires 0 <= k < |buf| / 8 => WordOf(order, buf[8 * k..8 * k + 8]))
  }

  /** How far left byte i of a word is shifted. */
  function ByteShift(order: Order, i: nat): (n: nat)
    requires i < 8
  {
    match order
    case LITTLE => 8 * i
    case BIG => 8 * (7 - i)
  }

  lemma {:induction false} OrCommutes(a: nat, b: nat)
    ensures Or(a, b) == Or(b, a)
    decreases a + b
  {
    if a == 0 && b == 0 {
    } else {
      OrCommutes(a / 2, b / 2);
    }
  }

  /** OR-ing in a value below the bits in use is addition. */
  lemma OrLow(k: nat, high: nat, low: nat)
    requires low < Pow2(k)
    ensures Or(Pow2(k) * high, low) == Pow2(k) * high + low
  {
    OrDisjoint(k, low, high);
    OrCommutes(low, Pow2(k) * high);
  }

  lemma ScaledByte(b: nat, p: nat)
    requires p > 0 && b < 256
    ensures 0 <= b * p < 256 * p
  {
  }

  lemma OrByteBig(s: seq<byte>, pos: nat, b: byte)
    requires |s| == 8 && pos < 8 && ZeroFrom(s, pos)
    ensures Or(WordOf(BIG, s), b * Pow2(8 * (7 - pos))) == WordOf(BIG, s[pos := b])
  {
    var r, n := Reverse(s), 7 - pos;
    assert ZeroFrom(r[..n + 1], 0) && AllBytes(r[n + 1..]) && r[n] == 0;
    assert Reverse(s[pos := b]) == r[n := b];
    hide LE, Pow2, Pow256, Bitwise, Reverse;
    LEUpdate(r, n, b);
    LEAppend(r[..n + 1], r[n + 1..]);
    assert r == r[..n + 1] + r[n + 1..];
    LEZero(r[..n + 1]);
    LEBound(r[n + 1..]);
    Pow256IsPow2(n);
    Pow256IsPow2(n + 1);
    PowerOfByte(n);
    ScaledByte(b, Pow2(8 * n));
    OrLow(8 * (n + 1), LE(r[n + 1..]), b * Pow2(8 * n));
  }

  lemma PowerOfByte(n: nat)
    ensures Pow256(n + 1) == 256 * Pow256(n)
  {
  }

  lemma OrByteWord(order: Order, s: seq<byte>, pos: nat, b: byte)
    requires |s| == 8 && pos < 8 && ZeroFrom(s, pos)
    ensures Or(WordOf(order, s), b * Pow2(ByteShift(order, pos))) == WordOf(order, s[pos := b])
  {
    match order {
      case LITTLE => OrByte(s, pos, b);
      case BIG => OrByteBig(s, pos, b);
    }
  }

  /** OR-ing the next byte into its word. */
  lemma WordsTake(order: Order, buf: seq<byte>, idx: nat, b: byte)
    requires |buf| % 8 == 0 && idx < |buf| && ZeroFrom(buf, idx)
    ensures var w := Or(WordsOf(order, buf)[idx / 8], b * Pow2(ByteShift(order, idx % 8)));
            w < TWO64 && WordsOf(order, buf[idx := b]) == WordsOf(order, buf)[idx / 8 := w]
  {
    hide WordOf, Or, Pow2;
    var j, pos := idx / 8, idx % 8;
    var s := buf[8 * j..8 * j + 8];
    OrByteWord(order, s, pos, b);
    forall k | 0 <= k < |buf| / 8
      ensures buf[idx := b][8 * k..8 * k + 8] == if k == j then s[pos := b] else buf[8 * k..8 * k + 8]
    {
    }
  }

  lemma WordsZero(order: Order, buf: seq<byte>)
    requires |buf| % 8 == 0 && ZeroFrom(buf, 0)
    ensures forall k :: 0 <= k < |buf| / 8 ==> WordsOf(order, buf)[k] == 0
  {
    hide LE;
    forall k | 0 <= k < |buf| / 8 ensures WordOf(order, buf[8 * k..8 * k + 8]) == 0 {
      LEZero(buf[8 * k..8 * k + 8]);
      LEZero(Reverse(buf[8 * k..8 * k + 8]));
    }
  }

  /** load64_be */
  function Load64BE(s: seq<byte>): (w: nat)
    requires |s| == 8
  {
    var s0: int, s1: int, s2: int, s3: int := s[0], s[1], s[2], s[3];
    var s4: int, s5: int, s6: int, s7: int := s[4], s[5], s[6], s[7];
    Or(Or(Or(Or(Or(Or(Or(s0 * 0x100_0000_0000_0000, s1 * 0x1_0000_0000_0000), s2 * 0x100_0000_0000),
                   s3 * 0x1_0000_0000), s4 * 0x100_0000), s5 * 0x1_0000), s6 * 0x100), s7)
  }

  /** One more byte, p = 2^k below. */
  lemma OrNext(k: nat, p: nat, high: nat, b: nat)
    requires p == Pow2(k) && b < 256
    ensures Or(high * (256 * p), b * p) == (256 * high + b) * p
  {
    hide *;
    NextPower(k, p);
    ScaledByte(b, p);
    NextAlgebra(p, high, b);
    OrLow(k + 8, high, b * p);
  }

  lemma NextPower(k: nat, p: nat)
    requires p == Pow2(k)
    ensures Pow2(k + 8) == 256 * p
  {
    Pow2Add(k, 8);
    assert Pow2(8) == 256;
  }

  lemma NextAlgebra(p: int, high: int, b: int)
    ensures (256 * p) * high == high * (256 * p)
    ensures high * (256 * p) + b * p == (256 * high + b) * p
  {
  }

  lemma FourHigh(s0: nat, s1: nat, s2: nat, s3: nat)
    requires s1 < 256 && s2 < 256 && s3 < 256
    ensures Or(Or(Or(s0 * 0x100_0000_0000_0000, s1 * 0x1_0000_0000_0000), s2 * 0x100_0000_0000), s3 * 0x1_0000_0000)
         == (0x100_0000 * s0 + 0x1_0000 * s1 + 0x100 * s2 + s3) * 0x1_0000_0000
  {
    hide Pow2, Or;
    Pow2Values();
    Pow2Add(32, 8);
    Pow2Add(32, 16);
    OrNext(48, 0x1_0000_0000_0000, s0, s1);
    OrNext(40, 0x100_0000_0000, 256 * s0 + s1, s2);
    OrNext(32, 0x1_0000_0000, 0x1_0000 * s0 + 256 * s1 + s2, s3);
  }

  lemma FourLow(high: nat, s4: nat, s5: nat, s6: nat, s7: nat)
    requires s4 < 256 && s5 < 256 && s6 < 256 && s7 < 256
    ensures Or(Or(Or(Or(high * 0x1_0000_0000, s4 * 0x100_0000), s5 * 0x1_0000), s6 * 0x100), s7)
         == high * 0x1_0000_0000 + 0x100_0000 * s4 + 0x1_0000 * s5 + 0x100 * s6 + s7
  {
    hide *;
    PowerStart();
    Pow2Values();
    OrNext(24, 0x100_0000, high, s4);
    OrNext(16, 0x1_0000, 256 * high + s4, s5);
    OrNext(8, 0x100, 0x1_0000 * high + 256 * s4 + s5, s6);
    OrNext(0, 1, 0x100_0000 * high + 0x1_0000 * s4 + 256 * s5 + s6, s7);
  }

  lemma Load64BEValue(s: seq<byte>)
    requires |s| == 8
    ensures Load64BE(s) == WordOf(BIG, s)
  {
    BigSum(s);
    hide Or, WordOf;
    var s0: int, s1: int, s2: int, s3: int := s[0], s[1], s[2], s[3];
    FourHigh(s0, s1, s2, s3);
    FourLow(0x100_0000 * s0 + 0x1_0000 * s1 + 0x100 * s2 + s3, s[4], s[5], s[6], s[7]);
  }

  lemma BigSum(s: seq<byte>)
    requires |s| == 8
    ensures var s0: int, s1: int, s2: int, s3: int := s[0], s[1], s[2], s[3];
            var s4: int, s5: int, s6: int, s7: int := s[4], s[5], s[6], s[7];
            WordOf(BIG, s) == s0 * 0x100_0000_0000_0000 + s1 * 0x1_0000_0000_0000 + s2 * 0x100_0000_0000
                              + s3 * 0x1_0000_0000 + s4 * 0x100_0000 + s5 * 0x1_0000 + s6 * 0x100 + s7
  {
    var r := Reverse(s);
    LEPeelAt(r, 0);
    LEPeelAt(r, 4);
    assert r[0..] == r && r[8..] == [];
  }

  // ---------------------------------------------------------------------
  // 128-byte blocks
  // ---------------------------------------------------------------------

  type Hash8 = h: seq<u64> | |h| == 8 witness [0, 0, 0, 0, 0, 0, 0, 0]

  /** The initial value of SHA-512, section 5.3.5 of FIPS 180-4, which BLAKE2b shares. */
  const IV: Hash8 := [0x6a09e667f3bcc908, 0xbb67ae8584caa73b, 0x3c6ef372fe94f82b, 0xa54ff53a5f1d36f1,
                      0x510e527fade682d1, 0x9b05688c2b3e6c1f, 0x1f83d9abfb41bd6b, 0x5be0cd19137e2179]

  /** The start of a block, filled up with zeros. */
  function Padded(s: seq<byte>): (b: seq<byte>)
    requires |s| <= 128
    ensures |b| == 128
  {
    s + Zeros(128 - |s|)
  }

  lemma PaddedNext(s: seq<byte>, b: byte)
    requires |s| < 128
    ensures ZeroFrom(Padded(s), |s|) && Padded(s + [b]) == Padded(s)[|s| := b]
  {
  }

  /** The halves of a 128-bit count. */
  function Low(x: nat): (w: u64) {
    x % TWO64
  }

  function High(x: nat): (w: u64) {
    QuotientPositive(x);
    x / TWO64 % TWO64
  }

  lemma QuotientPositive(x: nat)
    ensures x / TWO64 >= 0
  {
  }

  /** Adding a 64-bit amount to a 128-bit count, with the carry found by comparing the new low half. */
  lemma AddCarry(x: nat, y: u64)
    ensures Low(x + y) == (Low(x) as int + y) % TWO64
    ensures High(x + y) == if Low(x + y) < y then (High(x) as int + 1) % TWO64 else High(x)
  {
    var q, r := x / TWO64, x % TWO64;
    var c := if r + y >= TWO64 then 1 else 0;
    DivModUnique(x + y, TWO64, q + c, r + y - c * TWO64);
    ModAdd(q, c, TWO64);
  }

  /** Comparing before the addition finds the same carry as comparing after it. */
  lemma WrapTest(l: u64, len: u64)
    ensures l > TWO64 - 1 - len <==> (l as int + len) % TWO64 < len
  {
  }

  /** Sixteen words from a block. */
  method LoadWords(order: Order, input: array<u64>, block: seq<byte>)
    requires input.Length == 16 && |block| == 128
    modifies input
    ensures input[..] == WordsOf(order, block)
  {
    hide WordOf, Load64BE, Load64;
    for j := 0 to 16
      invariant forall k :: 0 <= k < j ==> input[k] == WordsOf(order, block)[k]
    {
      var s := block[8 * j..8 * j + 8];
      match order {
        case LITTLE =>
          LittleWord(s);
          input[j] := Load64(s);
        case BIG =>
          Load64BEValue(s);
          input[j] := Load64BE(s);
      }
    }
  }

  lemma LittleWord(s: seq<byte>)
    requires |s| == 8
    ensures Load64(s) == WordOf(LITTLE, s)
  {
    Load64Value(s);
    assert s[..8] == s;
  }

  /** 2^(8 * j) */
  function ByteWeight(j: nat): (p: nat)
    requires j < 8
    ensures p > 0
  {
    match j
    case 0 => 1
    case 1 => 0x100
    case 2 => 0x1_0000
    case 3 => 0x100_0000
    case 4 => 0x1_0000_0000
    case 5 => 0x100_0000_0000
    case 6 => 0x1_0000_0000_0000
    case 7 => 0x100_0000_0000_0000
  }

  /** Word w without its j low bytes. */
  function HighBytes(w: u64, j: nat): (r: nat)
    requires j < 8
  {
    QuotientNat(w, ByteWeight(j));
    w / ByteWeight(j)
  }

  lemma QuotientNat(w: nat, p: nat)
    requires p > 0
    ensures w / p >= 0
  {
  }

  lemma Store32At(w: u32, k: nat)
    requires k < 4
    ensures Store32(w)[k] == w / ByteWeight(k) % 256
  {
    MaskByte(w);
    MaskByte(w / 0x100);
    MaskByte(w / 0x1_0000);
    MaskByte(w / 0x100_0000);
    hide And;
  }

  lemma Store64At(w: u64, j: nat)
    requires j < 8
    ensures Store64(w)[j] == HighBytes(w, j) % 256
  {
    hide Store32, HighBytes;
    if j < 4 {
      Store32At(w % TWO32, j);
      LowHalf(w, j);
    } else {
      Store32At(w / TWO32, j - 4);
      HighHalf(w, j - 4);
    }
  }

  lemma LowHalf(w: u64, j: nat)
    requires j < 4
    ensures w % TWO32 / ByteWeight(j) % 256 == HighBytes(w, j) % 256
  {
    var l, h, p := w % TWO32, w / TWO32, ByteWeight(j);
    var c := TWO32 / (256 * p);
    assert TWO32 == p * (256 * c);
    assert h * TWO32 == (256 * c * h) * p by { assert h * (p * (256 * c)) == (256 * c * h) * p; }
    DivModUnique(w, p, 256 * c * h + l / p, l % p);
    SameByte(h, l / p, c);
  }

  lemma HighHalf(w: u64, j: nat)
    requires j < 4
    ensures w / TWO32 / ByteWeight(j) == HighBytes(w, j + 4)
  {
    var l, h, p := w % TWO32, w / TWO32, ByteWeight(j);
    assert ByteWeight(j + 4) == TWO32 * p;
    assert h == (h / p) * p + h % p;
    assert TWO32 * (h % p) + l < TWO32 * p;
    DivModUnique(w, TWO32 * p, h / p, TWO32 * (h % p) + l);
  }

  lemma SameByte(h: int, x: int, c: int)
    ensures (256 * c * h + x) % 256 == x % 256
  {
    ModPlusMultiple(x, c * h, 256);
    assert c * h * 256 == 256 * c * h;
  }

  method StoreWord64(out: array<byte>, at: nat, w: u64)
    requires at + 8 <= out.Length
    modifies out
    ensures forall i :: at <= i < at + 8 ==> out[i] == Store64(w)[i - at]
    ensures forall i :: 0 <= i < at || at + 8 <= i < out.Length ==> out[i] == old(out[i])
  {
    hide Store32;
    StoreWord(out, at, w % TWO32);
    StoreWord(out, at + 4, w / TWO32);
    assert forall k :: 0 <= k < 4 ==> out[at + k] == Store32(w % TWO32)[k];
    assert forall k :: 0 <= k < 4 ==> out[at + 4 + k] == Store32(w / TWO32)[k];
    forall i | at <= i < at + 8 ensures out[i] == Store64(w)[i - at] {
      if i < at + 4 { assert out[at + (i - at)] == Store32(w % TWO32)[i - at]; }
      else { assert out[at + 4 + (i - at - 4)] == Store32(w / TWO32)[i - at - 4]; }
    }
  }

  /** How many whole blocks there are. */
  function Whole(size: nat): (n: nat)
    ensures 128 * n <= size < 128 * n + 128
  {
    size / 128
  }

  predicate Aligned(size: nat) {
    size % 128 == 0
  }

  lemma StillAligned(n: nat, i: nat)
    requires Aligned(n)
    ensures Aligned(n + 128 * i)
  {
  }

  lemma NextChunk(message: seq<byte>, i: nat)
    requires 128 * i + 128 <= |message|
    ensures message[..128 * i + 128] == message[..128 * i] + message[128 * i..128 * i + 128]
  {
  }

  lemma PaddedBlock(block: seq<byte>)
    requires |block| == 128
    ensures Padded(block) == block
  {
  }

  lemma Alignment(idx: nat, n: nat, size: nat)
    requires size == 128 * n + idx && idx <= 128
    ensures Align(idx, 128) <= 128 && Aligned(size + Align(idx, 128))
  {
    AlignValue(idx);
    hide Align;
    Remainder(idx);
    StillAligned(0, if idx == 0 then n else n + 1);
  }

  lemma Remainder(idx: nat)
    requires idx <= 128
    ensures (128 - idx % 128) % 128 == if idx == 0 then 0 else 128 - idx
  {
  }
}
