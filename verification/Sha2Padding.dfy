/** Section 5.1 of FIPS 180-4: the padding of SHA-256 and SHA-512. */
module Sha2Padding {
  import opened Words
  import opened Bits
  import opened Blocks

  /** How many zero bytes separate the bit 1 from the length field, so that blocks are whole. */
  function ZeroCount(size: nat, block: nat, field: nat): (z: nat)
    requires block > 0
    ensures z < block && (size + 1 + z + field) % block == 0
  {
    var r := (size + 1 + field) % block;
    ZeroCountFits(size + 1 + field, block);
    if r == 0 then 0 else block - r
  }

  lemma ZeroCountFits(n: nat, block: nat)
    requires block > 0
    ensures n % block == 0 || (n + (block - n % block)) % block == 0
  {
    if n % block != 0 {
      DivModUnique(n + (block - n % block), block, n / block + 1, 0);
    }
  }

  /** A 64-bit word, most significant byte first. */
  function BigEndian(w: u64): (s: seq<byte>)
    ensures |s| == 8
  {
    Reverse(Store64(w))
  }

  lemma BigEndianWord(w: u64)
    ensures WordOf(BIG, BigEndian(w)) == w
  {
    hide LE, Store64;
    Store64Value(w);
    assert Reverse(BigEndian(w)) == Store64(w);
  }

  /** What follows a message of the given size in bytes, for SHA-512. */
  function Tail512(size: nat): (s: seq<byte>)
  {
    [0x80] + Zeros(ZeroCount(size, 128, 16)) + BigEndian(High(8 * size)) + BigEndian(Low(8 * size))
  }

  /** The same for SHA-256, with 64-byte blocks and a 64-bit length. */
  function Tail256(size: nat): (s: seq<byte>)
  {
    [0x80] + Zeros(ZeroCount(size, 64, 8)) + BigEndian(Low(8 * size))
  }

  lemma TailLength(size: nat)
    ensures (size + |Tail512(size)|) % 128 == 0 && 17 <= |Tail512(size)| <= 144
    ensures (size + |Tail256(size)|) % 64 == 0 && 9 <= |Tail256(size)| <= 72
  {
    hide ZeroCount, BigEndian;
  }

  // ---------------------------------------------------------------------
  // The padding as a number
  // ---------------------------------------------------------------------

  /** The number that a byte string stands for, most significant byte first. */
  function BE(s: seq<byte>): (v: int) {
    LE(Reverse(s))
  }

  lemma BEAppend(a: seq<byte>, b: seq<byte>)
    ensures BE(a + b) == Pow256(|b|) * BE(a) + BE(b)
  {
    hide LE, Pow256;
    LEAppend(Reverse(b), Reverse(a));
    assert Reverse(a + b) == Reverse(b) + Reverse(a);
  }

  lemma BEZeros(n: nat)
    ensures BE(Zeros(n)) == 0
  {
    LEZero(Reverse(Zeros(n)));
  }

  lemma BEFirst()
    ensures BE([0x80]) == 0x80
  {
    assert Reverse([0x80]) == [0x80];
  }

  lemma BEWord(w: u64)
    ensures BE(BigEndian(w)) == w
  {
    hide LE, Store64;
    Store64Value(w);
    assert Reverse(BigEndian(w)) == Store64(w);
  }

  lemma Halves(n: nat)
    requires n < TWO128
    ensures n == TWO64 * High(n) + Low(n)
  {
    assert n / TWO64 < TWO64;
    DivModUnique(n / TWO64, TWO64, 0, n / TWO64);
  }

  /** Section 5.1.2 of FIPS 180-4: one bit 1, bits 0, and the number of bits of the message in 128 bits. */
  lemma Tail512Value(size: nat)
    requires 8 * size < TWO128
    ensures var s := Tail512(size); |s| >= 17 && BE(s) == 0x80 * Pow256(|s| - 1) + 8 * size
  {
    hide LE, Pow256, BigEndian, ZeroCount, BE, High, Low;
    var z := ZeroCount(size, 128, 16);
    var high, low := BigEndian(High(8 * size)), BigEndian(Low(8 * size));
    TailSum(z, high, low);
    Halves(8 * size);
    BEWord(High(8 * size));
    BEWord(Low(8 * size));
    assert Tail512(size) == [0x80] + Zeros(z) + high + low;
  }

  lemma TailSum(z: nat, high: seq<byte>, low: seq<byte>)
    requires |high| == |low| == 8
    ensures BE([0x80] + Zeros(z) + high + low) == 0x80 * Pow256(z + 16) + TWO64 * BE(high) + BE(low)
  {
    hide LE, BE, Pow256;
    TailSum8(z, high);
    var head := [0x80] + Zeros(z) + high;
    Pow256Values();
    BEAppend(head, low);
    Pow256Add(z + 8, 8);
    var p := Pow256(z + 8);
    assert TWO64 * (0x80 * p + BE(high)) == 0x80 * (p * TWO64) + TWO64 * BE(high);
  }

  lemma TailSum8(z: nat, low: seq<byte>)
    requires |low| == 8
    ensures BE([0x80] + Zeros(z) + low) == 0x80 * Pow256(z + 8) + BE(low)
  {
    hide LE, BE, Pow256;
    Pow256Values();
    BEFirst();
    BEZeros(z);
    BEAppend([0x80], Zeros(z));
    BEAppend([0x80] + Zeros(z), low);
    Pow256Add(z, 8);
    var p := Pow256(z);
    assert TWO64 * (p * 0x80) == 0x80 * (p * TWO64);
  }

  /** The same for SHA-256, with 64 bits for the number. */
  lemma Tail256Value(size: nat)
    requires 8 * size < TWO64
    ensures var s := Tail256(size); |s| >= 9 && BE(s) == 0x80 * Pow256(|s| - 1) + 8 * size
  {
    hide LE, Pow256, BigEndian, ZeroCount, BE, Low;
    var z := ZeroCount(size, 64, 8);
    TailSum8(z, BigEndian(Low(8 * size)));
    BEWord(Low(8 * size));
    LowIs(8 * size);
  }

  lemma LowIs(n: nat)
    requires n < TWO64
    ensures Low(n) == n
  {
  }

  /** There are no more zeros than it takes to fill the last block. */
  lemma TailLeast(size: nat, n: nat)
    ensures n >= 17 && (size + n) % 128 == 0 ==> |Tail512(size)| <= n
    ensures n >= 9 && (size + n) % 64 == 0 ==> |Tail256(size)| <= n
  {
    hide BigEndian;
    ZeroCountLeast(size, 128, 16, n);
    ZeroCountLeast(size, 64, 8, n);
  }

  lemma ZeroCountLeast(size: nat, block: nat, field: nat, n: nat)
    requires block > 0
    ensures n >= field + 1 && (size + n) % block == 0 ==> ZeroCount(size, block, field) <= n - field - 1
  {
    var c := ZeroCount(size, block, field);
    if field + 1 <= n < field + 1 + c {
      var k := (size + 1 + c + field) / block;
      var d := field + 1 + c - n;
      BeforeMultiple(size + n, block, k, d);
    }
  }

  lemma BeforeMultiple(x: nat, block: nat, k: int, d: nat)
    requires 0 < d < block && x + d == k * block
    ensures x % block != 0
  {
    assert x == (k - 1) * block + (block - d);
    DivModUnique(x, block, k - 1, block - d);
  }
}
