/** The last block of SHA-256 and SHA-512 in Raaz: length cells, and padding built from write transfers. */
module Sha2Raaz {
  import opened Words
  import opened Bits
  import opened Blocks
  import opened Sha2Padding
  import opened Sha512Stream
  import opened Transfer
  import opened HashStates

  // ---------------------------------------------------------------------
  // Padding
  // ---------------------------------------------------------------------

  /** padBit1 */
  function PadBit1(size: nat): (w: WriteTo) {
    Skip(size) + Write([0x80])
  }

  /** padding512, with the length in bytes in two words */
  function Padding512(bufSize: nat, uLen: u64, lLen: u64): (w: WriteTo) {
    var up := Or(Shl3(uLen), Shr61(lLen));
    UpperFits(uLen, lLen);
    GlueWrites(0, 128, PadBit1(bufSize), Write(BigEndian(up)) + Write(BigEndian(Shl3(lLen))))
  }

  /** padding256 */
  function Padding256(bufSize: nat, msgLen: u64): (w: WriteTo) {
    GlueWrites(0, 64, PadBit1(bufSize), Write(BigEndian(Shl3(msgLen))))
  }

  function Shl3(x: u64): (w: u64) {
    x * 8 % TWO64
  }

  function Shr61(x: u64): (w: u64) {
    x / 0x2000_0000_0000_0000
  }

  /** The three bits that leave the lower word enter the upper one. */
  lemma UpperFits(uLen: u64, lLen: u64)
    ensures Or(Shl3(uLen), Shr61(lLen)) == Shl3(uLen) + Shr61(lLen) < TWO64
  {
    var a: nat := uLen as int % 0x2000_0000_0000_0000;
    assert uLen as int * 8 % TWO64 == 8 * a by {
      DivModUnique(uLen as int * 8, TWO64, uLen / 0x2000_0000_0000_0000, 8 * a);
    }
    Pow3();
    hide Or, Pow2;
    OrLow(3, a, Shr61(lLen));
  }

  lemma Pow3()
    ensures Pow2(3) == 8
  {
  }

  /** Eight times a 128-bit byte count, as a 128-bit bit count. */
  lemma BitCount(total: nat)
    ensures Shl3(Low(total)) == Low(8 * total)
    ensures Shl3(High(total)) + Shr61(Low(total)) == High(8 * total)
  {
    var q, r := total / TWO64, total % TWO64;
    var h, l := r / 0x2000_0000_0000_0000, r % 0x2000_0000_0000_0000;
    DivModUnique(8 * r, TWO64, h, 8 * l);
    DivModUnique(8 * total, TWO64, 8 * q + h, 8 * l);
    var p, s := q / 0x2000_0000_0000_0000, q % 0x2000_0000_0000_0000;
    DivModUnique(8 * q + h, TWO64, p, 8 * s + h);
    var t := q % TWO64;
    DivModUnique(8 * t, TWO64, t / 0x2000_0000_0000_0000, 8 * (t % 0x2000_0000_0000_0000));
    SameLow(q);
  }

  lemma SameLow(q: nat)
    ensures q % TWO64 % 0x2000_0000_0000_0000 == q % 0x2000_0000_0000_0000
  {
    var k := q / TWO64;
    assert q == q % TWO64 + k * 8 * 0x2000_0000_0000_0000;
    ModPlusMultiple(q % TWO64, k * 8, 0x2000_0000_0000_0000);
  }

  /** Only the position in the last block matters for the padding. */
  lemma SameZeroCount(a: nat, b: nat, block: nat, field: nat)
    requires block > 0 && a % block == b % block
    ensures ZeroCount(a, block, field) == ZeroCount(b, block, field)
  {
    ModAdd(a, 1 + field, block);
    ModAdd(b, 1 + field, block);
  }

  lemma NearBoundary(size: nat, least: nat, n: nat, block: nat)
    requires block > 0 && size % block == 0 && least <= size < least + block && least <= block * n + block
    ensures size <= block * (n + 1)
  {
    var q := size / block;
    assert size == q * block;
    SmallerFactor(q, n + 2, block);
  }

  lemma SmallerFactor(q: nat, m: nat, block: nat)
    requires q * block < m * block
    ensures q <= m - 1 && q * block <= (m - 1) * block
  {
  }

  /** The glue between the bit 1 and the length field: as many zeros as FIPS 180-4 asks for. */
  lemma GluedTail(bufSize: nat, block: nat, field: WriteTo, n: nat)
    requires 1 + |field| <= block && bufSize <= block * n
    ensures var w := GlueWrites(0, block, PadBit1(bufSize), field);
            && w == Skip(bufSize) + (Write([0x80]) + WriteBytes(0, ZeroCount(bufSize, block, |field|)) + field)
            && |w| % block == 0 && |w| <= block * (n + 1)
  {
    GlueAligned(0, block, PadBit1(bufSize), field);
    NearBoundary(|GlueWrites(0, block, PadBit1(bufSize), field)|, bufSize + 1 + |field|, n, block);
  }

  function Field512(total: nat): (w: WriteTo)
    ensures |w| == 16
  {
    Write(BigEndian(High(8 * total))) + Write(BigEndian(Low(8 * total)))
  }

  function Field256(total: nat): (w: WriteTo)
    ensures |w| == 8
  {
    Write(BigEndian(Low(8 * total)))
  }

  lemma Padding512Fields(bufSize: nat, total: nat)
    ensures Padding512(bufSize, High(total), Low(total)) == GlueWrites(0, 128, PadBit1(bufSize), Field512(total))
    ensures Write(Tail512(total)) == Write([0x80]) + WriteBytes(0, ZeroCount(total, 128, 16)) + Field512(total)
  {
    BitCount(total);
    UpperFits(High(total), Low(total));
    hide High, Low, Shl3, Shr61, BigEndian, Or, ZeroCount, GlueWrites, PadBit1;
  }

  lemma Padding256Fields(bufSize: nat, total: nat)
    ensures Padding256(bufSize, Low(total)) == GlueWrites(0, 64, PadBit1(bufSize), Field256(total))
    ensures Write(Tail256(total)) == Write([0x80]) + WriteBytes(0, ZeroCount(total, 64, 8)) + Field256(total)
  {
    BitCount(total);
    hide High, Low, Shl3, BigEndian, ZeroCount, GlueWrites, PadBit1;
  }

  /** The padding is that of FIPS 180-4 for the whole message, after the bytes in the buffer, and takes
      the buffer's content to a block boundary that is at most one block further. */
  lemma Padding512Is(bufSize: nat, total: nat, n: nat)
    requires total % 128 == bufSize % 128 && bufSize <= 128 * n
    ensures var w := Padding512(bufSize, High(total), Low(total));
            w == Skip(bufSize) + Write(Tail512(total)) && |w| % 128 == 0 && |w| <= 128 * (n + 1)
  {
    hide *;
    Padding512Fields(bufSize, total);
    SameZeroCount(bufSize, total, 128, 16);
    GluedTail(bufSize, 128, Field512(total), n);
  }

  /** The same for SHA-256. */
  lemma Padding256Is(bufSize: nat, total: nat, n: nat)
    requires total % 64 == bufSize % 64 && bufSize <= 64 * n
    ensures var w := Padding256(bufSize, Low(total));
            w == Skip(bufSize) + Write(Tail256(total)) && |w| % 64 == 0 && |w| <= 64 * (n + 1)
  {
    hide *;
    Padding256Fields(bufSize, total);
    SameZeroCount(bufSize, total, 64, 8);
    GluedTail(bufSize, 64, Field256(total), n);
  }

  predicate SameOffset(total: nat, size: nat) {
    total % 128 == size % 128
  }

  // ---------------------------------------------------------------------
  // The length cells and the last block
  // ---------------------------------------------------------------------

  class Sha512Internals {
    const compress: Compressor
    var hash: Hash8
    var uLength: u64
    var lLength: u64
    ghost var initial: Hash8
    ghost var done: seq<byte>

    /** The hash of the whole blocks that were processed. */
    ghost predicate HashValid()
      reads `hash, `initial, `done
    {
      |done| % 128 == 0 && hash == Fed(compress, initial, done, |done| / 128)
    }

    /** The cells hold a byte count modulo 2^128. */
    ghost predicate Counts(total: nat)
      reads `uLength, `lLength
    {
      uLength == High(total) && lLength == Low(total)
    }

    constructor (compress: Compressor)
      ensures this.compress == compress && HashValid() && Counts(0) && done == [] && initial == IV
    {
      this.compress := compress;
      hash, uLength, lLength := IV, 0, 0;
      initial, done := IV, [];
    }

    /** updateLength128 */
    method UpdateLength128(len: u64, ghost total: nat)
      requires Counts(total)
      modifies `uLength, `lLength
      ensures Counts(total + len)
    {
      AddCarry(total, len);
      hide Low, High;
      var l := lLength;
      lLength := (l as int + len) % TWO64;
      WrapTest(l, len);
      if l > TWO64 - 1 - len {
        uLength := (uLength as int + 1) % TWO64;
      }
    }

    /** The hash and the number of bytes, as the context sees them. */
    ghost function State(): (s: HashState)
      reads `hash, `done
    {
      HashState(hash, |done|)
    }

    /** One block through the compression function. */
    method CompressBlock(block: seq<byte>)
      requires HashValid() && |block| == 128
      modifies `hash, `done
      ensures HashValid() && done == old(done) + block
    {
      ghost var n := |done| / 128;
      FedPrefix(compress, initial, done, block, n);
      FedLast(compress, initial, done + block, n, block);
      hide WordsOf, Fed;
      hash := compress(hash, WordsOf(BIG, block));
      done := done + block;
    }

    method CompressBlocks(buf: array<byte>, blocks: nat)
      requires HashValid() && 128 * blocks <= buf.Length
      modifies `hash, `done
      ensures HashValid() && done == old(done) + buf[..128 * blocks]
    {
      hide *;
      for i := 0 to blocks
        invariant HashValid() && done == old(done) + buf[..128 * i]
      {
        NextChunk(buf[..], i);
        CompressBlock(buf[128 * i..128 * i + 128]);
      }
    }

    /** processBlocks: compression, and then the length. */
    method ProcessBlocks(buf: array<byte>, blocks: nat, ghost total: nat)
      requires HashValid() && Counts(total) && 128 * blocks <= buf.Length && 128 * blocks < 0x1_0000_0000_0000_0000
      modifies `hash, `done, `uLength, `lLength
      ensures HashValid() && Counts(total + 128 * blocks) && done == old(done) + buf[..128 * blocks]
      ensures State() == Sha512Blocks(compress, old(State()), buf[..128 * blocks])
    {
      hide *;
      Boundary();
      CompressBlocks(buf, blocks);
      Continued(old(State()), old(done), buf[..128 * blocks]);
      UpdateLength128(128 * blocks, total);
    }

    lemma Continued(was: HashState, first: seq<byte>, data: seq<byte>)
      requires |first| % 128 == 0 && was == HashState(Fed(compress, initial, first, |first| / 128), |first|)
      requires HashValid() && done == first + data
      ensures State() == Sha512Blocks(compress, was, data)
    {
      ModAdd(|first|, |data|, 128);
      Sha512Continues(compress, initial, first, data);
    }

    /** The padding, transferred after the data in the buffer. */
    method PadBuffer(buf: array<byte>, nbytes: nat, n: nat, ghost total: nat) returns (blocks: nat)
      requires Counts(total) && SameOffset(total, nbytes) && nbytes <= 128 * n && buf.Length == 128 * (n + 1)
      modifies buf
      ensures blocks <= n + 1 && buf[..128 * blocks] == old(buf[..nbytes]) + Tail512(total)
    {
      hide Counts, Padding512, Tail512, Transferred;
      Padding512Is(nbytes, total, n);
      LengthCells(total);
      var pad := Padding512(nbytes, uLength, lLength);
      blocks := |pad| / 128;
      UnsafeTransfer(pad, buf);
      SkipThenWrite(nbytes, Tail512(total), old(buf[..]));
      assert buf[..|pad|] == old(buf[..nbytes]) + Tail512(total);
    }

    /** The padding, and then processBlocks on all of the buffer that it fills. */
    method ProcessPadded(buf: array<byte>, nbytes: nat, n: nat, ghost total: nat)
      requires HashValid() && Counts(total) && SameOffset(total, nbytes)
      requires nbytes <= 128 * n && buf.Length == 128 * (n + 1) < 0x1_0000_0000_0000_0000
      modifies `hash, `done, `uLength, `lLength, buf
      ensures HashValid() && done == old(done) + (old(buf[..nbytes]) + Tail512(total))
    {
      hide *;
      var blocks := PadBuffer(buf, nbytes, n, total);
      PaddedFits(blocks, n);
      ProcessBlocks(buf, blocks, total);
    }

    /** process512Last on a buffer with room for one block more than the data may take: the digest of
        section 6.4 of FIPS 180-4. The lengths that processBlocks adds on the way out are not used. */
    method ProcessLast(buf: array<byte>, nbytes: nat, n: nat)
      requires HashValid() && Counts(|done|)
      requires nbytes <= 128 * n && buf.Length == 128 * (n + 1) < 0x1_0000_0000_0000_0000
      modifies `hash, `done, `uLength, `lLength, buf
      ensures hash == Digest(compress, initial, old(done) + old(buf[..nbytes]))
      ensures hash == Sha512Last(compress, old(State()), old(buf[..nbytes]))
    {
      hide *;
      ghost var first, data := done, buf[..nbytes];
      Expected(data);
      UpdateLength128(nbytes, |first|);
      ProcessPadded(buf, nbytes, n, |first| + nbytes);
      Finished(first, data);
    }

    lemma Expected(data: seq<byte>)
      requires HashValid()
      ensures SameOffset(|done| + |data|, |data|)
      ensures Sha512Last(compress, State(), data) == Digest(compress, initial, done + data)
    {
      Boundary();
      ModAdd(|done|, |data|, 128);
      Sha512Ends(compress, initial, done, data);
    }

    lemma Boundary()
      requires HashValid()
      ensures |done| % 128 == 0 && State() == HashState(Fed(compress, initial, done, |done| / 128), |done|)
    {
    }

    lemma LengthCells(total: nat)
      requires Counts(total)
      ensures uLength == High(total) && lLength == Low(total)
    {
    }

    lemma Finished(first: seq<byte>, data: seq<byte>)
      requires HashValid() && done == first + (data + Tail512(|first| + |data|))
      ensures hash == Digest(compress, initial, first + data)
    {
      hide Tail512, Fed;
      assert done == (first + data) + Tail512(|first + data|);
    }
  }

  lemma PaddedFits(blocks: nat, n: nat)
    requires blocks <= n + 1
    ensures 128 * blocks <= 128 * (n + 1)
  {
  }
}
