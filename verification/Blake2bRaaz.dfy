/** BLAKE2b in Raaz: all but the last block through the block compressor, the last one flagged. */
module Blake2bRaaz {
  import opened Words
  import opened Bits
  import opened Blocks
  import opened Blake2bStream
  import opened HashStates
  import opened Transfer

  // ---------------------------------------------------------------------
  // Initial value and padding
  // ---------------------------------------------------------------------

  /** keyLength: keys longer than the hash are cut. */
  function KeyLength(len: nat): (k: nat) {
    if len > 64 then 64 else len
  }

  /** hashInit: the parameters are OR-ed together before they are xored in. */
  function HashInit(len: nat): (h: Hash8) {
    InitFits(KeyLength(len));
    IV[0 := Xor(IV[0], Or(0x01010040, KeyLength(len) * 0x100))]
  }

  /** For a hash of 64 bytes, the initial value of Monocypher and of RFC 7693. */
  lemma InitFits(k: nat)
    requires k <= 64
    ensures Or(0x01010040, k * 0x100) == Xor(Xor(0x01010000, k * 0x100), 64)
    ensures Xor(IV[0], Or(0x01010040, k * 0x100)) < TWO64
  {
    ParametersFit(64, k);
    DisjointParameters(k);
  }

  lemma HashInitIs(len: nat)
    ensures HashInit(len) == InitialHash(64, KeyLength(len))
  {
    InitFits(KeyLength(len));
    hide Or, Xor;
  }

  /** The parameters use different bits, so OR and xor both are addition. */
  lemma DisjointParameters(k: nat)
    requires k <= 64
    ensures Or(0x01010040, k * 0x100) == 0x01010040 + k * 0x100
    ensures Xor(Xor(0x01010000, k * 0x100), 64) == 0x01010040 + k * 0x100
  {
    hide Bitwise;
    TopByte(OR, 0x101, 0x40, k, 0);
    TopByte(XOR, 0x101, 0, k, 0);
    TopByte(XOR, 0x101, 0, k, 64);
  }

  /** The low byte of the parameters is changed by one operand, and the byte above it by the other. */
  lemma TopByte(op: Op, high: nat, low: nat, k: nat, size: nat)
    requires op != AND && low < 256 && k < 256 && size < 256 && (low == 0 || size == 0)
    ensures Bitwise(op, 0x1_0000 * high + low, k * 0x100) == 0x1_0000 * high + 0x100 * k + low
    ensures Bitwise(op, 0x1_0000 * high + 0x100 * k + low, size) == 0x1_0000 * high + 0x100 * k + low + size
  {
    hide *;
    ZeroIdentity(op, low + size);
    ZeroIdentity(op, low);
    ZeroIdentity(op, k);
    ZeroIdentity(op, high);
    ZeroIdentity(op, 0x100 * high + k);
    ByteSplit(op, 0, high, k, 0);
    ByteSplit(op, low, 0x100 * high, 0, k);
    ByteSplit(op, low, 0x100 * high + k, size, 0);
  }

  /** blake2Pad: zeros to a block boundary, and a whole block of them for an empty message. */
  function Blake2Pad(m: nat): (w: WriteTo) {
    if m == 0 then WriteBytes(0, 128) else PadWrite(0, 128, Skip(m))
  }

  lemma Blake2PadIs(m: nat)
    ensures var w := Blake2Pad(m);
            |w| == 128 * (NonLast(m) + 1) && w == Skip(m) + Write(Zeros(|w| - m))
  {
    GlueAligned(0, 128, Skip(m), []);
    if m > 0 {
      var n := NonLast(m);
      DivModUnique(|Blake2Pad(m)|, 128, n + 1, 0);
    }
  }

  /** The buffer after the padding: the data, and zeros up to the end of the last block. */
  lemma PaddedBuffer(buf: seq<byte>, m: nat)
    requires m <= |buf| && |Blake2Pad(m)| <= |buf|
    ensures var n, out := NonLast(m), Transferred(Blake2Pad(m), buf);
            128 * n + 128 <= |buf| && out[..128 * n] == buf[..128 * n]
            && out[128 * n..128 * n + 128] == Padded(buf[128 * n..m])
  {
    Blake2PadIs(m);
    hide NonLast, Blake2Pad;
    SkipThenWrite(m, Zeros(|Blake2Pad(m)| - m), buf);
  }

  // ---------------------------------------------------------------------
  // What processLast computes
  // ---------------------------------------------------------------------

  /** The blocks done, none of them the last, then those of the data, the last one flagged. */
  ghost function Ending(F: Compressor, h: Hash8, done: seq<byte>, data: seq<byte>): Hash8
    requires Aligned(|done|)
  {
    var all, n := done + data, Whole(|done|) + NonLast(|data|);
    F(Fed(F, h, all, n), WordsOf(LITTLE, Padded(all[128 * n..])), Low(|all|), High(|all|), true)
  }

  /** A compressor that counts its calls. */
  function Count(h: Hash8, block: seq<u64>, low: u64, high: u64, last: bool): (r: Hash8) {
    h[0 := (h[0] as int + 1) % TWO64]
  }

  lemma {:induction false} CountFed(h: Hash8, data: seq<byte>, n: nat)
    requires 128 * n <= |data|
    ensures Fed(Count, h, data, n)[0] == (h[0] as int + n) % TWO64
  {
    hide WordsOf, Low, High;
    if n == 0 {
    } else {
      CountFed(h, data, n - 1);
      ModAdd(h[0] + (n - 1), 1, TWO64);
    }
  }

  lemma EndingIs(F: Compressor, h: Hash8, done: seq<byte>, data: seq<byte>)
    requires Aligned(|done|)
    ensures var all, n := done + data, Whole(|done|) + NonLast(|data|);
            && 128 * n <= |all| <= 128 * n + 128
            && Ending(F, h, done, data)
               == F(Fed(F, h, all, n), WordsOf(LITTLE, Padded(all[128 * n..])), Low(|all|), High(|all|), true)
  {
    LastBlocks(|done|, |data|);
    hide WordsOf, Low, High, Padded, NonLast, Whole, Fed;
  }

  lemma DigestIs(F: Compressor, h: Hash8, data: seq<byte>)
    ensures var n := NonLast(|data|);
            Digest(F, h, data)
            == F(Fed(F, h, data, n), WordsOf(LITTLE, Padded(data[128 * n..])), Low(|data|), High(|data|), true)
  {
    hide WordsOf, Low, High, Padded, NonLast, Fed;
  }

  lemma SameEnding(F: Compressor, h: Hash8, done: seq<byte>, data: seq<byte>)
    requires Aligned(|done|) && (data != [] || done == [])
    ensures Ending(F, h, done, data) == Digest(F, h, done + data)
  {
    hide *;
    LastBlocks(|done|, |data|);
    EndingIs(F, h, done, data);
    DigestIs(F, h, done + data);
  }

  lemma CountIs(h: Hash8, block: seq<u64>, low: u64, high: u64, last: bool)
    ensures Count(h, block, low, high, last)[0] == (h[0] as int + 1) % TWO64
  {
  }

  lemma BlockTooMany(h: Hash8, done: seq<byte>)
    requires Aligned(|done|) && done != []
    ensures Ending(Count, h, done, [])[0] != Digest(Count, h, done)[0]
  {
    hide *;
    var n := Whole(|done|);
    LastBlocks(|done|, 0);
    assert done + [] == done;
    EndingIs(Count, h, done, []);
    DigestIs(Count, h, done);
    CountFed(h, done, n);
    CountFed(h, done, n - 1);
    var low, high := Low(|done|), High(|done|);
    CountIs(Fed(Count, h, done, n), WordsOf(LITTLE, Padded(done[128 * n..])), low, high, true);
    CountIs(Fed(Count, h, done, n - 1), WordsOf(LITTLE, Padded(done[128 * (n - 1)..])), low, high, true);
    NextCount(h[0] + (n - 1));
  }

  /** processLast gives the digest of RFC 7693, whatever the compressor does, exactly when it is not left
      without data after whole blocks: then it compresses a block of zeros that the message does not have. */
  lemma EndsAsDigest(h: Hash8, done: seq<byte>, data: seq<byte>)
    requires Aligned(|done|)
    ensures (forall F: Compressor :: Ending(F, h, done, data) == Digest(F, h, done + data))
            <==> (data != [] || done == [])
  {
    hide *;
    if data == [] && done != [] {
      BlockTooMany(h, done);
      assert done + data == done;
      assert Ending(Count, h, done, data) != Digest(Count, h, done + data);
    } else {
      forall F: Compressor ensures Ending(F, h, done, data) == Digest(F, h, done + data) {
        SameEnding(F, h, done, data);
      }
    }
  }

  lemma NextCount(x: nat)
    ensures ((x + 1) % TWO64 + 1) % TWO64 != (x % TWO64 + 1) % TWO64
  {
    ModAdd(x, 1, TWO64);
  }

  lemma FedBlock(F: Compressor, h: Hash8, done: seq<byte>, block: seq<byte>, n: nat)
    requires |done| == 128 * n && |block| == 128
    ensures Fed(F, h, done + block, n + 1)
         == F(Fed(F, h, done, n), WordsOf(LITTLE, block), Low(128 * n + 128), High(128 * n + 128), false)
  {
    hide *;
    FedPrefix(F, h, done, block, n);
    FedStep(F, h, done + block, n);
    assert (done + block)[128 * n..128 * n + 128] == block;
  }

  lemma FedStep(F: Compressor, h: Hash8, data: seq<byte>, n: nat)
    requires 128 * n + 128 <= |data|
    ensures Fed(F, h, data, n + 1)
         == F(Fed(F, h, data, n), WordsOf(LITTLE, data[128 * n..128 * n + 128]), Low(128 * n + 128),
              High(128 * n + 128), false)
  {
    hide WordsOf, Low, High;
  }

  lemma AlignedRest(first: nat, size: nat)
    requires Aligned(first) && Aligned(first + size)
    ensures Aligned(size)
  {
  }

  lemma BlockBounds(size: nat)
    requires Aligned(size)
    ensures size == 128 * Whole(size) && Aligned(size + 128) && Whole(size + 128) == Whole(size) + 1
  {
  }

  lemma BlocksSplit(done: nat, n: nat)
    requires Aligned(done)
    ensures done == 128 * Whole(done) && Aligned(128 * n) && Aligned(done + 128 * n)
    ensures Whole(done + 128 * n) == Whole(done) + n
  {
  }

  lemma EndingSplit(F: Compressor, h: Hash8, done: seq<byte>, data: seq<byte>)
    requires Aligned(|done|)
    ensures var n := NonLast(|data|);
            && |done| == 128 * Whole(|done|)
            && Ending(F, h, done, data)
               == F(Fed(F, h, done + data[..128 * n], Whole(|done|) + n), WordsOf(LITTLE, Padded(data[128 * n..])),
                    Low(|done| + |data|), High(|done| + |data|), true)
  {
    hide *;
    var n, m := NonLast(|data|), Whole(|done|);
    BlocksSplit(|done|, n);
    EndingIs(F, h, done, data);
    var first, rest := data[..128 * n], data[128 * n..];
    FedPrefix(F, h, done + first, rest, m + n);
    assert (done + first) + rest == done + data && (done + data)[128 * (m + n)..] == rest;
  }

  /** From the state after whole blocks, the last call gives just that. */
  lemma LastIsEnding(F: Compressor, h: Hash8, done: seq<byte>, data: seq<byte>)
    requires Aligned(|done|)
    ensures Blake2bLast(F, HashState(Fed(F, h, done, Whole(|done|)), |done|), data) == Ending(F, h, done, data)
  {
    hide *;
    var n := NonLast(|data|);
    BlocksSplit(|done|, n);
    EndingSplit(F, h, done, data);
    Blake2bLastIs(F, HashState(Fed(F, h, done, Whole(|done|)), |done|), data);
    Blake2bContinues(F, h, done, data[..128 * n]);
  }

  // ---------------------------------------------------------------------
  // The hash memory
  // ---------------------------------------------------------------------

  class Blake2bMem {
    const compress: Compressor
    var hash: Hash8
    var uLength: u64
    var lLength: u64
    ghost var initial: Hash8
    ghost var done: seq<byte>

    ghost predicate Valid()
      reads this
    {
      && Aligned(|done|) && hash == Fed(compress, initial, done, Whole(|done|))
      && uLength == High(|done|) && lLength == Low(|done|)
    }

    /** The hash and the number of bytes, as the context sees them. */
    ghost function State(): (s: HashState)
      reads `hash, `done
    {
      HashState(hash, |done|)
    }

    constructor (compress: Compressor, h: Hash8)
      ensures this.compress == compress && Valid() && done == [] && initial == h
    {
      this.compress := compress;
      hash, uLength, lLength := h, 0, 0;
      initial, done := h, [];
    }

    /** initialise, with the value of hashInit */
    method Initialise(len: nat)
      modifies this
      ensures Valid() && done == [] && initial == InitialHash(64, KeyLength(len))
    {
      HashInitIs(len);
      hide InitialHash, HashInit, Low, High, KeyLength;
      NoBlocks(compress, HashInit(len));
      hash, uLength, lLength := HashInit(len), 0, 0;
      initial, done := hash, [];
    }

    /** The byte count with some more bytes, as the C code computes it before it compresses. */
    method Counted(len: nat, ghost total: nat) returns (upper: u64, lower: u64)
      requires uLength == High(total) && lLength == Low(total) && len <= 128
      ensures upper == High(total + len) && lower == Low(total + len)
    {
      AddCarry(total, len);
      WrapTest(lLength, len);
      hide Low, High;
      upper := if lLength > TWO64 - 1 - len then (uLength as int + 1) % TWO64 else uLength;
      lower := (lLength as int + len) % TWO64;
    }

    /** One round of the block compression loop. */
    method ProcessBlock(block: seq<byte>)
      requires Valid() && |block| == 128
      modifies `hash, `uLength, `lLength, `done
      ensures Valid() && done == old(done) + block
    {
      hide *;
      Opened(block);
      uLength, lLength := Counted(128, |done|);
      hash := compress(hash, WordsOf(LITTLE, block), lLength, uLength, false);
      done := done + block;
      Closed();
    }

    lemma Opened(block: seq<byte>)
      requires Valid() && |block| == 128
      ensures uLength == High(|done|) && lLength == Low(|done|) && Aligned(|done| + 128)
      ensures compress(hash, WordsOf(LITTLE, block), Low(|done| + 128), High(|done| + 128), false)
           == Fed(compress, initial, done + block, Whole(|done| + 128))
    {
      hide WordsOf, Low, High, Whole, Aligned, Fed;
      BlockBounds(|done|);
      FedBlock(compress, initial, done, block, Whole(|done|));
    }

    lemma Closed()
      requires Aligned(|done|) && hash == Fed(compress, initial, done, Whole(|done|))
      requires uLength == High(|done|) && lLength == Low(|done|)
      ensures Valid()
    {
    }

    /** processBlocks */
    method ProcessBlocks(buf: array<byte>, blocks: nat)
      requires Valid() && 128 * blocks <= buf.Length
      modifies `hash, `uLength, `lLength, `done
      ensures Valid() && done == old(done) + buf[..128 * blocks]
      ensures State() == Blake2bBlocks(compress, old(State()), buf[..128 * blocks])
    {
      Start();
      hide *;
      for i := 0 to blocks
        invariant Valid() && done == old(done) + buf[..128 * i]
      {
        NextChunk(buf[..], i);
        ProcessBlock(buf[128 * i..128 * i + 128]);
      }
      Continued(old(State()), old(done), buf[..128 * blocks]);
    }

    lemma Continued(was: HashState, first: seq<byte>, data: seq<byte>)
      requires Aligned(|first|) && was == HashState(Fed(compress, initial, first, Whole(|first|)), |first|)
      requires Valid() && done == first + data
      ensures State() == Blake2bBlocks(compress, was, data)
    {
      hide Low, High, Whole, Aligned, Fed, Blake2bBlocks;
      AlignedRest(|first|, |data|);
      Blake2bContinues(compress, initial, first, data);
    }

    /** The call for the last block. */
    method LastBlock(block: seq<byte>, remBytes: nat, ghost data: seq<byte>, ghost first: seq<byte>)
      requires Valid() && remBytes == |data| <= 128 && block == Padded(data)
      requires Aligned(|first|) && first <= done && (data == [] ==> done == first)
      modifies `hash
      ensures Aligned(|first|) && hash == Ending(compress, initial, first, done[|first|..] + data)
    {
      hide *;
      Fields();
      Joined(first, done, data);
      FedPrefix(compress, initial, done, data, Whole(|done|));
      EndingIs(compress, initial, first, done[|first|..] + data);
      var upper, lower := Counted(remBytes, |done|);
      hash := compress(hash, WordsOf(LITTLE, block), lower, upper, true);
    }

    /** The padding, and how many blocks there are before the last one. */
    method Pad(buf: array<byte>, nbytes: nat) returns (blocks: nat)
      requires nbytes <= buf.Length && |Blake2Pad(nbytes)| <= buf.Length
      modifies buf
      ensures 128 * blocks <= nbytes <= 128 * blocks + 128 <= buf.Length && (nbytes == 128 * blocks ==> blocks == 0)
      ensures buf[..128 * blocks] == old(buf[..nbytes])[..128 * blocks]
      ensures buf[128 * blocks..128 * blocks + 128] == Padded(old(buf[..nbytes])[128 * blocks..])
    {
      Blake2PadIs(nbytes);
      PaddedBuffer(buf[..], nbytes);
      hide Blake2Pad, Transferred, Padded;
      var pad := Blake2Pad(nbytes);
      blocks := |pad| / 128 - 1;
      ghost var was := buf[..];
      assert was[..nbytes][128 * blocks..] == was[128 * blocks..nbytes];
      UnsafeTransfer(pad, buf);
    }

    /** processLast */
    method ProcessLast(buf: array<byte>, nbytes: nat)
      requires Valid() && nbytes <= buf.Length && |Blake2Pad(nbytes)| <= buf.Length
      modifies `hash, `uLength, `lLength, `done, buf
      ensures Aligned(|old(done)|) && hash == Ending(compress, initial, old(done), old(buf[..nbytes]))
      ensures hash == Blake2bLast(compress, old(State()), old(buf[..nbytes]))
    {
      hide *;
      ghost var first, data := done, buf[..nbytes];
      Expected(data);
      var blocks := Pad(buf, nbytes);
      ProcessBlocks(buf, blocks);
      Regroup(first, buf[..128 * blocks], data, blocks);
      LastBlock(buf[128 * blocks..128 * blocks + 128], nbytes - 128 * blocks, data[128 * blocks..], first);
    }

    lemma Expected(data: seq<byte>)
      requires Valid()
      ensures Aligned(|done|) && Blake2bLast(compress, State(), data) == Ending(compress, initial, done, data)
    {
      Start();
      hide *;
      LastIsEnding(compress, initial, done, data);
    }

    lemma Fields()
      requires Valid()
      ensures Aligned(|done|) && hash == Fed(compress, initial, done, Whole(|done|))
      ensures uLength == High(|done|) && lLength == Low(|done|)
    {
    }

    lemma Fresh()
      requires Valid() && done == []
      ensures State() == HashState(initial, 0)
    {
      hide Low, High;
    }

    lemma Start()
      requires Valid()
      ensures Aligned(|done|) && State() == HashState(Fed(compress, initial, done, Whole(|done|)), |done|)
    {
    }
  }

  lemma Regroup(first: seq<byte>, out: seq<byte>, data: seq<byte>, blocks: nat)
    requires 128 * blocks <= |data| && out == data[..128 * blocks]
    ensures first <= first + out && (first + out)[|first|..] + data[128 * blocks..] == data
    ensures blocks == 0 ==> first + out == first
  {
    assert (first + out)[|first|..] == out;
  }

  /** The last block of what comes after the blocks done first. */
  lemma Joined(first: seq<byte>, done: seq<byte>, data: seq<byte>)
    requires Aligned(|first|) && Aligned(|done|) && first <= done && |data| <= 128 && (data == [] ==> done == first)
    ensures var rest := done[|first|..] + data;
            && first + rest == done + data && |done| == 128 * Whole(|done|)
            && Whole(|first|) + NonLast(|rest|) == Whole(|done|) && (done + data)[|done|..] == data
  {
  }
}
