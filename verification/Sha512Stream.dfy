/** Monocypher's SHA-512 context, which compresses a block as soon as it is full. */
module Sha512Stream {
  import opened Words
  import opened Bits
  import opened Chunks
  import opened Blocks
  import opened Sha2Padding

  type Words16 = w: seq<u64> | |w| == 16 witness [0, 0, 0, 0, 0, 0, 0, 0, 0, 0, 0, 0, 0, 0, 0, 0]

  /** The block compression, and what it leaves in the sixteen words it works on. */
  type Compressor = (Hash8, Words16) -> Hash8
  type Residue = (Hash8, Words16) -> Words16

  /** The state after the first n blocks. */
  ghost function Fed(F: Compressor, h: Hash8, data: seq<byte>, n: nat): Hash8
    requires 128 * n <= |data|
  {
    if n == 0 then h else F(Fed(F, h, data, n - 1), WordsOf(BIG, data[128 * (n - 1)..128 * n]))
  }

  /** Section 6.4.2 of FIPS 180-4, over the padded message. */
  ghost function Digest(F: Compressor, h: Hash8, message: seq<byte>): Hash8 {
    var data := message + Tail512(|message|);
    DigestBlocks(message);
    Fed(F, h, data, |data| / 128)
  }

  lemma DigestBlocks(message: seq<byte>)
    ensures var n := |message + Tail512(|message|)|; 128 * (n / 128) == n
  {
    TailLength(|message|);
    hide Tail512;
  }

  lemma {:induction false} FedPrefix(F: Compressor, h: Hash8, data: seq<byte>, more: seq<byte>, n: nat)
    requires 128 * n <= |data|
    ensures Fed(F, h, data + more, n) == Fed(F, h, data, n)
  {
    if n == 0 {
    } else {
      FedPrefix(F, h, data, more, n - 1);
      assert (data + more)[128 * (n - 1)..128 * n] == data[128 * (n - 1)..128 * n];
    }
  }

  lemma NextByte(size: nat)
    ensures size + 1 == 128 * Whole(size) + 128 ==> Whole(size + 1) == Whole(size) + 1
    ensures size + 1 < 128 * Whole(size) + 128 ==> Whole(size + 1) == Whole(size)
  {
  }

  lemma NextBlock(size: nat)
    requires Aligned(size)
    ensures size == 128 * Whole(size) && Whole(size + 128) == Whole(size) + 1 && Aligned(size + 128)
  {
  }

  /** Byte k of a digest. */
  function DigestByte(h: Hash8, k: nat): (b: byte)
    requires k < 64
  {
    BigEndian(h[k / 8])[k % 8]
  }

  class Sha512Ctx {
    const compress: Compressor
    const residue: Residue
    const input: array<u64>
    var hash: Hash8
    var size0: u64  // bits, high half
    var size1: u64  // bits, low half
    var inputIdx: nat
    ghost var initial: Hash8
    ghost var seen: seq<byte>

    /** What was seen after the first n blocks, at most a whole block, is in the buffer. */
    ghost predicate Buffered(n: nat)
      reads `inputIdx, `seen, input
    {
      && input.Length == 16 && 128 * n <= |seen| && inputIdx == |seen| - 128 * n <= 128
      && (inputIdx > 0 ==> input[..] == WordsOf(BIG, Padded(seen[128 * n..])))
    }

    /** n blocks are compressed and the rest is in the buffer. */
    ghost predicate Holds(n: nat)
      reads this, input
    {
      && Buffered(n)
      && hash == Fed(compress, initial, seen, n) && size0 == High(1024 * n) && size1 == Low(1024 * n)
    }

    ghost predicate Valid()
      reads this, input
    {
      Holds(Whole(|seen|))
    }

    constructor (compress: Compressor, residue: Residue)
      ensures this.compress == compress && this.residue == residue && input.Length == 16 && fresh(input)
    {
      this.compress, this.residue := compress, residue;
      input := new u64[16];
      hash := IV;
    }

    /** sha512_incr */
    method Incr(y: u64, ghost count: nat)
      requires size0 == High(count) && size1 == Low(count)
      modifies `size0, `size1
      ensures size0 == High(count + y) && size1 == Low(count + y)
    {
      AddCarry(count, y);
      hide Low, High;
      size1 := (size1 as int + y) % TWO64;
      if size1 < y {
        size0 := (size0 as int + 1) % TWO64;
      }
    }

    /** sha512_compress works in place: the words do not survive it. */
    method Compress()
      requires input.Length == 16
      modifies `hash, input
      ensures hash == compress(old(hash), old(input[..])) && input[..] == residue(old(hash), old(input[..]))
    {
      var left, out := residue(hash, input[..]), compress(hash, input[..]);
      for i := 0 to 16
        invariant forall k :: 0 <= k < i ==> input[k] == left[k]
      {
        input[i] := left[i];
      }
      hash := out;
    }

    /** sha512_end_block */
    method EndBlock(ghost n: nat)
      requires Holds(n)
      modifies `hash, `size0, `size1, `inputIdx, input
      ensures Holds(if old(inputIdx) == 128 then n + 1 else n) && inputIdx < 128
    {
      hide Fed, Low, High, WordsOf, Padded;
      if inputIdx == 128 {
        Incr(1024, 1024 * n);
        FedNext(compress, initial, seen, n);
        Compress();
        inputIdx := 0;
      }
    }

    /** sha512_set_input: the first byte of a block clears the words. */
    method SetInput(b: byte, ghost buf: seq<byte>)
      requires input.Length == 16 && inputIdx < 128 && |buf| == 128 && ZeroFrom(buf, inputIdx)
      requires inputIdx > 0 ==> input[..] == WordsOf(BIG, buf)
      modifies input
      ensures input[..] == WordsOf(BIG, buf[inputIdx := b])
    {
      hide WordsOf, Or, Pow2;
      if inputIdx == 0 {
        ClearInput(buf);
      }
      WordsTake(BIG, buf, inputIdx, b);
      var word := inputIdx / 8;
      ghost var was := input[..];
      input[word] := Or(input[word], b * Pow2(8 * (7 - inputIdx % 8)));
      assert input[..] == was[word := input[word]];
    }

    method ClearInput(ghost buf: seq<byte>)
      requires input.Length == 16 && |buf| == 128 && ZeroFrom(buf, 0)
      modifies input
      ensures input[..] == WordsOf(BIG, buf)
    {
      WordsZero(BIG, buf);
      hide WordsOf;
      for i := 0 to 16
        invariant forall k :: 0 <= k < i ==> input[k] == 0
      {
        input[i] := 0;
      }
    }

    /** The body of the loop of sha512_update. */
    method UpdateByte(b: byte)
      requires Valid()
      modifies `hash, `size0, `size1, `inputIdx, `seen, input
      ensures Valid() && seen == old(seen) + [b]
    {
      hide Fed, Low, High, WordsOf, Padded, Whole;
      ghost var n := Whole(|seen|);
      NextByte(|seen|);
      ghost var pending := seen[128 * n..];
      PaddedNext(pending, b);
      FedPrefix(compress, initial, seen, [b], n);
      assert (seen + [b])[128 * n..] == pending + [b];
      SetInput(b, Padded(pending));
      inputIdx := inputIdx + 1;
      seen := seen + [b];
      EndBlock(n);
    }

    /** sha512_update */
    method UpdateBytes(message: seq<byte>)
      requires Valid()
      modifies `hash, `size0, `size1, `inputIdx, `seen, input
      ensures Valid() && seen == old(seen) + message
    {
      hide *;
      for i := 0 to |message|
        invariant Valid() && seen == old(seen) + message[..i]
      {
        UpdateByte(message[i]);
      }
    }

    /** One round of the block by block loop of crypto_sha512_update. */
    method UpdateBlock(block: seq<byte>)
      requires Valid() && Aligned(|seen|) && |block| == 128
      modifies `hash, `size0, `size1, `inputIdx, `seen, input
      ensures Valid() && seen == old(seen) + block
    {
      NextBlock(|seen|);
      PaddedBlock(block);
      hide Fed, Low, High, WordsOf, Padded, Whole, Aligned;
      ghost var n := Whole(|seen|);
      FedPrefix(compress, initial, seen, block, n);
      assert (seen + block)[128 * n..] == block;
      LoadWords(BIG, input, block);
      inputIdx := inputIdx + 128;
      seen := seen + block;
      EndBlock(n);
    }

    method UpdateBlocks(message: seq<byte>) returns (consumed: nat)
      requires Valid() && (|message| >= 128 ==> Aligned(|seen|))
      modifies `hash, `size0, `size1, `inputIdx, `seen, input
      ensures Valid() && consumed <= |message| < consumed + 128 && seen == old(seen) + message[..consumed]
    {
      hide *;
      var nbBlocks := Whole(|message|);
      for i := 0 to nbBlocks
        invariant Valid() && seen == old(seen) + message[..128 * i]
      {
        NextChunk(message, i);
        StillAligned(|old(seen)|, i);
        UpdateBlock(message[128 * i..128 * i + 128]);
      }
      consumed := 128 * nbBlocks;
    }

    /** crypto_sha512_update: align, then whole blocks, then the rest. */
    method Update(message: seq<byte>)
      requires Valid() && |message| < TWO64
      modifies `hash, `size0, `size1, `inputIdx, `seen, input
      ensures Valid() && seen == old(seen) + message
    {
      hide *;
      AlignedAfter();
      var align := if Align(inputIdx, 128) <= |message| then Align(inputIdx, 128) else |message|;
      ghost var start := seen;
      UpdateBytes(message[..align]);
      var rest := message[align..];
      var consumed := UpdateBlocks(rest);
      Rejoin(start, message, align, consumed);
      UpdateBytes(rest[consumed..]);
    }

    lemma AlignedAfter()
      requires Valid()
      ensures inputIdx <= 128 && Align(inputIdx, 128) <= 128 && Aligned(|seen| + Align(inputIdx, 128))
    {
      hide Fed, Low, High, WordsOf, Padded, Align, Aligned, Whole;
      Alignment(inputIdx, Whole(|seen|), |seen|);
    }

    /** crypto_sha512_init */
    method Init()
      requires input.Length == 16
      modifies this
      ensures Valid() && seen == [] && initial == IV
    {
      hash, size0, size1, inputIdx := IV, 0, 0, 0;
      initial, seen := IV, [];
    }

    /** The 0x80 byte, in the block of the last bytes. */
    method TakeEndMark(ghost n: nat)
      requires Buffered(n) && inputIdx < 128
      modifies input
      ensures input[..] == WordsOf(BIG, Padded(seen[128 * n..] + [0x80]))
    {
      hide WordsOf, Fed, Low, High, Padded;
      PaddedNext(seen[128 * n..], 0x80);
      SetInput(0x80, Padded(seen[128 * n..]));
    }

    /** The length goes into the last two words. */
    method PutLength(ghost buf: seq<byte>)
      requires input.Length == 16 && |buf| == 128 && input[..14] == WordsOf(BIG, buf)[..14]
      modifies input
      ensures input[..] == WordsOf(BIG, buf[..112] + BigEndian(size0) + BigEndian(size1))
    {
      LengthWords(buf, size0, size1);
      hide WordsOf, BigEndian;
      ghost var was := input[..];
      input[14] := size0;
      input[15] := size1;
      assert input[..] == was[..14] + [size0, size1];
    }

    /** One or two blocks: everything from the first pending byte to the end of the padding. */
    method FinishBlocks()
      requires Valid()
      modifies `hash, `size0, `size1, input
      ensures hash == Digest(compress, initial, seen)
    {
      hide *;
      ghost var n := Whole(|seen|);
      Start();
      Pending(n);
      Incr(inputIdx * 8, 1024 * n);
      TakeEndMark(n);
      ghost var marked := seen[128 * n..] + [0x80];
      if inputIdx > 111 {
        TwoBlocks(compress, initial, seen, n);
        LastBlockIs([], |seen|);
        Compress();
        ClearWords();
        PutLength(Padded([]));
        Compress();
      } else {
        OneBlock(compress, initial, seen, n);
        LastBlockIs(marked, |seen|);
        PutLength(Padded(marked));
        Compress();
      }
    }

    method ClearWords()
      requires input.Length == 16
      modifies input
      ensures input[..14] == WordsOf(BIG, Padded([]))[..14]
    {
      WordsZero(BIG, Padded([]));
      hide WordsOf;
      for i := 0 to 14
        invariant forall k :: 0 <= k < i ==> input[k] == 0
      {
        input[i] := 0;
      }
    }

    lemma Start()
      requires Valid()
      ensures Holds(Whole(|seen|)) && inputIdx < 128 && input.Length == 16
    {
    }

    lemma Pending(n: nat)
      requires Holds(n)
      ensures Buffered(n) && input.Length == 16 && |seen| == 128 * n + inputIdx
      ensures hash == Fed(compress, initial, seen, n)
      ensures size0 == High(1024 * n) && size1 == Low(1024 * n)
    {
    }

    /** The state, most significant bytes first. */
    method WriteHash(out: array<byte>)
      requires out.Length >= 64
      modifies out
      ensures forall k :: 0 <= k < 64 ==> out[k] == DigestByte(hash, k)
      ensures forall k :: 64 <= k < out.Length ==> out[k] == old(out[k])
    {
      hide BigEndian, DigestByte;
      for i := 0 to 8
        invariant forall k :: 0 <= k < 8 * i ==> out[k] == DigestByte(hash, k)
        invariant forall k :: 8 * i <= k < out.Length ==> out[k] == old(out[k])
      {
        StoreBE(out, 8 * i, hash[i]);
        DigestWord(hash, i);
      }
    }

    /** WIPE_CTX */
    method Wipe()
      requires input.Length == 16
      modifies `hash, `size0, `size1, `inputIdx, input
      ensures size0 == size1 == inputIdx == 0 && forall k :: 0 <= k < 16 ==> input[k] == 0
    {
      for i := 0 to 16
        invariant forall k :: 0 <= k < i ==> input[k] == 0
      {
        input[i] := 0;
      }
      hash := [0, 0, 0, 0, 0, 0, 0, 0];
      size0, size1, inputIdx := 0, 0, 0;
    }

    /** crypto_sha512_final */
    method Final(out: array<byte>)
      requires Valid() && out.Length >= 64
      modifies this, input, out
      ensures forall i :: 0 <= i < 64 ==> out[i] == DigestByte(Digest(compress, old(initial), old(seen)), i)
      ensures out[64..] == old(out[64..])
    {
      hide *;
      Start();
      FinishBlocks();
      WriteHash(out);
      Wipe();
    }
  }

  lemma FedNext(F: Compressor, h: Hash8, data: seq<byte>, n: nat)
    requires 128 * n + 128 == |data|
    ensures Fed(F, h, data, n + 1) == F(Fed(F, h, data, n), WordsOf(BIG, Padded(data[128 * n..])))
  {
    hide WordsOf;
    assert data[128 * n..] == data[128 * n..128 * (n + 1)] == Padded(data[128 * n..]);
  }

  // ---------------------------------------------------------------------
  // The last block, or the last two
  // ---------------------------------------------------------------------

  lemma LengthWords(buf: seq<byte>, w0: u64, w1: u64)
    requires |buf| == 128
    ensures WordsOf(BIG, buf[..112] + BigEndian(w0) + BigEndian(w1)) == WordsOf(BIG, buf)[..14] + [w0, w1]
  {
    BigEndianWord(w0);
    BigEndianWord(w1);
    hide BigEndian, WordOf;
    var b := buf[..112] + BigEndian(w0) + BigEndian(w1);
    assert b[8 * 14..8 * 14 + 8] == BigEndian(w0) && b[8 * 15..8 * 15 + 8] == BigEndian(w1);
    assert forall k :: 0 <= k < 14 ==> b[8 * k..8 * k + 8] == buf[8 * k..8 * k + 8];
  }

  lemma Zero512(n: nat, idx: nat)
    requires idx < 128
    ensures ZeroCount(128 * n + idx, 128, 16) == if idx <= 111 then 111 - idx else 239 - idx
  {
    DivModUnique(128 * n + idx + 17, 128, if idx <= 110 then n else n + 1, if idx <= 110 then idx + 17 else idx - 111);
  }

  /** The last block of a message whose last bytes leave room for the length. */
  function LastBlock(start: seq<byte>, size: nat): (b: seq<byte>)
    requires |start| <= 128
    ensures |b| == 128
  {
    Padded(start)[..112] + BigEndian(High(8 * size)) + BigEndian(Low(8 * size))
  }

  lemma LastBlockIs(start: seq<byte>, size: nat)
    requires |start| <= 128
    ensures LastBlock(start, size) == Padded(start)[..112] + BigEndian(High(8 * size)) + BigEndian(Low(8 * size))
  {
  }

  /** The bytes from the last block boundary to the end of the padding, in one block. */
  lemma OneBlockData(seen: seq<byte>, n: nat)
    requires 128 * n <= |seen| <= 128 * n + 111
    ensures var data := seen + Tail512(|seen|);
            |data| == 128 * n + 128 && data[128 * n..] == LastBlock(seen[128 * n..] + [0x80], |seen|)
  {
    Zero512(n, |seen| - 128 * n);
    hide BigEndian, Low, High, ZeroCount;
  }

  /** The same in two blocks. */
  lemma TwoBlockData(seen: seq<byte>, n: nat)
    requires 128 * n + 112 <= |seen| < 128 * n + 128
    ensures var data := seen + Tail512(|seen|);
            |data| == 128 * n + 256 && data[128 * n..] == Padded(seen[128 * n..] + [0x80]) + LastBlock([], |seen|)
  {
    Zero512(n, |seen| - 128 * n);
    hide BigEndian, Low, High, ZeroCount;
  }

  lemma FedLast(F: Compressor, h: Hash8, data: seq<byte>, n: nat, block: seq<byte>)
    requires 128 * n + 128 <= |data| && data[128 * n..128 * n + 128] == block
    ensures Fed(F, h, data, n + 1) == F(Fed(F, h, data, n), WordsOf(BIG, block))
  {
    hide WordsOf;
    assert 128 * (n + 1) == 128 * n + 128;
  }

  lemma OneBlock(F: Compressor, h: Hash8, seen: seq<byte>, n: nat)
    requires 128 * n <= |seen| <= 128 * n + 111
    ensures Digest(F, h, seen) == F(Fed(F, h, seen, n), WordsOf(BIG, LastBlock(seen[128 * n..] + [0x80], |seen|)))
    ensures 1024 * n + (|seen| - 128 * n) * 8 == 8 * |seen|
  {
    hide WordsOf, LastBlock, Tail512, Fed;
    var data, block := seen + Tail512(|seen|), LastBlock(seen[128 * n..] + [0x80], |seen|);
    OneBlockData(seen, n);
    FedPrefix(F, h, seen, Tail512(|seen|), n);
    assert data[128 * n..128 * n + 128] == data[128 * n..];
    FedLast(F, h, data, n, block);
  }

  lemma TwoBlocks(F: Compressor, h: Hash8, seen: seq<byte>, n: nat)
    requires 128 * n + 112 <= |seen| < 128 * n + 128
    ensures Digest(F, h, seen) == F(F(Fed(F, h, seen, n), WordsOf(BIG, Padded(seen[128 * n..] + [0x80]))),
                                    WordsOf(BIG, LastBlock([], |seen|)))
    ensures 1024 * n + (|seen| - 128 * n) * 8 == 8 * |seen|
  {
    hide WordsOf, LastBlock, Tail512, Padded, Fed;
    var data := seen + Tail512(|seen|);
    var a, b := Padded(seen[128 * n..] + [0x80]), LastBlock([], |seen|);
    TwoBlockData(seen, n);
    FedPrefix(F, h, seen, Tail512(|seen|), n);
    assert data[128 * n..128 * n + 128] == data[128 * n..][..128] == a;
    assert data[128 * (n + 1)..128 * (n + 1) + 128] == data[128 * n..][128..] == b;
    FedLast(F, h, data, n, a);
    FedLast(F, h, data, n + 1, b);
  }

  method StoreBE(out: array<byte>, at: nat, w: u64)
    requires at + 8 <= out.Length
    modifies out
    ensures forall i :: at <= i < at + 8 ==> out[i] == BigEndian(w)[i - at]
    ensures forall i :: 0 <= i < at || at + 8 <= i < out.Length ==> out[i] == old(out[i])
  {
    hide BigEndian;
    var s := BigEndian(w);
    out[at], out[at + 1], out[at + 2], out[at + 3] := s[0], s[1], s[2], s[3];
    out[at + 4], out[at + 5], out[at + 6], out[at + 7] := s[4], s[5], s[6], s[7];
  }

  lemma DigestWord(h: Hash8, i: nat)
    requires i < 8
    ensures forall k :: 8 * i <= k < 8 * i + 8 ==> DigestByte(h, k) == BigEndian(h[i])[k - 8 * i]
  {
    hide BigEndian;
  }

  /** However the message is split, the padded message is compressed block by block. */
  method HashChunks(F: Compressor, G: Residue, out: array<byte>, chunks: seq<seq<byte>>)
    requires out.Length >= 64
    requires forall i :: 0 <= i < |chunks| ==> |chunks[i]| < TWO64
    modifies out
    ensures forall i :: 0 <= i < 64 ==> out[i] == DigestByte(Digest(F, IV, Concat(chunks)), i)
    ensures out[64..] == old(out[64..])
  {
    hide *;
    var ctx := new Sha512Ctx(F, G);
    ctx.Init();
    EmptyConcat(chunks);
    for i := 0 to |chunks|
      invariant ctx.Valid() && ctx.initial == IV && ctx.seen == Concat(chunks[..i]) && out[..] == old(out[..])
      invariant fresh(ctx) && fresh(ctx.input) && ctx.compress == F
    {
      ConcatNext(chunks, i);
      ctx.Update(chunks[i]);
    }
    AllConcat(chunks);
    ctx.Final(out);
  }
}
