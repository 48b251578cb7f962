/** Monocypher's BLAKE2b context, which compresses a full block only once another byte is known to come. */
module Blake2bStream {
  import opened Words
  import opened Bits
  import opened Blocks
  import opened Chunks

  /** The compression function F: state, block, byte count in two words, and the flag of the last block. */
  type Compressor = (Hash8, seq<u64>, u64, u64, bool) -> Hash8

  // ---------------------------------------------------------------------
  // Section 3.3 of RFC 7693
  // ---------------------------------------------------------------------

  /** The initial value with the parameter block xored in. */
  function InitialHash(hashSize: nat, keySize: nat): (h: Hash8)
    requires hashSize <= 64 && keySize <= 64
  {
    ParametersFit(hashSize, keySize);
    IV[0 := Xor(IV[0], Xor(Xor(0x01010000, keySize * 0x100), hashSize))]
  }

  lemma ParametersFit(hashSize: nat, keySize: nat)
    requires hashSize <= 64 && keySize <= 64
    ensures Xor(IV[0], Xor(Xor(0x01010000, keySize * 0x100), hashSize)) < TWO64
  {
    Pow2Values();
    hide Pow2;
    BitwiseBound(XOR, 32, 0x01010000, keySize * 0x100);
    BitwiseBound(XOR, 32, Xor(0x01010000, keySize * 0x100), hashSize);
    hide Bitwise;
    BitwiseBound(XOR, 64, IV[0], Xor(Xor(0x01010000, keySize * 0x100), hashSize));
  }

  /** The first word of the parameter block of section 2.5 of RFC 7693: from the least significant byte on the size of
      the hash, the size of the key, and twice 1. */
  lemma ParameterWord(hashSize: nat, keySize: nat)
    requires hashSize <= 64 && keySize <= 64
    ensures var h := InitialHash(hashSize, keySize);
            && h[0] == Xor(IV[0], 0x100_0000 + 0x1_0000 + 0x100 * keySize + hashSize)
            && h[1..] == IV[1..]
  {
    hide Pow2, Bitwise;
    ParametersFit(hashSize, keySize);
    Pow2Values();
    ZeroIdentity(XOR, hashSize);
    ZeroIdentity(XOR, keySize);
    ZeroIdentity(XOR, 0x101);
    AllZero();
    BitwiseSplit(XOR, 16, 0, 0x101, 0x100 * keySize, 0);
    ZeroIdentity(XOR, 0x100 * keySize);
    BitwiseSplit(XOR, 8, 0, 0x1_0100 + keySize, hashSize, 0);
    ZeroIdentity(XOR, 0x1_0100 + keySize);
  }

  lemma AllZero()
    ensures Bitwise(XOR, 0, 0) == 0
  {
  }

  /** The message, after the key block if there is a key. */
  function KeyedData(key: seq<byte>, message: seq<byte>): (data: seq<byte>)
    requires |key| <= 64
  {
    if key == [] then message else Padded(key) + message
  }

  /** How many blocks come before the last one, which is empty only when there is no data at all. */
  function NonLast(size: nat): (n: nat)
    ensures 128 * n <= size <= 128 * n + 128 && (size > 0 ==> 128 * n < size)
  {
    if size == 0 then 0 else (size - 1) / 128
  }

  lemma NextByte(size: nat)
    ensures NonLast(size + 1) == Whole(size)
  {
  }

  lemma NextBlock(size: nat)
    requires Aligned(size)
    ensures size == 128 * Whole(size) && NonLast(size + 128) == Whole(size) && Aligned(size + 128)
  {
  }

  lemma LastBlocks(done: nat, size: nat)
    requires Aligned(done)
    ensures done == 128 * Whole(done)
    ensures NonLast(done + size) == if size == 0 && done > 0 then Whole(done) - 1 else Whole(done) + NonLast(size)
  {
  }

  /** A full block is pending only at a block boundary. */
  lemma FullBlock(size: nat)
    ensures size == 128 * NonLast(size) + 128 ==> Whole(size) == NonLast(size) + 1
    ensures size < 128 * NonLast(size) + 128 ==> Whole(size) == NonLast(size)
  {
  }

  /** The state after the first n blocks, none of which is the last. */
  ghost function Fed(F: Compressor, h: Hash8, data: seq<byte>, n: nat): Hash8
    requires 128 * n <= |data|
  {
    if n == 0 then h
    else F(Fed(F, h, data, n - 1), WordsOf(LITTLE, data[128 * (n - 1)..128 * n]), Low(128 * n), High(128 * n), false)
  }

  ghost function Digest(F: Compressor, h: Hash8, data: seq<byte>): Hash8 {
    var n := NonLast(|data|);
    F(Fed(F, h, data, n), WordsOf(LITTLE, Padded(data[128 * n..])), Low(|data|), High(|data|), true)
  }

  // ---------------------------------------------------------------------
  // The same as a list of calls
  // ---------------------------------------------------------------------

  datatype Call = Call(block: seq<u64>, low: u64, high: u64, last: bool)

  /** Block i of the data, filled up with zeros, with the number of bytes up to its end. */
  function CallAt(data: seq<byte>, i: nat, last: bool): (c: Call)
    requires 128 * i <= |data|
  {
    var end := if 128 * i + 128 <= |data| then 128 * i + 128 else |data|;
    Call(WordsOf(LITTLE, Padded(data[128 * i..end])), Low(end), High(end), last)
  }

  /** One call for each started block, at least one, and only the last one flagged. */
  function Calls(data: seq<byte>, n: nat): (calls: seq<Call>)
    requires n <= NonLast(|data|) + 1
    ensures |calls| == n
  {
    if n == 0 then [] else Calls(data, n - 1) + [CallAt(data, n - 1, n == NonLast(|data|) + 1)]
  }

  ghost function Fold(F: Compressor, h: Hash8, calls: seq<Call>): Hash8 {
    if calls == [] then h
    else
      var c := calls[|calls| - 1];
      F(Fold(F, h, calls[..|calls| - 1]), c.block, c.low, c.high, c.last)
  }

  lemma FedCall(F: Compressor, h: Hash8, data: seq<byte>, n: nat)
    requires 128 * n + 128 <= |data|
    ensures Fed(F, h, data, 0) == h
    ensures var c := CallAt(data, n, false);
            Fed(F, h, data, n + 1) == F(Fed(F, h, data, n), c.block, c.low, c.high, false)
  {
    hide WordsOf, Low, High;
    PaddedBlock(data[128 * n..128 * n + 128]);
  }

  lemma FoldNext(F: Compressor, h: Hash8, calls: seq<Call>, c: Call)
    ensures Fold(F, h, []) == h
    ensures Fold(F, h, calls + [c]) == F(Fold(F, h, calls), c.block, c.low, c.high, c.last)
  {
    assert (calls + [c])[..|calls|] == calls;
  }

  lemma CallsNext(data: seq<byte>, n: nat)
    requires n <= NonLast(|data|)
    ensures Calls(data, 0) == [] && Calls(data, n + 1) == Calls(data, n) + [CallAt(data, n, n == NonLast(|data|))]
  {
    hide CallAt, NonLast;
  }

  lemma {:induction false} FedFolds(F: Compressor, h: Hash8, data: seq<byte>, n: nat)
    requires n <= NonLast(|data|)
    ensures Fed(F, h, data, n) == Fold(F, h, Calls(data, n))
  {
    hide *;
    if n == 0 {
      CallsNext(data, 0);
      FoldNext(F, h, [], Call([], 0, 0, false));
      FedStart(F, h, data);
    } else {
      FedFolds(F, h, data, n - 1);
      FedCall(F, h, data, n - 1);
      CallsNext(data, n - 1);
      LastFlag(data, n - 1, n - 1 == NonLast(|data|));
      FoldNext(F, h, Calls(data, n - 1), CallAt(data, n - 1, false));
    }
  }

  lemma FedStart(F: Compressor, h: Hash8, data: seq<byte>)
    ensures Fed(F, h, data, 0) == h
  {
  }

  lemma LastFlag(data: seq<byte>, i: nat, last: bool)
    requires 128 * i <= |data|
    ensures CallAt(data, i, last).last == last
  {
    hide WordsOf, Low, High;
  }

  lemma DigestFolds(F: Compressor, h: Hash8, data: seq<byte>)
    ensures Digest(F, h, data) == Fold(F, h, Calls(data, NonLast(|data|) + 1))
  {
    hide WordsOf, Low, High, NonLast;
    var n := NonLast(|data|);
    FedFolds(F, h, data, n);
    assert Calls(data, n + 1)[..n] == Calls(data, n);
    assert data[128 * n..] == data[128 * n..|data|];
  }

  /** Byte i of a digest. */
  function DigestByte(h: Hash8, i: nat): (b: byte)
    requires i < 64
  {
    Store64(h[i / 8])[i % 8]
  }

  lemma {:induction false} FedPrefix(F: Compressor, h: Hash8, data: seq<byte>, more: seq<byte>, n: nat)
    requires 128 * n <= |data|
    ensures Fed(F, h, data + more, n) == Fed(F, h, data, n)
  {
    if n == 0 {
    } else {
      FedPrefix(F, h, data, more, n - 1);
      assert (data + more)[128 * (n - 1)..128 * n] == data[128 * (n - 1)..128 * n];
    }
  }

  // ---------------------------------------------------------------------
  // crypto_blake2b_ctx
  // ---------------------------------------------------------------------

  class Blake2bCtx {
    const compress: Compressor
    const input: array<u64>
    var hash: Hash8
    var offset0: u64
    var offset1: u64
    var inputIdx: nat
    var hashSize: nat
    ghost var initial: Hash8
    ghost var seen: seq<byte>

    /** n blocks are compressed and the rest of what was seen, at most a whole block, is in the buffer. */
    ghost predicate Holds(n: nat)
      reads this, input
    {
      && input.Length == 16 && 128 * n <= |seen| && inputIdx == |seen| - 128 * n <= 128 && 1 <= hashSize <= 64
      && hash == Fed(compress, initial, seen, n) && offset0 == Low(128 * n) && offset1 == High(128 * n)
      && (inputIdx > 0 ==> input[..] == WordsOf(LITTLE, Padded(seen[128 * n..])))
    }

    ghost predicate Valid()
      reads this, input
    {
      Holds(NonLast(|seen|))
    }

    constructor (compress: Compressor)
      ensures this.compress == compress && input.Length == 16 && fresh(input)
    {
      this.compress := compress;
      input := new u64[16];
      hash := IV;
    }

    /** blake2b_incr */
    method Incr(ghost count: nat)
      requires offset0 == Low(count) && offset1 == High(count) && inputIdx <= 128
      modifies `offset0, `offset1
      ensures offset0 == Low(count + inputIdx) && offset1 == High(count + inputIdx)
    {
      AddCarry(count, inputIdx);
      hide Low, High;
      var y: u64 := inputIdx;
      offset0 := (offset0 as int + y) % TWO64;
      if offset0 < y {
        offset1 := (offset1 as int + 1) % TWO64;
      }
    }

    /** Compresses a full buffer that is not the last block. */
    method CompressFull(ghost n: nat)
      requires Holds(n) && inputIdx == 128
      modifies `hash, `offset0, `offset1, `inputIdx
      ensures Holds(n + 1)
    {
      hide Fed, Low, High, WordsOf, Padded;
      Incr(128 * n);
      FedNext(compress, initial, seen, n);
      hash := compress(hash, input[..], offset0, offset1, false);
      inputIdx := 0;
    }

    /** blake2b_end_block */
    method EndBlock()
      requires Valid()
      modifies `hash, `offset0, `offset1, `inputIdx
      ensures Holds(Whole(|seen|))
    {
      FullBlock(|seen|);
      Pending(NonLast(|seen|));
      hide *;
      if inputIdx == 128 {
        CompressFull(NonLast(|seen|));
      }
    }

    lemma Pending(n: nat)
      requires Holds(n)
      ensures |seen| == 128 * n + inputIdx && inputIdx <= 128
    {
    }

    /** blake2b_set_input: the first byte of a block clears the words. */
    method SetInput(b: byte, index: nat, ghost buf: seq<byte>)
      requires input.Length == 16 && index < 128 && |buf| == 128 && ZeroFrom(buf, index)
      requires index > 0 ==> input[..] == WordsOf(LITTLE, buf)
      modifies input
      ensures input[..] == WordsOf(LITTLE, buf[index := b])
    {
      hide WordsOf, Or, Pow2;
      if index == 0 {
        ClearInput(buf);
      }
      WordsTake(LITTLE, buf, index, b);
      var word := index / 8;
      ghost var was := input[..];
      input[word] := Or(input[word], b * Pow2(8 * (index % 8)));
      assert input[..] == was[word := input[word]];
    }

    method ClearInput(ghost buf: seq<byte>)
      requires input.Length == 16 && |buf| == 128 && ZeroFrom(buf, 0)
      modifies input
      ensures input[..] == WordsOf(LITTLE, buf)
    {
      WordsZero(LITTLE, buf);
      hide WordsOf;
      for i := 0 to 16
        invariant forall k :: 0 <= k < i ==> input[k] == 0
      {
        input[i] := 0;
      }
    }

    /** One more byte into the buffer. */
    method TakeByte(b: byte, ghost n: nat)
      requires Holds(n) && inputIdx < 128
      modifies `inputIdx, `seen, input
      ensures Holds(n) && seen == old(seen) + [b]
    {
      hide Fed, Low, High, WordsOf, Padded;
      ghost var pending := seen[128 * n..];
      PaddedNext(pending, b);
      FedPrefix(compress, initial, seen, [b], n);
      assert (seen + [b])[128 * n..] == pending + [b];
      SetInput(b, inputIdx, Padded(pending));
      inputIdx := inputIdx + 1;
      seen := seen + [b];
    }

    /** The body of the loop of blake2b_update. */
    method UpdateByte(b: byte)
      requires Valid()
      modifies `hash, `offset0, `offset1, `inputIdx, `seen, input
      ensures Valid() && seen == old(seen) + [b]
    {
      hide *;
      ghost var n := Whole(|seen|);
      EndBlock();
      Pending(n);
      NextByte(|seen|);
      TakeByte(b, n);
      Steady(n);
    }

    lemma Steady(n: nat)
      requires Holds(n) && n == NonLast(|seen|)
      ensures Valid()
    {
    }

    /** blake2b_update */
    method UpdateBytes(message: seq<byte>)
      requires Valid()
      modifies `hash, `offset0, `offset1, `inputIdx, `seen, input
      ensures Valid() && seen == old(seen) + message
    {
      hide *;
      for i := 0 to |message|
        invariant Valid() && seen == old(seen) + message[..i]
      {
        UpdateByte(message[i]);
      }
    }

    /** A whole block into the empty buffer. */
    method TakeBlock(block: seq<byte>, ghost n: nat)
      requires Holds(n) && |seen| == 128 * n && |block| == 128
      modifies `inputIdx, `seen, input
      ensures Holds(n) && seen == old(seen) + block
    {
      hide Fed, Low, High, WordsOf, Padded;
      PaddedBlock(block);
      FedPrefix(compress, initial, seen, block, n);
      assert (seen + block)[128 * n..] == block;
      LoadWords(LITTLE, input, block);
      inputIdx := 128;
      seen := seen + block;
    }

    /** One round of the block by block loop of crypto_blake2b_update. */
    method UpdateBlock(block: seq<byte>)
      requires Valid() && Aligned(|seen|) && |block| == 128
      modifies `hash, `offset0, `offset1, `inputIdx, `seen, input
      ensures Valid() && seen == old(seen) + block
    {
      hide *;
      ghost var n := Whole(|seen|);
      EndBlock();
      NextBlock(|seen|);
      TakeBlock(block, n);
      Steady(n);
    }

    method UpdateBlocks(message: seq<byte>) returns (consumed: nat)
      requires Valid() && (|message| >= 128 ==> Aligned(|seen|))
      modifies `hash, `offset0, `offset1, `inputIdx, `seen, input
      ensures Valid() && consumed <= |message| < consumed + 128 && seen == old(seen) + message[..consumed]
    {
      hide *;
      var nbBlocks := Whole(|message|);
      for i := 0 to nbBlocks
        invariant Valid() && seen == old(seen) + message[..128 * i]
      {
        NextChunk(message, i);
        StillAligned(|old(seen)|, i);
        UpdateBlock(message[128 * i..128 * i + 128]);
      }
      consumed := 128 * nbBlocks;
    }

    /** crypto_blake2b_update: align, then whole blocks, then the rest. */
    method Update(message: seq<byte>)
      requires Valid() && |message| < TWO64
      modifies `hash, `offset0, `offset1, `inputIdx, `seen, input
      ensures Valid() && seen == old(seen) + message
    {
      hide *;
      AlignedAfter();
      var align := if Align(inputIdx, 128) <= |message| then Align(inputIdx, 128) else |message|;
      ghost var start := seen;
      UpdateBytes(message[..align]);
      var rest := message[align..];
      var consumed := UpdateBlocks(rest);
      Rejoin(start, message, align, consumed);
      UpdateBytes(rest[consumed..]);
    }

    lemma AlignedAfter()
      requires Valid()
      ensures inputIdx <= 128 && Align(inputIdx, 128) <= 128 && Aligned(|seen| + Align(inputIdx, 128))
    {
      hide Fed, Low, High, WordsOf, Padded, Align, Aligned, NonLast;
      Alignment(inputIdx, NonLast(|seen|), |seen|);
    }

    /** crypto_blake2b_general_init: a key fills the first block. */
    method GeneralInit(hashSize: nat, key: seq<byte>)
      requires input.Length == 16 && 1 <= hashSize <= 64 && |key| <= 64
      modifies this, input
      ensures Valid() && seen == KeyedData(key, []) && initial == InitialHash(hashSize, |key|)
      ensures this.hashSize == hashSize
    {
      hide InitialHash, WordsOf, Low, High, Fed, Padded;
      hash := InitialHash(hashSize, |key|);
      offset0, offset1, this.hashSize, inputIdx := 0, 0, hashSize, 0;
      initial, seen := hash, [];
      NoBlocks(compress, initial);
      if |key| > 0 {
        Update(key);
        Update(Zeros(128 - |key|));
        PaddedKey(key);
      }
    }

    /** Zeros after what is left in the buffer. */
    method PadBlock(ghost n: nat)
      requires Holds(n)
      modifies input
      ensures input[..] == WordsOf(LITTLE, Padded(seen[128 * n..]))
    {
      hide WordsOf, Fed, Low, High;
      ghost var buf := Padded(seen[128 * n..]);
      assert ZeroFrom(buf, inputIdx);
      for i := inputIdx to 128
        invariant i > 0 ==> input[..] == WordsOf(LITTLE, buf)
      {
        SetInput(0, i, buf);
        assert buf[i := 0] == buf;
      }
    }

    /** The compression of the last block. */
    method CompressLast()
      requires Valid()
      modifies `hash, `offset0, `offset1, input
      ensures hash == Digest(compress, initial, seen)
    {
      ghost var n := NonLast(|seen|);
      hide WordsOf, Fed, Low, High, Padded, NonLast;
      PadBlock(n);
      Incr(128 * n);
      hash := compress(hash, input[..], offset0, offset1, true);
    }

    /** The whole words of the digest. */
    method WriteWords(out: array<byte>, nbWords: nat)
      requires nbWords <= 8 && out.Length >= 8 * nbWords
      modifies out
      ensures forall k :: 0 <= k < 8 * nbWords ==> out[k] == DigestByte(hash, k)
      ensures forall k :: 8 * nbWords <= k < out.Length ==> out[k] == old(out[k])
    {
      hide Store64, DigestByte;
      for i := 0 to nbWords
        invariant forall k :: 0 <= k < 8 * i ==> out[k] == DigestByte(hash, k)
        invariant forall k :: 8 * i <= k < out.Length ==> out[k] == old(out[k])
      {
        StoreWord64(out, 8 * i, hash[i]);
        DigestWord(hash, i);
      }
    }

    method WriteByte(out: array<byte>, i: nat)
      requires i < 64 && i < out.Length
      modifies out
      ensures out[..] == old(out[..])[i := DigestByte(hash, i)]
    {
      hide *;
      LastByte(hash, i);
      out[i] := And(HighBytes(hash[i / 8], i % 8), 0xff);
    }

    /** The digest, word by word, and the last bytes one by one. */
    method WriteHash(out: array<byte>)
      requires 1 <= hashSize <= 64 && out.Length >= hashSize
      modifies out
      ensures forall i :: 0 <= i < hashSize ==> out[i] == DigestByte(hash, i)
      ensures forall i :: hashSize <= i < out.Length ==> out[i] == old(out[i])
    {
      var nbWords := hashSize / 8;
      hide Store64, DigestByte, HighBytes, And;
      WriteWords(out, nbWords);
      for i := 8 * nbWords to hashSize
        invariant forall k :: 0 <= k < i ==> out[k] == DigestByte(hash, k)
        invariant forall k :: i <= k < out.Length ==> out[k] == old(out[k])
      {
        WriteByte(out, i);
      }
    }

    /** WIPE_CTX */
    method Wipe()
      requires input.Length == 16
      modifies `hash, `offset0, `offset1, `inputIdx, `hashSize, input
      ensures offset0 == offset1 == inputIdx == hashSize == 0 && forall k :: 0 <= k < 16 ==> input[k] == 0
    {
      for i := 0 to 16
        invariant forall k :: 0 <= k < i ==> input[k] == 0
      {
        input[i] := 0;
      }
      hash := [0, 0, 0, 0, 0, 0, 0, 0];
      offset0, offset1, inputIdx, hashSize := 0, 0, 0, 0;
    }

    lemma Sizes()
      requires Valid()
      ensures 1 <= hashSize <= 64 && input.Length == 16
    {
    }

    /** crypto_blake2b_final */
    method Final(out: array<byte>)
      requires Valid() && out.Length >= hashSize
      modifies this, input, out
      ensures forall i :: 0 <= i < old(hashSize) ==> out[i] == DigestByte(Digest(compress, old(initial), old(seen)), i)
      ensures out[old(hashSize)..] == old(out[hashSize..])
    {
      hide *;
      Sizes();
      CompressLast();
      WriteHash(out);
      Wipe();
    }
  }

  lemma NoBlocks(F: Compressor, h: Hash8)
    ensures Fed(F, h, [], 0) == h && Low(0) == 0 && High(0) == 0
  {
  }

  lemma PaddedKey(key: seq<byte>)
    requires 0 < |key| <= 64
    ensures [] + key + Zeros(128 - |key|) == KeyedData(key, [])
  {
  }

  lemma DigestWord(h: Hash8, i: nat)
    requires i < 8
    ensures forall k :: 8 * i <= k < 8 * i + 8 ==> DigestByte(h, k) == Store64(h[i])[k - 8 * i]
  {
    hide Store64;
  }

  lemma LastByte(h: Hash8, i: nat)
    requires i < 64
    ensures And(HighBytes(h[i / 8], i % 8), 0xff) == DigestByte(h, i)
  {
    Store64At(h[i / 8], i % 8);
    MaskByte(HighBytes(h[i / 8], i % 8));
    hide And, Store64, HighBytes;
  }

  lemma FedNext(F: Compressor, h: Hash8, data: seq<byte>, n: nat)
    requires 128 * n + 128 == |data|
    ensures Fed(F, h, data, n + 1)
         == F(Fed(F, h, data, n), WordsOf(LITTLE, Padded(data[128 * n..])), Low(128 * n + 128), High(128 * n + 128), false)
  {
    hide WordsOf, Low, High;
    assert data[128 * n..] == data[128 * n..128 * (n + 1)] == Padded(data[128 * n..]);
  }

  /** However the message is split, every call of the compression function is that of RFC 7693. */
  method HashChunks(F: Compressor, out: array<byte>, hashSize: nat, key: seq<byte>, chunks: seq<seq<byte>>)
    requires out.Length >= hashSize && 1 <= hashSize <= 64 && |key| <= 64
    requires forall i :: 0 <= i < |chunks| ==> |chunks[i]| < TWO64
    modifies out
    ensures var data := KeyedData(key, Concat(chunks));
            var digest := Fold(F, InitialHash(hashSize, |key|), Calls(data, NonLast(|data|) + 1));
            forall i :: 0 <= i < hashSize ==> out[i] == DigestByte(digest, i)
    ensures out[hashSize..] == old(out[hashSize..])
  {
    hide *;
    var ctx := new Blake2bCtx(F);
    ctx.GeneralInit(hashSize, key);
    EmptyConcat(chunks);
    for i := 0 to |chunks|
      invariant ctx.Valid() && ctx.hashSize == hashSize && ctx.initial == InitialHash(hashSize, |key|)
      invariant ctx.seen == KeyedData(key, Concat(chunks[..i])) && out[..] == old(out[..])
      invariant fresh(ctx) && fresh(ctx.input) && ctx.compress == F
    {
      ConcatNext(chunks, i);
      KeyedMore(key, Concat(chunks[..i]), chunks[i]);
      ctx.Update(chunks[i]);
    }
    AllConcat(chunks);
    DigestFolds(F, ctx.initial, ctx.seen);
    ctx.Final(out);
  }

  lemma KeyedMore(key: seq<byte>, message: seq<byte>, more: seq<byte>)
    requires |key| <= 64
    ensures KeyedData(key, message) + more == KeyedData(key, message + more)
  {
  }
}
