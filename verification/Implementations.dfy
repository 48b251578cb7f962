/** What Raaz's contexts need to know of an implementation, for SHA-512, BLAKE2b and keyed BLAKE2b: the
    result does not depend on how the input is cut into buffers. */
module Implementations {
  import opened Words
  import opened Blocks
  import opened ByteSource
  import opened Context
  import opened HashStates
  import opened Mac
  import Sha512Stream
  import Blake2bStream

  // ---------------------------------------------------------------------
  // SHA-512
  // ---------------------------------------------------------------------

  function Sha512(F: Sha512Stream.Compressor): (impl: Implementation<HashState, Hash8>) {
    Implementation(128, (s: HashState, data: seq<byte>) => Sha512Blocks(F, s, data),
                   (s: HashState, data: seq<byte>) => Sha512Last(F, s, data))
  }

  lemma Sha512Streams(F: Sha512Stream.Compressor)
    ensures Sha512(F).Streaming()
  {
    hide Sha512Blocks, Sha512Last;
    forall s: HashState, a: seq<byte>, b: seq<byte> | Aligned(|a|)
      ensures Sha512Blocks(F, s, a + b) == Sha512Blocks(F, Sha512Blocks(F, s, a), b)
      ensures Sha512Last(F, s, a + b) == Sha512Last(F, Sha512Blocks(F, s, a), b)
    {
      Sha512Append(F, s, a, b);
      Sha512LastAppend(F, s, a, b);
    }
  }

  /** Hashing any sources through a context of n blocks. */
  method HashSources(F: Sha512Stream.Compressor, srcs: seq<Source>, n: nat) returns (h: Hash8)
    requires n >= 1
    ensures h == Sha512Stream.Digest(F, IV, Contents(srcs))
  {
    hide Sha512Stream.Digest, Sha512Last, Sha512Blocks, Contents;
    Sha512Streams(F);
    Sha512Whole(F, IV, Contents(srcs));
    h := UpdateAll(Sha512(F), HashState(IV, 0), srcs, n);
  }

  // ---------------------------------------------------------------------
  // BLAKE2b
  // ---------------------------------------------------------------------

  function Blake2b(F: Blake2bStream.Compressor): (impl: Implementation<HashState, Hash8>) {
    Implementation(128, (s: HashState, data: seq<byte>) => Blake2bBlocks(F, s, data),
                   (s: HashState, data: seq<byte>) => Blake2bLast(F, s, data))
  }

  lemma Blake2bStreams(F: Blake2bStream.Compressor)
    ensures Blake2b(F).Streaming()
  {
    hide Blake2bBlocks, Blake2bLast;
    forall s: HashState, a: seq<byte>, b: seq<byte> | Aligned(|a|)
      ensures Blake2bBlocks(F, s, a + b) == Blake2bBlocks(F, Blake2bBlocks(F, s, a), b)
      ensures b != [] ==> Blake2bLast(F, s, a + b) == Blake2bLast(F, Blake2bBlocks(F, s, a), b)
    {
      Blake2bAppend(F, s, a, b);
      if b != [] { Blake2bLastAppend(F, s, a, b); }
    }
  }


  // ---------------------------------------------------------------------
  // Keyed BLAKE2b
  // ---------------------------------------------------------------------

  function KeyedBlake2b(F: Blake2bStream.Compressor, k: KeyState): (impl: Implementation<MacState, Hash8>) {
    Implementation(128, (s: MacState, data: seq<byte>) => MacBlocks(F, k, s, data),
                   (s: MacState, data: seq<byte>) => MacLast(F, k, s, data))
  }

  lemma KeyedStreams(F: Blake2bStream.Compressor, k: KeyState)
    ensures KeyedBlake2b(F, k).Streaming()
  {
    hide Blake2bBlocks, Blake2bLast, Keyed;
    forall s: MacState, a: seq<byte>, b: seq<byte> | Aligned(|a|)
      ensures MacBlocks(F, k, s, a + b) == MacBlocks(F, k, MacBlocks(F, k, s, a), b)
      ensures b != [] ==> MacLast(F, k, s, a + b) == MacLast(F, k, MacBlocks(F, k, s, a), b)
    {
      StartedIs(F, k, Blake2bBlocks(F, Keyed(F, k, s), a));
      Blake2bAppend(F, Keyed(F, k, s), a, b);
      if b != [] { Blake2bLastAppend(F, Keyed(F, k, s), a, b); }
    }
  }

  /** Keyed hashing of any sources through a context of n blocks: the key block and then the input. With a
      key, that is keyed hashing of section 3.3 of RFC 7693. */
  method KeyedHashSources(F: Blake2bStream.Compressor, hKey: seq<byte>, k: KeyState, srcs: seq<Source>, n: nat)
    returns (h: Hash8)
    requires n >= 1 && KeyStateOf(k, hKey)
    ensures |Trim(hKey)| <= 64
    ensures h == Blake2bStream.Digest(F, k.initial, k.block + Contents(srcs))
    ensures hKey != [] ==>
      h == Blake2bStream.Digest(F, Blake2bStream.InitialHash(64, |Trim(hKey)|),
                                Blake2bStream.KeyedData(Trim(hKey), Contents(srcs)))
  {
    Trimmed(hKey);
    assert k.Valid();
    hide *;
    KeyedStreams(F, k);
    MacWhole(F, k, Contents(srcs));
    h := UpdateAll(KeyedBlake2b(F, k), AtStart, srcs, n);
    LastCall(F, k, Contents(srcs));
    if hKey != [] { KeyFirst(hKey, k, Contents(srcs)); }
  }

  lemma LastCall(F: Blake2bStream.Compressor, k: KeyState, data: seq<byte>)
    ensures KeyedBlake2b(F, k).processLast(AtStart, data) == MacLast(F, k, AtStart, data)
  {
    hide MacLast;
  }
}
