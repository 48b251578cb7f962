/** Keyed hashing in Raaz. Whether the key block is the last block is not known until the first bytes of
    the message arrive, so it waits in a buffer of its own. */
module Mac {
  import opened Words
  import opened Bits
  import opened Blocks
  import opened Chunks
  import opened Blake2bStream
  import opened HashStates
  import opened Transfer
  import opened Blake2bRaaz

  /** trim */
  function Trim(hKey: seq<byte>): (key: seq<byte>)
    ensures |key| == KeyLength(|hKey|) && key <= hKey
  {
    if |hKey| > 64 then hKey[..64] else hKey
  }

  lemma TrimFits(len: nat)
    ensures KeyLength(len) <= 64 && KeyLength(KeyLength(len)) == KeyLength(len)
  {
  }

  /** What initialisation leaves in a key buffer: nothing is written for an empty key. */
  function KeyBlock(key: seq<byte>, was: seq<byte>): (block: seq<byte>)
    requires |key| <= 64 && |was| == 128
    ensures |block| == 128
  {
    if key == [] then was else Padded(key)
  }

  lemma KeyWritten(key: seq<byte>, was: seq<byte>)
    requires |key| <= 64 && |was| == 128
    ensures var w := PadWrite(0, 128, Write(key));
            |w| <= 128 && Transferred(w, was) == KeyBlock(key, was)
  {
    GlueAligned(0, 128, Write(key), []);
    var w := PadWrite(0, 128, Write(key));
    DivModUnique(|w|, 128, if key == [] then 0 else 1, 0);
  }

  /** A compressor that returns the byte count. */
  function Counter(h: Hash8, block: seq<u64>, low: u64, high: u64, last: bool): (r: Hash8) {
    h[0 := low]
  }

  /** Hashing the key buffer and then the message is keyed hashing, for every compressor, exactly when
      there is a key: without one, the hash should not have a key block at all. */
  lemma KeyedExactly(key: seq<byte>, was: seq<byte>, message: seq<byte>)
    requires |key| <= 64 && |was| == 128
    ensures (forall F: Compressor :: Digest(F, InitialHash(64, |key|), KeyBlock(key, was) + message)
                                  == Digest(F, InitialHash(64, |key|), KeyedData(key, message)))
            <==> key != []
  {
    hide *;
    KeyDataIs(key, was, message);
    if key == [] {
      StaleBlock(was, message);
      assert Digest(Counter, InitialHash(64, |key|), KeyBlock(key, was) + message)
          != Digest(Counter, InitialHash(64, |key|), KeyedData(key, message));
    }
  }

  lemma KeyDataIs(key: seq<byte>, was: seq<byte>, message: seq<byte>)
    requires |key| <= 64 && |was| == 128
    ensures KeyedData(key, message) == if key == [] then message else KeyBlock(key, was) + message
    ensures key == [] ==> KeyBlock(key, was) == was
  {
  }

  lemma StaleBlock(was: seq<byte>, message: seq<byte>)
    requires |was| == 128
    ensures Digest(Counter, InitialHash(64, 0), was + message) != Digest(Counter, InitialHash(64, 0), message)
  {
    hide *;
    OtherCount(|message|);
    CounterDigest(InitialHash(64, 0), was + message);
    CounterDigest(InitialHash(64, 0), message);
  }

  lemma CounterDigest(h: Hash8, data: seq<byte>)
    ensures Digest(Counter, h, data)[0] == Low(|data|)
  {
    hide WordsOf, Low, High, Padded, NonLast, Fed;
  }

  lemma OtherCount(m: nat)
    ensures Low(128 + m) != Low(m)
  {
    ModAdd(m, 128, TWO64);
  }

  ghost predicate WholeBlocks(chunks: seq<seq<byte>>) {
    forall i :: 0 <= i < |chunks| ==> Aligned(|chunks[i]|)
  }

  /** A buffer with some bytes and room for the padding. */
  method BufferOf(s: seq<byte>) returns (buf: array<byte>)
    ensures fresh(buf) && |s| <= buf.Length && buf[..|s|] == s && |Blake2Pad(|s|)| <= buf.Length
  {
    Blake2PadIs(|s|);
    hide Blake2Pad;
    var padded := s + Zeros(128);
    buf := new byte[|padded|](i requires 0 <= i < |padded| => padded[i]);
    assert buf[..|s|] == s;
  }

  lemma ChunkBlocks(chunks: seq<seq<byte>>, i: nat)
    requires WholeBlocks(chunks) && i < |chunks|
    ensures |chunks[i]| == 128 * Whole(|chunks[i]|)
  {
  }

  // ---------------------------------------------------------------------
  // The internals as values
  // ---------------------------------------------------------------------

  /** Whether the key block still waits in its buffer. */
  datatype MacState = AtStart | Started(s: HashState)

  /** What initialisation decides: the initial value, and what is in the key buffer. */
  datatype KeyState = KeyState(initial: Hash8, block: seq<byte>) {
    ghost predicate Valid() {
      |block| == 128
    }
  }

  /** The internals once the key block is processed. */
  function Keyed(F: Compressor, k: KeyState, s: MacState): (t: HashState) {
    match s
    case AtStart => Blake2bBlocks(F, HashState(k.initial, 0), k.block)
    case Started(t) => t
  }

  function MacBlocks(F: Compressor, k: KeyState, s: MacState, data: seq<byte>): (t: MacState) {
    Started(Blake2bBlocks(F, Keyed(F, k, s), data))
  }

  function MacLast(F: Compressor, k: KeyState, s: MacState, data: seq<byte>): (h: Hash8) {
    if s.AtStart? && data == []
    then Blake2bLast(F, HashState(k.initial, 0), k.block)
    else Blake2bLast(F, Keyed(F, k, s), data)
  }

  /** The state after the message so far, which is empty until the first call. */
  ghost predicate After(F: Compressor, k: KeyState, message: seq<byte>, s: MacState, started: bool) {
    var done := k.block + message;
    && k.Valid()
    && if started
       then Aligned(|done|) && s == Started(HashState(Fed(F, k.initial, done, Whole(|done|)), |done|))
       else s == AtStart && message == []
  }

  lemma StartedIs(F: Compressor, k: KeyState, t: HashState)
    ensures Keyed(F, k, Started(t)) == t
  {
  }

  /** From the start, the result is the hash of the key block and the input, however little there is. */
  lemma MacWhole(F: Compressor, k: KeyState, data: seq<byte>)
    requires k.Valid()
    ensures MacLast(F, k, AtStart, data) == Digest(F, k.initial, k.block + data)
  {
    hide Blake2bBlocks, Blake2bLast, Digest;
    assert k.block + [] == k.block;
    Blake2bWhole(F, k.initial, k.block + data);
    if data != [] {
      Blake2bLastAppend(F, HashState(k.initial, 0), k.block, data);
    }
  }

  ghost function RunHash(F: Compressor, k: KeyState, message: seq<byte>, started: bool, last: seq<byte>): Hash8
    requires Aligned(|k.block + message|)
  {
    if started && last == [] then Ending(F, k.initial, k.block + message, [])
    else Digest(F, k.initial, k.block + message + last)
  }

  /** The result of the last call after any calls for whole blocks: the hash of key block and message, and
      with a block too many if there were such calls and no data is left. */
  lemma MacEnds(F: Compressor, k: KeyState, message: seq<byte>, s: MacState, started: bool, last: seq<byte>)
    requires After(F, k, message, s, started)
    ensures Aligned(|k.block + message|) && MacLast(F, k, s, last) == RunHash(F, k, message, started, last)
  {
    hide Fed, Digest, Ending, Blake2bLast, Blake2bBlocks, Aligned, Whole;
    BlockBounds(0);
    if !started {
      MacWhole(F, k, last);
      assert k.block + message + last == k.block + last && k.block + message == k.block;
    } else {
      LastIsEnding(F, k.initial, k.block + message, last);
      if last != [] {
        SameEnding(F, k.initial, k.block + message, last);
      }
    }
  }

  class MacInternals {
    const hashInternals: Blake2bMem
    const keyBuffer: array<byte>
    var atStart: bool
    ghost var key: seq<byte>
    ghost var block: seq<byte>    // what is hashed as the key block
    ghost var message: seq<byte>

    ghost predicate Owned()
      reads this
    {
      keyBuffer.Length == 128
    }

    /** Either nothing was processed, or the key block and the message so far. */
    ghost predicate Valid()
      reads this, hashInternals, keyBuffer
    {
      && Owned() && hashInternals.Valid() && |key| <= 64 && |block| == 128
      && hashInternals.initial == InitialHash(64, |key|)
      && (if atStart then keyBuffer[..] == block && message == [] && hashInternals.done == []
          else hashInternals.done == block + message)
    }

    /** The memory is used as it is found. */
    constructor (compress: Compressor, memory: seq<byte>)
      requires |memory| == 128
      ensures hashInternals.compress == compress && Owned() && fresh(hashInternals) && fresh(keyBuffer)
      ensures keyBuffer[..] == memory
    {
      hashInternals := new Blake2bMem(compress, IV);
      keyBuffer := new byte[128](i requires 0 <= i < 128 => memory[i]);
      atStart := false;
    }

    /** initialise */
    method Initialise(hKey: seq<byte>)
      requires Owned()
      modifies `atStart, `key, `block, `message, hashInternals, keyBuffer
      ensures Valid() && atStart && message == [] && key == Trim(hKey) && |key| <= 64
      ensures block == KeyBlock(key, old(keyBuffer[..]))
    {
      assert keyBuffer.Length == 128;
      hide *;
      var kbs := Trim(hKey);
      TrimFits(|hKey|);
      KeyWritten(kbs, keyBuffer[..]);
      hashInternals.Initialise(|kbs|);
      UnsafeTransfer(PadWrite(0, 128, Write(kbs)), keyBuffer);
      atStart := true;
      key, block, message := kbs, keyBuffer[..], [];
      Ready();
    }

    lemma Ready()
      requires keyBuffer.Length == 128 && hashInternals.Valid() && |key| <= 64
      requires hashInternals.initial == InitialHash(64, |key|) && hashInternals.done == []
      requires atStart && keyBuffer[..] == block && message == []
      ensures Valid()
    {
    }

    lemma InitialKey()
      requires Valid()
      ensures Key() == KeyState(InitialHash(64, |key|), block)
    {
    }

    /** What the calls see. */
    ghost function State(): (s: MacState)
      reads `atStart, hashInternals`hash, hashInternals`done
    {
      if atStart then AtStart else Started(hashInternals.State())
    }

    ghost function Key(): (k: KeyState)
      reads `block, hashInternals`initial
    {
      KeyState(hashInternals.initial, block)
    }

    /** processKey; the flag is left to the caller. */
    method ProcessKey()
      requires Valid() && atStart
      modifies hashInternals`hash, hashInternals`uLength, hashInternals`lLength, hashInternals`done
      ensures hashInternals.Valid() && hashInternals.done == block + message
      ensures hashInternals.State() == Keyed(hashInternals.compress, Key(), AtStart)
    {
      hide InitialHash, hashInternals.Valid, Blake2bBlocks, hashInternals.State;
      hashInternals.Fresh();
      assert keyBuffer[..128 * 1] == block;
      hashInternals.ProcessBlocks(keyBuffer, 1);
    }

    /** processBlocks */
    method ProcessBlocks(buf: array<byte>, blks: nat)
      requires Valid() && 128 * blks <= buf.Length
      modifies `atStart, `message, hashInternals`hash, hashInternals`uLength, hashInternals`lLength, hashInternals`done
      ensures Valid() && !atStart && message == old(message) + buf[..128 * blks]
      ensures State() == MacBlocks(hashInternals.compress, Key(), old(State()), buf[..128 * blks])
    {
      hide InitialHash, hashInternals.Valid, Blake2bBlocks, hashInternals.State;
      if atStart {
        ProcessKey();
        atStart := false;
      }
      hashInternals.ProcessBlocks(buf, blks);
      message := message + buf[..128 * blks];
    }

    /** Several calls of processBlocks. */
    method ProcessChunks(chunks: seq<seq<byte>>)
      requires Valid() && atStart && message == [] && WholeBlocks(chunks)
      modifies `atStart, `message, hashInternals`hash, hashInternals`uLength, hashInternals`lLength, hashInternals`done
      ensures Valid() && message == Concat(chunks) && (atStart <==> chunks == [])
    {
      hide *;
      EmptyConcat(chunks);
      AllConcat(chunks);
      for i := 0 to |chunks|
        invariant Valid() && message == Concat(chunks[..i]) && (atStart <==> i == 0)
      {
        ConcatNext(chunks, i);
        ChunkBlocks(chunks, i);
        var buf := BufferOf(chunks[i]);
        ProcessBlocks(buf, Whole(|chunks[i]|));
      }
    }

    /** processKeyLast: the key block is the last block. */
    method ProcessKeyLast()
      requires Valid() && atStart
      modifies hashInternals`hash, hashInternals`uLength, hashInternals`lLength, hashInternals`done, keyBuffer
      ensures hashInternals.hash == MacLast(hashInternals.compress, Key(), AtStart, [])
    {
      FullPad();
      hide InitialHash, Blake2Pad, hashInternals.Valid, hashInternals.State, Ending, Blake2bLast;
      hashInternals.Fresh();
      hashInternals.ProcessLast(keyBuffer, 128);
      assert keyBuffer.Length == 128;
      assert old(keyBuffer[..128]) == block;
    }

    /** processLast: without any data, the key block is the last block only at the start. */
    method ProcessLast(buf: array<byte>, sz: nat)
      requires Valid() && buf != keyBuffer && sz <= buf.Length && |Blake2Pad(sz)| <= buf.Length
      modifies hashInternals`hash, hashInternals`uLength, hashInternals`lLength, hashInternals`done, buf, keyBuffer
      ensures hashInternals.hash == MacLast(hashInternals.compress, Key(), old(State()), old(buf[..sz]))
    {
      hide *;
      Phase(buf[..sz]);
      if atStart && sz == 0 {
        ProcessKeyLast();
      } else {
        if atStart { ProcessKey(); } else { Begun(); }
        hashInternals.ProcessLast(buf, sz);
      }
    }

    /** What the last call of MacLast is about, unfolded. */
    lemma Phase(data: seq<byte>)
      ensures State() == (if atStart then AtStart else Started(hashInternals.State()))
      ensures atStart && data == [] ==> State() == AtStart
      ensures !(atStart && data == []) ==>
        MacLast(hashInternals.compress, Key(), State(), data)
        == Blake2bLast(hashInternals.compress, Keyed(hashInternals.compress, Key(), State()), data)
      ensures !atStart ==> Keyed(hashInternals.compress, Key(), State()) == hashInternals.State()
    {
    }

    /** Where the calls so far have brought it. */
    lemma Reached()
      requires Valid()
      ensures Key() == KeyState(InitialHash(64, |key|), block) && |key| <= 64
      ensures After(hashInternals.compress, Key(), message, State(), !atStart)
    {
      if !atStart {
        hashInternals.Start();
      }
    }

    /** A run of calls, after initialisation. */
    method ProcessRun(chunks: seq<seq<byte>>, last: seq<byte>) returns (h: Hash8)
      requires Valid() && atStart && message == [] && WholeBlocks(chunks)
      modifies `atStart, `message, keyBuffer
      modifies hashInternals`hash, hashInternals`uLength, hashInternals`lLength, hashInternals`done
      ensures Aligned(|Key().block + Concat(chunks)|)
      ensures h == RunHash(hashInternals.compress, Key(), Concat(chunks), chunks != [], last)
    {
      hide *;
      ProcessChunks(chunks);
      Reached();
      MacEnds(hashInternals.compress, Key(), message, State(), !atStart, last);
      var buf := BufferOf(last);
      ProcessLast(buf, |last|);
      h := hashInternals.hash;
    }

    lemma Begun()
      requires Valid() && !atStart
      ensures hashInternals.Valid() && hashInternals.done == block + message
    {
    }
  }

  lemma FullPad()
    ensures |Blake2Pad(128)| == 128
  {
    Blake2PadIs(128);
  }

  /** What initialisation makes of a key: without one, whatever the buffer held is the key block. */
  ghost predicate KeyStateOf(k: KeyState, hKey: seq<byte>) {
    var key := Trim(hKey);
    && |key| <= 64 && k.initial == InitialHash(64, |key|) && |k.block| == 128
    && (key != [] ==> k.block == Padded(key))
  }

  function KeyStateFrom(hKey: seq<byte>, memory: seq<byte>): (k: KeyState)
    requires |memory| == 128
    ensures KeyStateOf(k, hKey)
  {
    hide InitialHash, Padded;
    KeyState(InitialHash(64, |Trim(hKey)|), KeyBlock(Trim(hKey), memory))
  }

  /** Any run: a key, any number of calls of processBlocks, and processLast. */
  method KeyedHash(compress: Compressor, memory: seq<byte>, hKey: seq<byte>, chunks: seq<seq<byte>>, last: seq<byte>)
    returns (h: Hash8)
    requires WholeBlocks(chunks) && |memory| == 128
    ensures var k := KeyStateFrom(hKey, memory);
            && Aligned(|k.block + Concat(chunks)|)
            && h == RunHash(compress, k, Concat(chunks), chunks != [], last)
  {
    var mac := new MacInternals(compress, memory);
    hide *;
    mac.Initialise(hKey);
    mac.InitialKey();
    KeyStateIs(hKey, memory);
    h := mac.ProcessRun(chunks, last);
  }

  lemma KeyStateIs(hKey: seq<byte>, memory: seq<byte>)
    requires |memory| == 128
    ensures |Trim(hKey)| <= 64
    ensures KeyStateFrom(hKey, memory) == KeyState(InitialHash(64, |Trim(hKey)|), KeyBlock(Trim(hKey), memory))
  {
    hide InitialHash, Padded;
  }

  lemma Trimmed(hKey: seq<byte>)
    ensures |Trim(hKey)| <= 64 && (hKey != [] ==> Trim(hKey) != [])
  {
  }

  /** With a key, the key block and the message are the data of section 3.3 of RFC 7693. */
  lemma KeyFirst(hKey: seq<byte>, k: KeyState, message: seq<byte>)
    requires KeyStateOf(k, hKey) && hKey != []
    ensures |Trim(hKey)| <= 64 && k.initial == InitialHash(64, |Trim(hKey)|)
    ensures k.block + message == KeyedData(Trim(hKey), message)
  {
    Trimmed(hKey);
    hide Padded, Trim, InitialHash;
  }

  lemma RunDigest(F: Compressor, k: KeyState, message: seq<byte>, started: bool, last: seq<byte>)
    requires Aligned(|k.block + message|) && (!started || last != [])
    ensures RunHash(F, k, message, started, last) == Digest(F, k.initial, k.block + message + last)
  {
    hide Digest, Ending;
  }

  /** So a run is keyed hashing unless the last bytes are missing after some blocks. */
  lemma KeyedRun(F: Compressor, hKey: seq<byte>, k: KeyState, message: seq<byte>, started: bool, last: seq<byte>)
    requires KeyStateOf(k, hKey) && Aligned(|k.block + message|) && hKey != [] && (!started || last != [])
    ensures |Trim(hKey)| <= 64
    ensures RunHash(F, k, message, started, last)
         == Digest(F, InitialHash(64, |Trim(hKey)|), KeyedData(Trim(hKey), message + last))
  {
    hide *;
    KeyFirst(hKey, k, message + last);
    RunDigest(F, k, message, started, last);
    assert k.block + message + last == k.block + (message + last);
  }
}
