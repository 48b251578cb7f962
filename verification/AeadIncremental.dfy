/** The incremental form of XChaCha20-Poly1305: a key stream pool, a phase flag and a Poly1305 context. */
module AeadIncremental {
  import opened Words
  import opened Bits
  import opened Chunks
  import opened ChaCha20
  import opened Poly1305
  import opened Poly1305Stream
  import opened Aead

  class LockCtx {
    const poly: Ctx
    const pool: array<byte>
    var adSize: u64
    var messageSize: u64
    var adPhase: bool
    var key: seq<byte>    // the sub-key
    var nonce: seq<byte>  // the last eight bytes
    var ctr: u64
    var poolIdx: nat
    ghost var ad: seq<byte>      // additional data so far
    ghost var text: seq<byte>    // cipher text authenticated so far
    ghost var authed: seq<byte>  // everything authenticated so far, in its order
    ghost var late: bool         // whether there was additional data after the padding
    ghost var used: nat          // key stream bytes used so far
    ghost var blocks: nat        // key stream blocks generated so far
    ghost var authKey: seq<byte>

    ghost predicate Shape() {
      pool.Length == 64 && poly.Shape()
    }

    /** The pool holds what is left of the last block that was generated. */
    ghost predicate PoolValid()
      reads `key, `nonce, `ctr, `poolIdx, `used, `blocks, pool
    {
      && pool.Length == 64 && |key| == 32 && |nonce| == 8
      && poolIdx <= 64 && 64 * blocks == used + 64 - poolIdx && ctr == Counter(0, blocks)
      && (poolIdx < 64 ==> pool[..] == KeyBlock(CounterState(key, nonce, Counter(0, blocks - 1))))
    }

    /** What has been authenticated. */
    ghost predicate AuthValid()
      reads `adSize, `messageSize, `adPhase, `ad, `text, `authed, `late, `authKey
      reads poly, poly.r, poly.h, poly.c, poly.pad
    {
      && poly.Valid() && |authKey| == 32 && poly.key == authKey && poly.seen == authed
      && adSize == |ad| && messageSize == |text|
      && (adPhase ==> text == [] && authed == ad && !late)
      && (!adPhase && !late ==> authed == ad + Padding(|ad|) + text)
    }

    /** What the tag will be computed over if nothing else comes. */
    ghost function Authenticated(): (s: seq<byte>)
      requires |ad| < TWO64 && |text| < TWO64
      reads `adPhase, `ad, `text, `authed
    {
      (if adPhase then authed + Padding(|ad|) else authed) + Padding(|text|) + (Store64(|ad|) + Store64(|text|))
    }

    /** That is what section 2.8 of RFC 8439 asks for, unless additional data came late. */
    lemma InOrder()
      requires AuthValid() && !late
      ensures |ad| < TWO64 && |text| < TWO64 && Authenticated() == AuthData(ad, text)
    {
      hide Padding, Store64, Ctx.Valid;
      AuthDataSeen(ad, text);
      if adPhase {
        assert authed + Padding(|ad|) == ad + Padding(|ad|) + text;
      }
    }

    ghost predicate Valid()
      reads this, pool, poly, poly.r, poly.h, poly.c, poly.pad
    {
      Shape() && PoolValid() && AuthValid()
    }

    constructor ()
      ensures Shape() && fresh(pool) && fresh(poly)
      ensures fresh(poly.r) && fresh(poly.h) && fresh(poly.c) && fresh(poly.pad)
    {
      poly := new Ctx();
      pool := new byte[64];
    }

    // -------------------------------------------------------------------
    // Key stream
    // -------------------------------------------------------------------

    /** The body of the loop of chacha20_encrypt: the next byte of the key stream, xored in. */
    method EncryptByte(plain: byte) returns (c: byte)
      requires PoolValid()
      modifies `ctr, `poolIdx, `used, `blocks, pool
      ensures PoolValid() && used == old(used) + 1
      ensures c == XorByte(StreamByte(key, nonce, 0, old(used)), plain)
    {
      hide KeyBlock, CounterState, Encrypt, Counter;
      if poolIdx == 64 {
        ghost var zeros := Zeros(64);
        ZerosReads(zeros);
        var _ := CryptoChaCha20Ctr(pool, null, 64, key, nonce, ctr, zeros);
        CounterBlock(key, nonce, ctr, zeros);
        assert pool[..64] == pool[..];
        poolIdx := 0;
        ctr := (ctr as int + 1) % TWO64;
        CounterNext(0, blocks);
        blocks := blocks + 1;
      }
      PoolByte(key, nonce, pool[..], used, poolIdx, blocks);
      c := XorByte(pool[poolIdx], plain);
      poolIdx := poolIdx + 1;
      used := used + 1;
    }

    /** chacha20_encrypt: the buffers may be the same, and no plain text means zeros. */
    method EncryptBytes(cipherText: array<byte>, plainText: array?<byte>, textSize: nat, ghost plain: seq<byte>)
      requires PoolValid() && cipherText != pool && plainText != pool
      requires textSize == |plain| <= cipherText.Length && Reads(plainText, plain, 0)
      modifies `ctr, `poolIdx, `used, `blocks, pool, cipherText
      ensures PoolValid() && used == old(used) + textSize
      ensures cipherText[..textSize] == EncryptFrom(key, nonce, 0, old(used), plain)
      ensures cipherText[textSize..] == old(cipherText[textSize..])
    {
      hide PoolValid, Written, EncryptFrom, StreamByte, Stream, XorByte;
      KeySizes();
      ghost var u := used;
      StreamNext(key, nonce, 0, u, 0);
      WrittenNothing(cipherText[..], 0, plain);
      for i := 0 to textSize
        invariant PoolValid() && used == u + i && Reads(plainText, plain, i)
        invariant Written(old(cipherText[..]), cipherText[..], 0, i, Stream(key, nonce, 0, u, i), plain)
      {
        ghost var before := cipherText[..];
        var p := ReadByte(plainText, i, plain);
        var c := EncryptByte(p);
        cipherText[i] := c;
        ByteWritten(before, cipherText[..], i, StreamByte(key, nonce, 0, u + i), plain);
        StreamNext(key, nonce, 0, u, i);
        WrittenJoin(old(cipherText[..]), before, cipherText[..], 0, i, i + 1, Stream(key, nonce, 0, u, i),
                    [StreamByte(key, nonce, 0, u + i)], plain);
      }
      WrittenAll(old(cipherText[..]), cipherText[..], key, nonce, 0, u, plain);
    }

    // -------------------------------------------------------------------
    // Locking
    // -------------------------------------------------------------------

    /** chacha20_x_init: the pool starts empty. */
    method InitStream(userKey: seq<byte>, userNonce: seq<byte>)
      requires Shape() && |userKey| == 32 && |userNonce| == 24
      modifies `key, `nonce, `ctr, `poolIdx, `used, `blocks
      ensures PoolValid() && used == 0 && key == SubKey(userKey, userNonce) && nonce == userNonce[16..]
    {
      hide HChaCha20, KeyBlock, CounterState;
      key, nonce, ctr, poolIdx := HChaCha20(userKey, userNonce[..16]), userNonce[16..], 0, 64;
      used, blocks := 0, 0;
    }

    /** The stream bytes that make the authentication key. */
    method TakeAuthKey(ghost userKey: seq<byte>, ghost userNonce: seq<byte>) returns (block: array<byte>)
      requires |userKey| == 32 && |userNonce| == 24
      requires PoolValid() && used == 0 && key == SubKey(userKey, userNonce) && nonce == userNonce[16..]
      modifies `ctr, `poolIdx, `used, `blocks, pool
      ensures fresh(block) && block.Length == 64 && block[..32] == AuthKey(userKey, userNonce)
      ensures PoolValid() && used == 64
    {
      hide PoolValid, SubKey, Encrypt, EncryptFrom, KeyBlock, CounterState, Reads, Zeros, AuthKey;
      block := new byte[64];
      ghost var zeros := Zeros(64);
      ZerosReads(zeros);
      EncryptBytes(block, null, 64, zeros);
      CounterBlock(key, nonce, 0, zeros);
      EncryptStart(key, nonce, 0, zeros);
      AuthKeyIs(userKey, userNonce, key, nonce, block[..64]);
      assert block[..64][..32] == block[..32];
    }

    /** The authentication starts with nothing. */
    method InitAuth(block: seq<byte>)
      requires poly.Shape() && |block| == 32
      modifies `adSize, `messageSize, `adPhase, `ad, `text, `authed, `late, `authKey
      modifies poly, poly.r, poly.h, poly.c, poly.pad
      ensures AuthValid() && adPhase && ad == [] && text == [] && !late && authKey == block
    {
      hide Ctx.Valid, Ctx.Shape, Padding;
      adPhase, adSize, messageSize := true, 0, 0;
      ad, text, authed, late := [], [], [], false;
      authKey := block;
      poly.Init(block);
    }

    /** crypto_lock_init */
    method Init(userKey: seq<byte>, userNonce: seq<byte>)
      requires Shape() && |userKey| == 32 && |userNonce| == 24
      modifies this, pool, poly, poly.r, poly.h, poly.c, poly.pad
      ensures Valid() && adPhase && ad == [] && text == [] && !late && used == 64
      ensures key == SubKey(userKey, userNonce) && nonce == userNonce[16..] && authKey == AuthKey(userKey, userNonce)
    {
      hide *;
      InitStream(userKey, userNonce);
      var block := TakeAuthKey(userKey, userNonce);
      PolyShape();
      InitAuth(block[..32]);
      Whole();
    }

    lemma PolyShape()
      requires Shape()
      ensures poly.Shape()
    {
    }

    /** crypto_lock_auth_ad, which authenticates at once: after any message, the new part comes behind it. */
    method LockAuthAd(message: seq<byte>)
      requires Valid() && |ad| + |message| < TWO64
      modifies `adSize, `ad, `authed, `late, poly, poly.h, poly.c
      ensures Valid() && ad == old(ad) + message && authed == old(authed) + message
      ensures late == (old(late) || !adPhase)
    {
      hide PoolValid, Ctx.Valid, Padding;
      poly.Update(message);
      adSize := adSize + |message|;
      ad, authed, late := ad + message, authed + message, late || !adPhase;
    }

    /** lock_ad_padding */
    method LockAdPadding()
      requires Valid()
      modifies `adPhase, `authed, poly, poly.h, poly.c
      ensures Valid() && !adPhase && authed == if old(adPhase) then old(authed) + Padding(|ad|) else old(authed)
    {
      hide PoolValid, Ctx.Valid, Align, Padding, Zeros;
      if adPhase {
        adPhase := false;
        AlignIsPadding(adSize);
        poly.Update(Zeros(Align(adSize, 16)));
        authed := authed + Padding(|ad|);
      }
    }

    /** crypto_lock_auth_message */
    method LockAuthMessage(cipherText: seq<byte>)
      requires Valid() && |text| + |cipherText| < TWO64
      modifies `adPhase, `messageSize, `text, `authed, poly, poly.h, poly.c
      ensures Valid() && !adPhase && text == old(text) + cipherText
      ensures authed == (if old(adPhase) then old(authed) + Padding(|ad|) else old(authed)) + cipherText
    {
      hide PoolValid, Ctx.Valid, Padding;
      LockAdPadding();
      messageSize := messageSize + |cipherText|;
      poly.Update(cipherText);
      text, authed := text + cipherText, authed + cipherText;
    }

    /** crypto_lock_update */
    method LockUpdate(cipherText: array<byte>, plainText: array?<byte>, textSize: nat, ghost plain: seq<byte>)
      requires Valid() && cipherText != pool && plainText != pool && |text| + textSize < TWO64
      requires textSize == |plain| <= cipherText.Length && Reads(plainText, plain, 0)
      modifies this, pool, poly, poly.h, poly.c, cipherText
      ensures Valid() && !adPhase && used == old(used) + textSize && ad == old(ad) && late == old(late)
      ensures key == old(key) && nonce == old(nonce) && authKey == old(authKey) && |key| == 32 && |nonce| == 8
      ensures cipherText[..textSize] == EncryptFrom(key, nonce, 0, old(used), plain)
      ensures cipherText[textSize..] == old(cipherText[textSize..])
      ensures text == old(text) + cipherText[..textSize]
    {
      hide *;
      Parts();
      EncryptBytes(cipherText, plainText, textSize, plain);
      Whole();
      LockAuthMessage(cipherText[..textSize]);
    }

    /** crypto_lock_final: the tag of everything, and a wiped context. */
    method LockFinal(mac: array<byte>)
      requires Valid() && mac.Length >= 16 && mac != pool
      modifies this, pool, poly, poly.r, poly.h, poly.c, poly.pad, mac
      ensures |old(authKey)| == 32 && |old(ad)| < TWO64 && |old(text)| < TWO64
      ensures LE(mac[..16]) == Tag(old(authKey), old(Authenticated()))
      ensures mac[16..] == old(mac[16..])
      ensures adSize == messageSize == ctr == poolIdx == 0 && !adPhase && key == Zeros(32) && nonce == Zeros(8)
      ensures forall i :: 0 <= i < 64 ==> pool[i] == 0
    {
      hide PoolValid, Ctx.Valid, Align, Padding, Zeros, Store64, Tag, LE;
      LockAdPadding();
      var sizes := Store64(adSize) + Store64(messageSize);
      AlignIsPadding(messageSize);
      poly.Update(Zeros(Align(messageSize, 16)));
      poly.Update(sizes);
      poly.Final(mac);
      Wipe();
    }

    /** The fields of this context in WIPE_CTX; those of the Poly1305 context are wiped already. */
    method Wipe()
      requires pool.Length == 64
      modifies `adSize, `messageSize, `adPhase, `key, `nonce, `ctr, `poolIdx, pool
      ensures adSize == messageSize == ctr == poolIdx == 0 && !adPhase && key == Zeros(32) && nonce == Zeros(8)
      ensures forall i :: 0 <= i < 64 ==> pool[i] == 0
    {
      for i := 0 to 64
        invariant forall k :: 0 <= k < i ==> pool[k] == 0
      {
        pool[i] := 0;
      }
      adSize, messageSize, ctr, poolIdx, adPhase := 0, 0, 0, 0, false;
      key, nonce := Zeros(32), Zeros(8);
    }

    // -------------------------------------------------------------------
    // Unlocking
    // -------------------------------------------------------------------

    /** crypto_unlock_update: authenticates before it decrypts, so the buffers may be the same. */
    method UnlockUpdate(plainText: array<byte>, cipherText: array<byte>, textSize: nat, ghost cipher: seq<byte>)
      requires Valid() && cipherText != pool && plainText != pool && |text| + textSize < TWO64
      requires textSize == |cipher| <= plainText.Length && textSize <= cipherText.Length
      requires cipherText[..textSize] == cipher
      modifies this, pool, poly, poly.h, poly.c, plainText
      ensures Valid() && !adPhase && used == old(used) + textSize && ad == old(ad) && late == old(late)
      ensures key == old(key) && nonce == old(nonce) && authKey == old(authKey) && |key| == 32 && |nonce| == 8
      ensures plainText[..textSize] == EncryptFrom(key, nonce, 0, old(used), cipher)
      ensures plainText[textSize..] == old(plainText[textSize..])
      ensures text == old(text) + cipher
    {
      hide *;
      Parts();
      LockAuthMessage(cipherText[..textSize]);
      Parts();
      WholeReads(cipherText, cipher);
      EncryptBytes(plainText, cipherText, textSize, cipher);
      Whole();
    }

    /** crypto_unlock_final: 0 exactly when the tag is right. */
    method UnlockFinal(mac: seq<byte>) returns (mismatch: int)
      requires Valid() && |mac| == 16
      modifies this, pool, poly, poly.r, poly.h, poly.c, poly.pad
      ensures |old(authKey)| == 32 && |old(ad)| < TWO64 && |old(text)| < TWO64
      ensures mismatch == if LE(mac) == Tag(old(authKey), old(Authenticated())) then 0 else -1
    {
      hide Valid, LE, Tag, Authenticated;
      var realMac := new byte[16];
      LockFinal(realMac);
      assert realMac[..16] == realMac[..];
      SameTag(mac, realMac[..]);
      mismatch := if realMac[..] == mac then 0 else -1;
    }

    lemma KeySizes()
      requires PoolValid()
      ensures |key| == 32 && |nonce| == 8 && pool.Length == 64
    {
    }

    lemma Parts()
      requires Valid()
      ensures Shape() && PoolValid() && AuthValid() && |key| == 32 && |nonce| == 8 && pool.Length == 64
    {
    }

    lemma Ordered()
      requires Valid() && !late
      ensures |ad| < TWO64 && |text| < TWO64 && Authenticated() == AuthData(ad, text)
    {
      InOrder();
    }

    lemma Whole()
      requires Shape() && PoolValid() && AuthValid()
      ensures Valid()
    {
    }
  }

  lemma AuthDataSeen(ad: seq<byte>, text: seq<byte>)
    requires |ad| < TWO64 && |text| < TWO64
    ensures AuthData(ad, text)
         == (ad + Padding(|ad|) + text) + Padding(|text|) + (Store64(|ad|) + Store64(|text|))
  {
    hide Padding, Store64;
  }

  lemma WholeReads(buffer: array<byte>, text: seq<byte>)
    requires |text| <= buffer.Length && buffer[..|text|] == text
    ensures Reads(buffer, text, 0)
  {
  }

  lemma EncryptStart(key: seq<byte>, nonce: seq<byte>, ctr: u64, text: seq<byte>)
    requires |key| == 32 && |nonce| == 8
    ensures EncryptFrom(key, nonce, ctr, 0, text) == Encrypt(key, nonce, ctr, text)
  {
  }

  lemma CounterBlock(key: seq<byte>, nonce: seq<byte>, ctr: u64, zeros: seq<byte>)
    requires |key| == 32 && |nonce| == 8 && zeros == Zeros(64)
    ensures Encrypt(key, nonce, ctr, zeros) == KeyBlock(CounterState(key, nonce, ctr))
  {
    hide Encrypt, KeyBlock, CounterState, Stream;
    EncryptZeros(key, nonce, ctr, zeros);
    StreamBlock(key, nonce, ctr, 0, 64);
    StreamNext(key, nonce, ctr, 0, 0);
  }

  lemma PoolByte(key: seq<byte>, nonce: seq<byte>, pool: seq<byte>, used: nat, idx: nat, blocks: nat)
    requires |key| == 32 && |nonce| == 8 && idx < 64 && 64 * blocks == used + 64 - idx
    requires pool == KeyBlock(CounterState(key, nonce, Counter(0, blocks - 1)))
    ensures |pool| == 64 && pool[idx] == StreamByte(key, nonce, 0, used)
  {
    hide KeyBlock, CounterState;
    assert used / 64 == blocks - 1 && used % 64 == idx;
  }

  // ---------------------------------------------------------------------
  // Whole runs
  // ---------------------------------------------------------------------

  lemma ShiftedByte(key: seq<byte>, nonce: seq<byte>, j: nat)
    requires |key| == 32 && |nonce| == 8
    ensures StreamByte(key, nonce, 0, 64 + j) == StreamByte(key, nonce, 1, j)
  {
    hide KeyBlock, CounterState;
    assert (64 + j) / 64 == 1 + j / 64 && (64 + j) % 64 == j % 64;
  }

  /** Block 0 of the key stream made the authentication key; the text starts with block 1. */
  lemma SecondBlock(key: seq<byte>, nonce: seq<byte>, off: nat, text: seq<byte>)
    requires |key| == 32 && |nonce| == 8
    ensures EncryptFrom(key, nonce, 0, 64 + off, text) == EncryptFrom(key, nonce, 1, off, text)
  {
    hide XorByte, StreamByte;
    var a, b := EncryptFrom(key, nonce, 0, 64 + off, text), EncryptFrom(key, nonce, 1, off, text);
    forall i | 0 <= i < |text| ensures a[i] == b[i] {
      ShiftedByte(key, nonce, off + i);
    }
  }

  ghost predicate Keyed(ctx: LockCtx, key: seq<byte>, nonce: seq<byte>)
    reads ctx`key, ctx`nonce, ctx`authKey
  {
    hide *;
    && |key| == 32 && |nonce| == 24 && ctx.key == SubKey(key, nonce) && ctx.nonce == nonce[16..]
    && ctx.authKey == AuthKey(key, nonce)
  }

  /** A context that has taken the additional data ad, and encrypted or decrypted the text so far. */
  ghost predicate Running(ctx: LockCtx, key: seq<byte>, nonce: seq<byte>, ad: seq<byte>, cipher: seq<byte>)
    reads ctx, ctx.pool, ctx.poly, ctx.poly.r, ctx.poly.h, ctx.poly.c, ctx.poly.pad
  {
    hide *;
    && ctx.Valid() && Keyed(ctx, key, nonce) && ctx.ad == ad && ctx.text == cipher
    && ctx.used == 64 + |cipher| && !ctx.late
  }

  /** Init, and the additional data in chunks. */
  method Start(ctx: LockCtx, key: seq<byte>, nonce: seq<byte>, ads: seq<seq<byte>>)
    requires ctx.Shape() && |key| == 32 && |nonce| == 24 && |Concat(ads)| < TWO64
    modifies ctx, ctx.pool, ctx.poly, ctx.poly.r, ctx.poly.h, ctx.poly.c, ctx.poly.pad
    ensures Running(ctx, key, nonce, Concat(ads), [])
  {
    hide LockCtx.Valid, SubKey, AuthKey, Concat;
    ctx.Init(key, nonce);
    EmptyConcat(ads);
    for i := 0 to |ads|
      invariant Running(ctx, key, nonce, Concat(ads[..i]), []) && ctx.adPhase
    {
      ConcatNext(ads, i);
      ConcatPrefix(ads, i + 1);
      ctx.LockAuthAd(ads[i]);
    }
    AllConcat(ads);
  }

  /** One chunk of text, in place. */
  method LockChunk(ctx: LockCtx, key: seq<byte>, nonce: seq<byte>, ghost ad: seq<byte>, ghost before: seq<byte>,
                   chunk: seq<byte>) returns (cipher: seq<byte>)
    requires |key| == 32 && |nonce| == 24 && |before| + |chunk| < TWO64
    requires Running(ctx, key, nonce, ad, LockedText(key, nonce, before))
    modifies ctx, ctx.pool, ctx.poly, ctx.poly.h, ctx.poly.c
    ensures LockedText(key, nonce, before + chunk) == LockedText(key, nonce, before) + cipher
    ensures Running(ctx, key, nonce, ad, LockedText(key, nonce, before + chunk))
  {
    hide LockCtx.Valid, SubKey, AuthKey, EncryptFrom, Reads;
    var buffer := new byte[|chunk|](i requires 0 <= i < |chunk| => chunk[i]);
    assert buffer[..|chunk|] == chunk;
    WholeReads(buffer, chunk);
    SecondBlock(SubKey(key, nonce), nonce[16..], |before|, chunk);
    EncryptSplit(SubKey(key, nonce), nonce[16..], 1, 0, before, chunk);
    ctx.LockUpdate(buffer, buffer, |chunk|, chunk);
    cipher := buffer[..|chunk|];
  }

  /** However the additional data and the text are split, the result is that of crypto_lock_aead. */
  method LockRun(key: seq<byte>, nonce: seq<byte>, ads: seq<seq<byte>>, texts: seq<seq<byte>>)
    returns (cipher: seq<byte>, mac: array<byte>)
    requires |key| == 32 && |nonce| == 24 && |Concat(ads)| < TWO64 && |Concat(texts)| < TWO64
    ensures cipher == LockedText(key, nonce, Concat(texts))
    ensures mac.Length == 16 && LE(mac[..16]) == LockTag(key, nonce, Concat(ads), cipher)
  {
    hide LockCtx.Valid, SubKey, AuthKey, LockedText, Concat, LE, Tag, AuthData;
    var ctx := new LockCtx();
    Start(ctx, key, nonce, ads);
    EmptyConcat(texts);
    LockedNothing(key, nonce);
    cipher := [];
    for i := 0 to |texts|
      invariant cipher == LockedText(key, nonce, Concat(texts[..i]))
      invariant Running(ctx, key, nonce, Concat(ads), cipher)
      invariant ctx.Shape() && fresh(ctx) && fresh(ctx.pool) && fresh(ctx.poly)
      invariant fresh(ctx.poly.r) && fresh(ctx.poly.h) && fresh(ctx.poly.c) && fresh(ctx.poly.pad)
    {
      ConcatNext(texts, i);
      ConcatPrefix(texts, i + 1);
      var chunk := LockChunk(ctx, key, nonce, Concat(ads), Concat(texts[..i]), texts[i]);
      cipher := cipher + chunk;
    }
    AllConcat(texts);
    mac := new byte[16];
    ctx.Ordered();
    ctx.LockFinal(mac);
  }

  lemma LockedNothing(key: seq<byte>, nonce: seq<byte>)
    requires |key| == 32 && |nonce| == 24
    ensures LockedText(key, nonce, []) == []
  {
  }

  /** One chunk of cipher text, in place. */
  method UnlockChunk(ctx: LockCtx, key: seq<byte>, nonce: seq<byte>, ghost ad: seq<byte>, ghost before: seq<byte>,
                     chunk: seq<byte>) returns (plain: seq<byte>)
    requires |key| == 32 && |nonce| == 24 && |before| + |chunk| < TWO64
    requires Running(ctx, key, nonce, ad, before)
    modifies ctx, ctx.pool, ctx.poly, ctx.poly.h, ctx.poly.c
    ensures LockedText(key, nonce, before + chunk) == LockedText(key, nonce, before) + plain
    ensures Running(ctx, key, nonce, ad, before + chunk)
  {
    hide LockCtx.Valid, SubKey, AuthKey, EncryptFrom, Reads;
    var buffer := new byte[|chunk|](i requires 0 <= i < |chunk| => chunk[i]);
    assert buffer[..|chunk|] == chunk;
    SecondBlock(SubKey(key, nonce), nonce[16..], |before|, chunk);
    EncryptSplit(SubKey(key, nonce), nonce[16..], 1, 0, before, chunk);
    ctx.UnlockUpdate(buffer, buffer, |chunk|, chunk);
    plain := buffer[..|chunk|];
  }

  /** However the additional data and the cipher text are split, the verdict and the text are those of
      crypto_unlock_aead. The text is there before the verdict is. */
  method UnlockRun(key: seq<byte>, nonce: seq<byte>, mac: seq<byte>, ads: seq<seq<byte>>, ciphers: seq<seq<byte>>)
    returns (mismatch: int, plain: seq<byte>)
    requires |key| == 32 && |nonce| == 24 && |mac| == 16 && |Concat(ads)| < TWO64 && |Concat(ciphers)| < TWO64
    ensures plain == LockedText(key, nonce, Concat(ciphers))
    ensures mismatch == if LE(mac) == LockTag(key, nonce, Concat(ads), Concat(ciphers)) then 0 else -1
  {
    hide LockCtx.Valid, SubKey, AuthKey, LockedText, Concat, LE, Tag, AuthData;
    var ctx := new LockCtx();
    Start(ctx, key, nonce, ads);
    EmptyConcat(ciphers);
    LockedNothing(key, nonce);
    plain := [];
    for i := 0 to |ciphers|
      invariant plain == LockedText(key, nonce, Concat(ciphers[..i]))
      invariant Running(ctx, key, nonce, Concat(ads), Concat(ciphers[..i]))
      invariant ctx.Shape() && fresh(ctx) && fresh(ctx.pool) && fresh(ctx.poly)
      invariant fresh(ctx.poly.r) && fresh(ctx.poly.h) && fresh(ctx.poly.c) && fresh(ctx.poly.pad)
    {
      ConcatNext(ciphers, i);
      ConcatPrefix(ciphers, i + 1);
      var chunk := UnlockChunk(ctx, key, nonce, Concat(ads), Concat(ciphers[..i]), ciphers[i]);
      plain := plain + chunk;
    }
    AllConcat(ciphers);
    ctx.Ordered();
    mismatch := ctx.UnlockFinal(mac);
  }
}
