/** The streaming interface of Monocypher's Poly1305: init, update and final. Whatever the
    split into updates, final writes the tag of everything that was fed in. */
module Poly1305Stream {
  import opened Words
  import opened Bits
  import opened Poly1305

  /** The bytes of the message that are not part of a whole block yet. */
  ghost function Pending(seen: seq<byte>): (p: seq<byte>)
    ensures |p| == |seen| % 16
  {
    seen[|seen| / 16 * 16..]
  }

  /** The message buffer: the pending bytes, then zeros. */
  ghost function Buffer(seen: seq<byte>): (b: seq<byte>)
    ensures |b| == 16
  {
    Pending(seen) + Zeros(16 - |seen| % 16)
  }

  /** Taking one more byte: it goes into the buffer, and possibly completes a block. */
  lemma BufferTake(seen: seq<byte>, b: byte)
    ensures ZeroFrom(Buffer(seen), |seen| % 16)
    ensures Buffer(seen)[|seen| % 16 := b] ==
            if |seen| % 16 == 15 then (seen + [b])[|seen| - 15..] else Buffer(seen + [b])
    ensures |seen| % 16 == 15 ==> Buffer(seen + [b]) == Zeros(16)
  {
    var n := |seen| / 16 * 16;
    assert (seen + [b])[n..] == seen[n..] + [b];
    if |seen| % 16 == 15 {
      assert (seen + [b])[n + 16..] == [];
      assert Buffer(seen)[15 := b] == (seen + [b])[n..];
    } else {
      assert |seen + [b]| / 16 == |seen| / 16;
      assert Buffer(seen)[|seen| % 16 := b] == Pending(seen + [b]) + Zeros(15 - |seen| % 16);
    }
  }

  /** A whole block more. */
  lemma AccumulateBlock(seen: seq<byte>, block: seq<byte>, r: int)
    requires |seen| % 16 == 0 && |block| == 16
    ensures Accumulate(seen + block, |seen| / 16 + 1, r)
         == Absorb(Accumulate(seen, |seen| / 16, r), block, r)
  {
    hide Absorb;
    var n := |seen| / 16;
    AccumulatePrefix(seen, block, n, r);
    assert (seen + block)[16 * n..16 * (n + 1)] == block;
  }

  /** The 2^128 that c[4] adds stands for the byte 1 after the block. */
  lemma BlockWithOne(c: seq<int>, block: seq<byte>)
    requires |c| == 5 && Packs(c, block) && c[4] == 1
    ensures Words5(c) == LE(block + [1])
  {
    PacksValue(c, block);
    Pow256Values();
    LEOne(block);
  }

  /** Accumulators are compared modulo 2^130 - 5. */
  lemma AccumulatorStep(h: int, h': int, acc: int, block: seq<byte>, c: int, r: int)
    requires h % P == acc && h' % P == (h + c) * r % P && c == LE(block + [1])
    ensures h' % P == Absorb(acc, block, r)
  {
    hide LE;
    ModAdd(h, c, P);
    ModMul(h + c, r, P);
    ModMul(acc + c, r, P);
  }

  lemma AccumulateEmpty(r: int)
    ensures 0 % P == Accumulate([], 0, r)
  {
  }

  lemma KeyLoaded(r: seq<int>, pad: seq<int>, key: seq<byte>)
    requires |key| == 32 && |r| == 4 && |pad| == 4
    requires r[0] == And(KeyWord(key, 0), 0x0fffffff)
    requires forall k :: 1 <= k < 4 ==> r[k] == And(KeyWord(key, k), 0x0ffffffc)
    requires forall k :: 0 <= k < 4 ==> pad[k] == KeyWord(key, 4 + k)
    ensures ClampedWords(r) && Words4(r) == KeyR(key) && Words4(pad) == LE(key[16..32])
  {
    hide Bitwise, KeyWord, LE, Val4, Clamped, KeyR;
    KeyWords(key);
  }

  lemma AlignSum(n: nat, c: nat, a: nat)
    requires c == n % 16 && a == (16 - c % 16) % 16
    ensures (n + a) % 16 == 0 && a < 16
  {
    var q := n / 16;
    if c == 0 { assert n + a == 16 * q; } else { assert n + a == 16 * (q + 1); }
  }

  /** After the alignment step, either the message is used up or the input is block-aligned. */
  lemma Alignment(n: nat, cIdx: nat)
    requires cIdx == n % 16
    ensures (n + Align(cIdx, 16)) % 16 == 0
  {
    hide *;
    AlignValue(cIdx);
    AlignSum(n, cIdx, Align(cIdx, 16));
  }

  lemma BufferEmpty(seen: seq<byte>)
    requires |seen| % 16 == 0
    ensures Buffer(seen) == Zeros(16)
  {
    assert Pending(seen) == [];
  }

  ghost function FinalAccumulator(seen: seq<byte>, r: int): int {
    var whole := Accumulate(seen, |seen| / 16, r);
    if |seen| % 16 == 0 then whole else Absorb(whole, Pending(seen), r)
  }

  /** The last block: its bytes, a byte 1, and nothing added by c[4]. */
  lemma LastBlock(c: seq<int>, seen: seq<byte>)
    requires |c| == 5 && c[4] == 0 && |seen| % 16 != 0
    requires Packs(c, Buffer(seen)[|seen| % 16 := 1])
    ensures Words5(c) == LE(Pending(seen) + [1])
  {
    hide LE, Val4;
    var buf := Buffer(seen)[|seen| % 16 := 1];
    PacksValue(c, buf);
    var n := |seen| % 16;
    assert buf[..n + 1] == Pending(seen) + [1];
    assert ZeroFrom(buf, n + 1);
    LEZeroTail(buf, n + 1);
  }

  /** Packs does not look at c[4]. */
  lemma ClearedTop(c: seq<int>, c0: seq<int>, buf: seq<byte>)
    requires |c| == |c0| == 5 && c[..4] == c0[..4] && Packs(c0, buf)
    ensures Packs(c, buf)
  {
    assert forall k :: 0 <= k < 4 ==> c[k] == c[..4][k] == c0[k];
  }

  lemma TagBytes(mac: seq<byte>, v0: u32, v1: u32, v2: u32, v3: u32)
    requires |mac| == 16
    requires forall k :: 0 <= k < 4 ==> mac[k] == Store32(v0)[k] && mac[4 + k] == Store32(v1)[k]
    requires forall k :: 0 <= k < 4 ==> mac[8 + k] == Store32(v2)[k] && mac[12 + k] == Store32(v3)[k]
    ensures LE(mac) == Val4(v0, v1, v2, v3)
  {
    hide Store32, LE;
    Store32Value(v0);
    Store32Value(v1);
    Store32Value(v2);
    Store32Value(v3);
    var w := [v0, v1, v2, v3];
    assert mac[0..4] == Store32(v0) && mac[4..8] == Store32(v1);
    assert mac[8..12] == Store32(v2) && mac[12..16] == Store32(v3);
    assert forall k :: 0 <= k < 4 ==> w[k] == LE(mac[4 * k..4 * k + 4]);
    PacksValue(w, mac);
  }

  class Ctx {
    const r: array<u32>
    const h: array<u32>
    const c: array<u32>
    const pad: array<u32>
    var cIdx: nat
    ghost var key: seq<byte>
    ghost var seen: seq<byte>

    ghost predicate Shape() {
      && r.Length == 4 && h.Length == 5 && c.Length == 5 && pad.Length == 4
      && r != h && r != c && r != pad && h != c && h != pad && c != pad
    }

    /** Everything but the input buffer: h is the accumulator of done. */
    ghost predicate Absorbed(done: seq<byte>)
      requires Shape()
      reads `key, r, h, pad
    {
      && |key| == 32
      && ClampedWords(r[..]) && Words4(r[..]) == KeyR(key) && Words4(pad[..]) == LE(key[16..32])
      && h[4] <= 4
      && Words5(h[..]) % P == Accumulate(done, |done| / 16, KeyR(key))
    }

    ghost predicate Valid()
      reads this, r, h, c, pad
    {
      && Shape() && Absorbed(seen)
      && c[4] == 1 && cIdx == |seen| % 16 && Packs(c[..], Buffer(seen))
    }

    /** poly_block, once the four words of c hold the next block of the message. */
    method BlockStep(ghost done: seq<byte>, ghost block: seq<byte>)
      requires Shape() && Absorbed(done) && |done| % 16 == 0 && |block| == 16
      requires c[4] == 1 && Packs(c[..], block)
      modifies h
      ensures Absorbed(done + block)
    {
      hide Absorb, LE, Accumulate, KeyR, Val4, Val5;
      ghost var h0 := Words5(h[..]);
      Block(h, c, r);
      BlockWithOne(c[..], block);
      AccumulateBlock(done, block, KeyR(key));
      AccumulatorStep(h0, Words5(h[..]), Accumulate(done, |done| / 16, KeyR(key)), block, LE(block + [1]), KeyR(key));
    }

    /** poly_clear_c */
    method ClearInput()
      requires c.Length == 5
      modifies c, `cIdx
      ensures cIdx == 0 && c[4] == old(c[4]) && Packs(c[..], Zeros(16))
    {
      var i := 0;
      while i < 4
        invariant 0 <= i <= 4 && c[4] == old(c[4])
        invariant forall k :: 0 <= k < i ==> c[k] == 0
      {
        c[i] := 0;
        i := i + 1;
      }
      cIdx := 0;
      forall k | 0 <= k < 4 ensures c[k] == LE(Zeros(16)[4 * k..4 * k + 4]) {
        LEZero(Zeros(16)[4 * k..4 * k + 4]);
      }
    }

    /** poly_take_input */
    method TakeInput(input: byte, ghost buf: seq<byte>)
      requires c.Length == 5 && cIdx < 16 && Packs(c[..], buf) && ZeroFrom(buf, cIdx)
      modifies c, `cIdx
      ensures cIdx == old(cIdx) + 1 && c[4] == old(c[4])
      ensures Packs(c[..], buf[old(cIdx) := input])
    {
      PacksTake(c[..], buf, cIdx, input);
      hide Bitwise, LE, Pow2;
      ghost var was := c[..];
      var word := cIdx / 4;
      var bits := 8 * (cIdx % 4);
      c[word] := Or(c[word], input * Pow2(bits));
      cIdx := cIdx + 1;
      assert c[..] == was[word := c[word]];
    }

    /** poly_update: byte by byte. */
    method UpdateBytes(message: seq<byte>)
      requires Valid()
      modifies this`cIdx, this`seen, h, c
      ensures Valid() && key == old(key)
      ensures seen == old(seen) + message
    {
      hide Absorbed, Packs;
      var i := 0;
      while i < |message|
        invariant 0 <= i <= |message|
        invariant Valid() && key == old(key)
        invariant seen == old(seen) + message[..i]
      {
        UpdateByte(message[i]);
        i := i + 1;
      }
    }

    /** The body of the loop of poly_update. */
    method UpdateByte(b: byte)
      requires Valid()
      modifies this`cIdx, this`seen, h, c
      ensures Valid() && key == old(key)
      ensures seen == old(seen) + [b]
    {
      hide Absorbed, Packs, Buffer, ZeroFrom;
      ghost var s, s' := seen, seen + [b];
      BufferTake(seen, b);
      TakeInput(b, Buffer(seen));
      if cIdx == 16 {
        ghost var done, block := s'[..|s'| - 16], s'[|s'| - 16..];
        AbsorbedSame(s, done);
        BlockStep(done, block);
        ClearInput();
        assert done + block == s';
      } else {
        AbsorbedSame(s, s');
      }
      seen := s';
    }

    /** Only whole blocks count. */
    lemma AbsorbedSame(a: seq<byte>, b: seq<byte>)
      requires Shape() && Absorbed(a) && |a| / 16 == |b| / 16 && (a <= b || b <= a)
      ensures Absorbed(b)
    {
      if a <= b { AccumulatePrefix(a, b[|a|..], |a| / 16, KeyR(key)); assert b == a + b[|a|..]; }
      else { AccumulatePrefix(b, a[|b|..], |b| / 16, KeyR(key)); assert a == b + a[|b|..]; }
    }

    /** A context is allocated by the caller, with arbitrary contents. */
    constructor ()
      ensures Shape() && fresh(r) && fresh(h) && fresh(c) && fresh(pad)
    {
      r := new u32[4];
      h := new u32[5];
      c := new u32[5];
      pad := new u32[4];
    }

    /** crypto_poly1305_init */
    method Init(key: seq<byte>)
      requires |key| == 32 && Shape()
      modifies this, r, h, c, pad
      ensures Valid() && this.key == key && seen == []
    {
      hide LE, Packs, KeyR, Accumulate, ClampedWords, Words4, Words5, Buffer;
      ClearHash();
      c[4] := 1;
      ClearInput();
      LoadKey(key);
      this.key, seen := key, [];
      AccumulateEmpty(KeyR(key));
      BufferEmpty([]);
    }

    /** The first loop of crypto_poly1305_init. */
    method ClearHash()
      requires h.Length == 5
      modifies h
      ensures Words5(h[..]) == 0 && h[4] == 0
    {
      var i := 0;
      while i < 5
        invariant 0 <= i <= 5
        invariant forall k :: 0 <= k < i ==> h[k] == 0
      {
        h[i] := 0;
        i := i + 1;
      }
    }

    /** The last three loops of crypto_poly1305_init. */
    method LoadKey(key: seq<byte>)
      requires |key| == 32 && Shape()
      modifies r, pad
      ensures ClampedWords(r[..]) && Words4(r[..]) == KeyR(key) && Words4(pad[..]) == LE(key[16..32])
    {
      hide Bitwise, KeyWord;
      ClampLow(KeyWord(key, 0));
      r[0] := And(KeyWord(key, 0), 0x0fffffff);
      var i := 1;
      while i < 4
        invariant 1 <= i <= 4 && r[0] == And(KeyWord(key, 0), 0x0fffffff)
        invariant forall k :: 1 <= k < i ==> r[k] == And(KeyWord(key, k), 0x0ffffffc)
      {
        ClampHigh(KeyWord(key, i));
        r[i] := And(KeyWord(key, i), 0x0ffffffc);
        i := i + 1;
      }
      i := 0;
      while i < 4
        invariant 0 <= i <= 4 && r[0] == And(KeyWord(key, 0), 0x0fffffff)
        invariant forall k :: 1 <= k < 4 ==> r[k] == And(KeyWord(key, k), 0x0ffffffc)
        invariant forall k :: 0 <= k < i ==> pad[k] == KeyWord(key, 4 + k)
      {
        pad[i] := KeyWord(key, 4 + i);
        i := i + 1;
      }
      KeyLoaded(r[..], pad[..], key);
    }

    /** Loads the four words of c with the block at the head of the message. */
    method LoadBlock(block: seq<byte>)
      requires c.Length == 5 && |block| == 16
      modifies c
      ensures Packs(c[..], block) && c[4] == old(c[4])
    {
      hide LE, Load32;
      var j := 0;
      while j < 4
        invariant 0 <= j <= 4 && c[4] == old(c[4])
        invariant forall k :: 0 <= k < j ==> c[k] == LE(block[4 * k..4 * k + 4])
      {
        Load32Value(block[4 * j..]);
        assert block[4 * j..][..4] == block[4 * j..4 * j + 4];
        c[j] := Load32(block[4 * j..]);
        j := j + 1;
      }
    }

    /** crypto_poly1305_update: align, then whole blocks, then the rest. */
    method Update(message: seq<byte>)
      requires Valid() && |message| < TWO64
      modifies this`cIdx, this`seen, h, c
      ensures Valid() && key == old(key)
      ensures seen == old(seen) + message
    {
      Alignment(|seen|, cIdx);
      hide *;
      var align := if Align(cIdx, 16) <= |message| then Align(cIdx, 16) else |message|;
      ghost var start := seen;
      UpdateBytes(message[..align]);
      var rest := message[align..];
      var consumed := UpdateBlocks(rest);
      Rejoin(start, message, align, consumed);
      UpdateBytes(rest[consumed..]);
    }

    /** The block by block part of crypto_poly1305_update. */
    method UpdateBlocks(message: seq<byte>) returns (consumed: nat)
      requires Valid() && (|message| >= 16 ==> |seen| % 16 == 0)
      modifies this`cIdx, this`seen, h, c
      ensures Valid() && key == old(key)
      ensures consumed <= |message| < consumed + 16
      ensures seen == old(seen) + message[..consumed]
    {
      hide Absorbed, Packs;
      var nbBlocks := |message| / 16;
      var i := 0;
      while i < nbBlocks
        invariant 0 <= i <= nbBlocks
        invariant Shape() && Absorbed(seen) && c[4] == 1 && key == old(key)
        invariant nbBlocks > 0 ==> |seen| % 16 == 0
        invariant nbBlocks == 0 ==> Valid()
        invariant seen == old(seen) + message[..16 * i]
      {
        LoadBlock(message[16 * i..16 * i + 16]);
        BlockStep(seen, message[16 * i..16 * i + 16]);
        seen := seen + message[16 * i..16 * i + 16];
        assert message[..16 * (i + 1)] == message[..16 * i] + message[16 * i..16 * i + 16];
        i := i + 1;
      }
      if nbBlocks > 0 {
        ClearInput();
        BufferEmpty(seen);
      }
      consumed := 16 * nbBlocks;
    }

    /** Moves the final 1 right after the pending bytes. */
    method TakeFinalOne()
      requires Valid() && cIdx != 0
      modifies c, `cIdx
      ensures c[4] == 0 && Words5(c[..]) == LE(Pending(seen) + [1])
    {
      hide Absorbed, LE, Packs;
      BufferTake(seen, 1);
      c[4] := 0;
      ClearedTop(c[..], old(c[..]), Buffer(seen));
      TakeInput(1, Buffer(seen));
      LastBlock(c[..], seen);
    }

    /** The first part of crypto_poly1305_final: the pending bytes and a byte 1 are the last block. */
    method FinishBlocks()
      requires Valid()
      modifies this`cIdx, h, c
      ensures h[4] <= 4
      ensures Words5(h[..]) % P == FinalAccumulator(seen, KeyR(key))
    {
      if cIdx != 0 {
        TakeFinalOne();
        hide LE, KeyR, Absorb, Accumulate, Val4, Val5;
        ghost var h0, block := Words5(h[..]), Pending(seen);
        Block(h, c, r);
        AccumulatorStep(h0, Words5(h[..]), Accumulate(seen, |seen| / 16, KeyR(key)), block, LE(block + [1]), KeyR(key));
      }
    }

    /** store32_le, four times. */
    method StoreTag(mac: array<byte>, v0: u32, v1: u32, v2: u32, v3: u32)
      requires mac.Length >= 16
      modifies mac
      ensures LE(mac[..16]) == Val4(v0, v1, v2, v3)
      ensures mac[16..] == old(mac[16..])
    {
      hide Store32, LE, Val4;
      StoreWord(mac, 0, v0);
      StoreWord(mac, 4, v1);
      StoreWord(mac, 8, v2);
      StoreWord(mac, 12, v3);
      TagBytes(mac[..16], v0, v1, v2, v3);
    }

    /** WIPE_CTX */
    method Wipe()
      requires Shape()
      modifies this`cIdx, r, h, c, pad
      ensures cIdx == 0
      ensures forall k :: 0 <= k < 4 ==> r[k] == 0 && pad[k] == 0
      ensures forall k :: 0 <= k < 5 ==> h[k] == 0 && c[k] == 0
    {
      cIdx := 0;
      r[0], r[1], r[2], r[3] := 0, 0, 0, 0;
      pad[0], pad[1], pad[2], pad[3] := 0, 0, 0, 0;
      h[0], h[1], h[2], h[3], h[4] := 0, 0, 0, 0, 0;
      c[0], c[1], c[2], c[3], c[4] := 0, 0, 0, 0, 0;
    }

    /** crypto_poly1305_final: the tag of section 2.5 of RFC 8439 of all the bytes seen, whatever
        updates they came in; the context is left wiped. */
    method Final(mac: array<byte>)
      requires Valid() && mac.Length >= 16
      modifies this, r, h, c, pad, mac
      ensures LE(mac[..16]) == Tag(old(key), old(seen))
      ensures mac[16..] == old(mac[16..])
      ensures forall k :: 0 <= k < 4 ==> r[k] == 0 && pad[k] == 0
      ensures forall k :: 0 <= k < 5 ==> h[k] == 0 && c[k] == 0
    {
      FinishBlocks();
      hide LE, Val4, Val5, KeyR, Accumulate, Absorb;
      var v0, v1, v2, v3 := FinalWords(h[0], h[1], h[2], h[3], h[4], pad[0], pad[1], pad[2], pad[3]);
      StoreTag(mac, v0, v1, v2, v3);
      Wipe();
    }
  }
}
