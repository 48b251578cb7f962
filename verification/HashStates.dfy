/** The internals of Raaz's hashes as values: what the calls for whole blocks and for the last bytes do to
    them. The classes of `Sha2Raaz`, `Blake2bRaaz` and `Mac` do the same to their fields. */
module HashStates {
  import opened Words
  import opened Blocks
  import opened Sha2Padding
  import Sha512Stream
  import Blake2bStream

  /** A hash, and how many bytes it has seen. */
  datatype HashState = HashState(hash: Hash8, total: nat)

  /** Whole blocks, one after the other. */
  function Absorb<S>(step: (S, seq<byte>) -> S, s: S, data: seq<byte>): (t: S)
    decreases |data|
  {
    if |data| < 128 then s else Absorb(step, step(s, data[..128]), data[128..])
  }

  lemma {:induction false} AbsorbAppend<S>(step: (S, seq<byte>) -> S, s: S, a: seq<byte>, b: seq<byte>)
    requires Aligned(|a|)
    ensures Absorb(step, s, a + b) == Absorb(step, Absorb(step, s, a), b)
    decreases |a|
  {
    if a == [] {
      assert a + b == b;
    } else {
      assert (a + b)[..128] == a[..128] && (a + b)[128..] == a[128..] + b;
      AbsorbAppend(step, step(s, a[..128]), a[128..], b);
    }
  }

  // ---------------------------------------------------------------------
  // SHA-512
  // ---------------------------------------------------------------------

  function Sha512Step(F: Sha512Stream.Compressor): (step: (HashState, seq<byte>) -> HashState) {
    (s: HashState, block: seq<byte>) =>
      if |block| == 128 then HashState(F(s.hash, WordsOf(BIG, block)), s.total + 128) else s
  }

  function Sha512Blocks(F: Sha512Stream.Compressor, s: HashState, data: seq<byte>): (t: HashState) {
    Absorb(Sha512Step(F), s, data)
  }

  function Sha512Last(F: Sha512Stream.Compressor, s: HashState, data: seq<byte>): (h: Hash8) {
    Sha512Blocks(F, s, data + Tail512(s.total + |data|)).hash
  }

  lemma {:induction false} Sha512Absorbed(F: Sha512Stream.Compressor, s: HashState, data: seq<byte>, n: nat)
    requires 128 * n <= |data|
    ensures Sha512Blocks(F, s, data[..128 * n])
         == HashState(Sha512Stream.Fed(F, s.hash, data, n), s.total + 128 * n)
  {
    hide WordsOf;
    if n == 0 {
    } else {
      Sha512Absorbed(F, s, data, n - 1);
      var a, b := data[..128 * (n - 1)], data[128 * (n - 1)..128 * n];
      assert data[..128 * n] == a + b;
      AbsorbAppend(Sha512Step(F), s, a, b);
      assert b[..128] == b;
    }
  }

  lemma {:induction false} Sha512Total(F: Sha512Stream.Compressor, s: HashState, data: seq<byte>)
    requires Aligned(|data|)
    ensures Sha512Blocks(F, s, data).total == s.total + |data|
  {
    var n := |data| / 128;
    Sha512Absorbed(F, s, data, n);
    assert data[..128 * n] == data;
  }

  lemma Sha512Append(F: Sha512Stream.Compressor, s: HashState, a: seq<byte>, b: seq<byte>)
    requires Aligned(|a|)
    ensures Sha512Blocks(F, s, a + b) == Sha512Blocks(F, Sha512Blocks(F, s, a), b)
  {
    hide Absorb, Sha512Step;
    AbsorbAppend(Sha512Step(F), s, a, b);
  }

  lemma Sha512LastAppend(F: Sha512Stream.Compressor, s: HashState, a: seq<byte>, b: seq<byte>)
    requires Aligned(|a|)
    ensures Sha512Last(F, s, a + b) == Sha512Last(F, Sha512Blocks(F, s, a), b)
  {
    hide Tail512, Sha512Blocks;
    var tail := Tail512(s.total + |a + b|);
    Sha512Total(F, s, a);
    assert a + b + tail == a + (b + tail);
    Sha512Append(F, s, a, b + tail);
  }

  /** All at once, it is the hash of section 6.4 of FIPS 180-4. */
  lemma Sha512Whole(F: Sha512Stream.Compressor, h: Hash8, message: seq<byte>)
    ensures Sha512Last(F, HashState(h, 0), message) == Sha512Stream.Digest(F, h, message)
  {
    hide Tail512, Sha512Blocks, Sha512Stream.Fed;
    var data := message + Tail512(|message|);
    Sha512Stream.DigestBlocks(message);
    var n := |data| / 128;
    Sha512Absorbed(F, HashState(h, 0), data, n);
    assert data[..128 * n] == data;
  }

  /** The state after whole blocks were hashed from the start. */
  lemma Sha512After(F: Sha512Stream.Compressor, h: Hash8, done: seq<byte>)
    requires Aligned(|done|)
    ensures Sha512Blocks(F, HashState(h, 0), done)
         == HashState(Sha512Stream.Fed(F, h, done, |done| / 128), |done|)
  {
    hide Sha512Blocks, Sha512Stream.Fed;
    var n := |done| / 128;
    Sha512Absorbed(F, HashState(h, 0), done, n);
    assert done[..128 * n] == done;
  }

  /** From there, the last call gives the hash of everything. */
  lemma Sha512Ends(F: Sha512Stream.Compressor, h: Hash8, done: seq<byte>, data: seq<byte>)
    requires Aligned(|done|)
    ensures Sha512Last(F, HashState(Sha512Stream.Fed(F, h, done, |done| / 128), |done|), data)
         == Sha512Stream.Digest(F, h, done + data)
  {
    hide *;
    Sha512After(F, h, done);
    Sha512LastAppend(F, HashState(h, 0), done, data);
    Sha512Whole(F, h, done + data);
  }

  /** And another call for whole blocks gives the state after more of them. */
  lemma Sha512Continues(F: Sha512Stream.Compressor, h: Hash8, done: seq<byte>, data: seq<byte>)
    requires Aligned(|done|) && Aligned(|data|) && Aligned(|done + data|)
    ensures Sha512Blocks(F, HashState(Sha512Stream.Fed(F, h, done, |done| / 128), |done|), data)
         == HashState(Sha512Stream.Fed(F, h, done + data, |done + data| / 128), |done + data|)
  {
    hide Sha512Stream.Fed, Sha512Blocks;
    Sha512After(F, h, done);
    Sha512After(F, h, done + data);
    Sha512Append(F, HashState(h, 0), done, data);
  }

  // ---------------------------------------------------------------------
  // BLAKE2b
  // ---------------------------------------------------------------------

  function Blake2bStep(F: Blake2bStream.Compressor): (step: (HashState, seq<byte>) -> HashState) {
    (s: HashState, block: seq<byte>) =>
      if |block| == 128
      then HashState(F(s.hash, WordsOf(LITTLE, block), Low(s.total + 128), High(s.total + 128), false), s.total + 128)
      else s
  }

  function Blake2bBlocks(F: Blake2bStream.Compressor, s: HashState, data: seq<byte>): (t: HashState) {
    Absorb(Blake2bStep(F), s, data)
  }

  function Blake2bLast(F: Blake2bStream.Compressor, s: HashState, data: seq<byte>): (h: Hash8) {
    var n := Blake2bStream.NonLast(|data|);
    var t := Blake2bBlocks(F, s, data[..128 * n]);
    var total := s.total + |data|;
    F(t.hash, WordsOf(LITTLE, Padded(data[128 * n..])), Low(total), High(total), true)
  }

  lemma Blake2bLastIs(F: Blake2bStream.Compressor, s: HashState, data: seq<byte>)
    ensures var n := Blake2bStream.NonLast(|data|);
            && Blake2bLast(F, s, data)
               == F(Blake2bBlocks(F, s, data[..128 * n]).hash, WordsOf(LITTLE, Padded(data[128 * n..])),
                    Low(s.total + |data|), High(s.total + |data|), true)
  {
  }

  lemma Blake2bAppend(F: Blake2bStream.Compressor, s: HashState, a: seq<byte>, b: seq<byte>)
    requires Aligned(|a|)
    ensures Blake2bBlocks(F, s, a + b) == Blake2bBlocks(F, Blake2bBlocks(F, s, a), b)
  {
    hide Absorb, Blake2bStep;
    AbsorbAppend(Blake2bStep(F), s, a, b);
  }

  lemma OneStep(F: Blake2bStream.Compressor, s: HashState, block: seq<byte>)
    requires |block| == 128
    ensures Blake2bBlocks(F, s, block)
         == HashState(F(s.hash, WordsOf(LITTLE, block), Low(s.total + 128), High(s.total + 128), false), s.total + 128)
  {
    hide WordsOf, Low, High;
    assert block[..128] == block && block[128..] == [];
    NoneAbsorbed(F, Blake2bStep(F)(s, block));
  }

  lemma {:induction false} Blake2bAbsorbed(F: Blake2bStream.Compressor, h: Hash8, data: seq<byte>, n: nat)
    requires 128 * n <= |data|
    ensures Blake2bBlocks(F, HashState(h, 0), data[..128 * n]) == HashState(Blake2bStream.Fed(F, h, data, n), 128 * n)
  {
    hide WordsOf, Low, High, Blake2bBlocks;
    if n == 0 {
      NoneAbsorbed(F, HashState(h, 0));
    } else {
      Blake2bAbsorbed(F, h, data, n - 1);
      var a, b := data[..128 * (n - 1)], data[128 * (n - 1)..128 * n];
      assert data[..128 * n] == a + b;
      Blake2bAppend(F, HashState(h, 0), a, b);
      OneStep(F, HashState(Blake2bStream.Fed(F, h, data, n - 1), 128 * (n - 1)), b);
    }
  }

  lemma NoneAbsorbed(F: Blake2bStream.Compressor, s: HashState)
    ensures Blake2bBlocks(F, s, []) == s
  {
  }

  lemma {:induction false} Blake2bTotal(F: Blake2bStream.Compressor, s: HashState, data: seq<byte>)
    requires Aligned(|data|)
    ensures Blake2bBlocks(F, s, data).total == s.total + |data|
    decreases |data|
  {
    hide WordsOf, Low, High;
    if data == [] {
    } else {
      Blake2bTotal(F, Blake2bStep(F)(s, data[..128]), data[128..]);
    }
  }

  lemma Blake2bLastAppend(F: Blake2bStream.Compressor, s: HashState, a: seq<byte>, b: seq<byte>)
    requires Aligned(|a|) && b != []
    ensures Blake2bLast(F, s, a + b) == Blake2bLast(F, Blake2bBlocks(F, s, a), b)
  {
    hide *;
    Blake2bStream.LastBlocks(|a|, |b|);
    Blake2bLastIs(F, s, a + b);
    Blake2bLastIs(F, Blake2bBlocks(F, s, a), b);
    var n, m := Blake2bStream.NonLast(|b|), Whole(|a|);
    assert (a + b)[..128 * (m + n)] == a + b[..128 * n] && (a + b)[128 * (m + n)..] == b[128 * n..];
    Blake2bTotal(F, s, a);
    Blake2bAppend(F, s, a, b[..128 * n]);
  }

  /** All at once, it is the hash of section 3.3 of RFC 7693. */
  lemma Blake2bWhole(F: Blake2bStream.Compressor, h: Hash8, data: seq<byte>)
    ensures Blake2bLast(F, HashState(h, 0), data) == Blake2bStream.Digest(F, h, data)
  {
    hide Blake2bBlocks, WordsOf, Low, High, Padded, Blake2bStream.NonLast, Blake2bStream.Fed;
    Blake2bAbsorbed(F, h, data, Blake2bStream.NonLast(|data|));
  }

  /** The state after whole blocks, none of them the last, were hashed from the start. */
  lemma Blake2bAfter(F: Blake2bStream.Compressor, h: Hash8, done: seq<byte>)
    requires Aligned(|done|)
    ensures Blake2bBlocks(F, HashState(h, 0), done) == HashState(Blake2bStream.Fed(F, h, done, Whole(|done|)), |done|)
  {
    Blake2bStream.LastBlocks(|done|, 0);
    hide Blake2bBlocks, Blake2bStream.Fed, Whole;
    var n := Whole(|done|);
    Blake2bAbsorbed(F, h, done, n);
    assert done[..128 * n] == done;
  }

  lemma Blake2bContinues(F: Blake2bStream.Compressor, h: Hash8, done: seq<byte>, data: seq<byte>)
    requires Aligned(|done|) && Aligned(|data|) && Aligned(|done + data|)
    ensures Blake2bBlocks(F, HashState(Blake2bStream.Fed(F, h, done, Whole(|done|)), |done|), data)
         == HashState(Blake2bStream.Fed(F, h, done + data, Whole(|done + data|)), |done + data|)
  {
    hide Blake2bStream.Fed, Blake2bBlocks, Whole;
    Blake2bAfter(F, h, done);
    Blake2bAfter(F, h, done + data);
    Blake2bAppend(F, HashState(h, 0), done, data);
  }
}
