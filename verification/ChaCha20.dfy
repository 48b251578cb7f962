/** ChaCha20 with a 64-bit counter: the key stream, and encryption of whole buffers. */
module ChaCha20 {
  import opened Words
  import opened Bits

  // ---------------------------------------------------------------------
  // The block function, section 2.3 of RFC 8439
  // ---------------------------------------------------------------------

  function Add32(a: u32, b: u32): (s: u32) {
    (a as int + b) % TWO32
  }

  function XorWords(a: u32, b: u32): (c: u32) {
    XorWord(a, b);
    Xor(a, b)
  }

  function Rotl32(x: u32, n: nat): (r: u32)
    requires n <= 32
  {
    XorWords(Shl32(x, n), Shr32(x, 32 - n))
  }

  /** QUARTERROUND on the words a, b, c and d of the state. */
  function QuarterRound(s: seq<u32>, a: nat, b: nat, c: nat, d: nat): (t: seq<u32>)
    requires |s| == 16 && a < 16 && b < 16 && c < 16 && d < 16
    ensures |t| == 16
  {
    var s := s[a := Add32(s[a], s[b])];
    var s := s[d := Rotl32(XorWords(s[d], s[a]), 16)];
    var s := s[c := Add32(s[c], s[d])];
    var s := s[b := Rotl32(XorWords(s[b], s[c]), 12)];
    var s := s[a := Add32(s[a], s[b])];
    var s := s[d := Rotl32(XorWords(s[d], s[a]), 8)];
    var s := s[c := Add32(s[c], s[d])];
    s[b := Rotl32(XorWords(s[b], s[c]), 7)]
  }

  function DoubleRounds(s: seq<u32>, n: nat): (t: seq<u32>)
    requires |s| == 16
    ensures |t| == 16
  {
    if n == 0 then s
    else
      var s := DoubleRounds(s, n - 1);
      var s := QuarterRound(s, 0, 4, 8, 12);
      var s := QuarterRound(s, 1, 5, 9, 13);
      var s := QuarterRound(s, 2, 6, 10, 14);
      var s := QuarterRound(s, 3, 7, 11, 15);
      var s := QuarterRound(s, 0, 5, 10, 15);
      var s := QuarterRound(s, 1, 6, 11, 12);
      var s := QuarterRound(s, 2, 7, 8, 13);
      QuarterRound(s, 3, 4, 9, 14)
  }

  /** chacha20_rounds */
  function Rounds(s: seq<u32>): (t: seq<u32>)
    requires |s| == 16
    ensures |t| == 16
  {
    DoubleRounds(s, 10)
  }

  function Word(s: seq<byte>, i: nat): (w: u32)
    requires 4 * i + 4 <= |s|
  {
    Load32Value(s[4 * i..]);
    Load32(s[4 * i..])
  }

  lemma WordIs(s: seq<byte>, i: nat)
    requires 4 * i + 4 <= |s|
    ensures Word(s, i) == LE(s[4 * i..4 * i + 4])
  {
    hide LE, Load32;
    Load32Value(s[4 * i..]);
    assert s[4 * i..][..4] == s[4 * i..4 * i + 4];
  }

  const EXPA: u32 := 0x61707865
  const ND3: u32 := 0x3320646e
  const BY2: u32 := 0x79622d32
  const TEK: u32 := 0x6b206574

  /** chacha20_init_key, and the four words after the key. */
  function InitialState(key: seq<byte>, w12: u32, w13: u32, w14: u32, w15: u32): (s: seq<u32>)
    requires |key| == 32
    ensures |s| == 16
  {
    [EXPA, ND3, BY2, TEK, Word(key, 0), Word(key, 1), Word(key, 2), Word(key, 3),
     Word(key, 4), Word(key, 5), Word(key, 6), Word(key, 7), w12, w13, w14, w15]
  }

  function CounterState(key: seq<byte>, nonce: seq<byte>, ctr: u64): (s: seq<u32>)
    requires |key| == 32 && |nonce| == 8
    ensures |s| == 16
  {
    InitialState(key, ctr % TWO32, ctr / TWO32, Word(nonce, 0), Word(nonce, 1))
  }

  function Serialize(s: seq<u32>): (b: seq<byte>)
    ensures |b| == 4 * |s|
  {
    if s == [] then [] else Store32(s[0]) + Serialize(s[1..])
  }

  function AddStates(s: seq<u32>, t: seq<u32>): (r: seq<u32>)
    requires |s| == |t|
    ensures |r| == |s|
  {
    seq(|s|, i requires 0 <= i < |s| => Add32(s[i], t[i]))
  }

  /** 64 bytes of key stream. */
  function KeyBlock(state: seq<u32>): (b: seq<byte>)
    requires |state| == 16
    ensures |b| == 64
  {
    Serialize(AddStates(Rounds(state), state))
  }

  // ---------------------------------------------------------------------
  // The key stream
  // ---------------------------------------------------------------------

  /** Byte i of the key stream that starts with block ctr; the counter wraps at 2^64. */
  function StreamByte(key: seq<byte>, nonce: seq<byte>, ctr: u64, i: nat): (b: byte)
    requires |key| == 32 && |nonce| == 8
  {
    KeyBlock(CounterState(key, nonce, (ctr as int + i / 64) % TWO64))[i % 64]
  }

  function XorByte(a: byte, b: byte): (c: byte) {
    BitwiseByte(a, b);
    Xor(a, b)
  }

  lemma BitwiseByte(a: byte, b: byte)
    ensures Xor(a, b) < 256
  {
    Pow2Values();
    hide Pow2;
    BitwiseBound(XOR, 8, a, b);
  }

  /** Text xored with the key stream from byte off of the stream on. */
  function EncryptFrom(key: seq<byte>, nonce: seq<byte>, ctr: u64, off: nat, text: seq<byte>): (c: seq<byte>)
    requires |key| == 32 && |nonce| == 8
    ensures |c| == |text|
  {
    hide StreamByte, XorByte;
    seq(|text|, i requires 0 <= i < |text| => XorByte(StreamByte(key, nonce, ctr, off + i), text[i]))
  }

  function Encrypt(key: seq<byte>, nonce: seq<byte>, ctr: u64, text: seq<byte>): (c: seq<byte>)
    requires |key| == 32 && |nonce| == 8
    ensures |c| == |text|
  {
    EncryptFrom(key, nonce, ctr, 0, text)
  }

  /** Byte i of a text is xored with byte i % 64 of the block that is i / 64 after the first one. */
  lemma EncryptByte(key: seq<byte>, nonce: seq<byte>, ctr: u64, text: seq<byte>, i: nat, block: seq<byte>)
    requires |key| == 32 && |nonce| == 8 && i < |text| && |block| == 64
    requires block == KeyBlock(CounterState(key, nonce, (ctr as int + i / 64) % 0x1_0000_0000_0000_0000))
    ensures Encrypt(key, nonce, ctr, text)[i] == XorByte(block[i % 64], text[i])
  {
    hide KeyBlock, CounterState, XorByte;
    assert StreamByte(key, nonce, ctr, 0 + i) == block[i % 64];
    hide StreamByte;
  }

  /** A text may be encrypted piece by piece. */
  lemma EncryptSplit(key: seq<byte>, nonce: seq<byte>, ctr: u64, off: nat, a: seq<byte>, b: seq<byte>)
    requires |key| == 32 && |nonce| == 8
    ensures EncryptFrom(key, nonce, ctr, off, a + b)
         == EncryptFrom(key, nonce, ctr, off, a) + EncryptFrom(key, nonce, ctr, off + |a|, b)
  {
    hide StreamByte, XorByte;
  }

  /** Encryption is its own inverse. */
  lemma EncryptTwice(key: seq<byte>, nonce: seq<byte>, ctr: u64, off: nat, text: seq<byte>)
    requires |key| == 32 && |nonce| == 8
    ensures EncryptFrom(key, nonce, ctr, off, EncryptFrom(key, nonce, ctr, off, text)) == text
  {
    hide StreamByte;
    var c := EncryptFrom(key, nonce, ctr, off, text);
    forall i | 0 <= i < |text| ensures XorByte(StreamByte(key, nonce, ctr, off + i), c[i]) == text[i] {
      XorByteTwice(StreamByte(key, nonce, ctr, off + i), text[i]);
    }
  }

  lemma XorByteTwice(s: byte, x: byte)
    ensures XorByte(s, XorByte(s, x)) == x
  {
    XorCommutes(s, x);
    XorInvolution(x, s);
    XorCommutes(s, Xor(x, s));
  }

  // ---------------------------------------------------------------------
  // chacha20_core
  // ---------------------------------------------------------------------

  lemma {:induction false} SerializeAt(s: seq<u32>, j: nat)
    requires j < |s|
    ensures Serialize(s)[..4 * j + 4] == Serialize(s)[..4 * j] + Store32(s[j])
  {
    hide Store32;
    if j == 0 {
    } else {
      SerializeAt(s[1..], j - 1);
      var t := Serialize(s[1..]);
      assert Serialize(s)[..4 * j + 4] == Store32(s[0]) + t[..4 * j];
      assert Serialize(s)[..4 * j] == Store32(s[0]) + t[..4 * (j - 1)];
    }
  }

  lemma SerializeWord(s: seq<u32>, j: nat)
    requires j < |s|
    ensures LE(Serialize(s)[4 * j..4 * j + 4]) == s[j]
  {
    SerializeAt(s, j);
    Store32Value(s[j]);
    hide LE, Store32;
    var t := Serialize(s);
    assert t[4 * j..4 * j + 4] == t[..4 * j + 4][4 * j..];
  }

  /** Byte strings xored. */
  function XorSeq(a: seq<byte>, b: seq<byte>): (c: seq<byte>)
    requires |a| == |b|
    ensures |c| == |a|
  {
    hide XorByte;
    seq(|a|, i requires 0 <= i < |a| => XorByte(a[i], b[i]))
  }

  /** Xoring words is xoring their bytes. */
  lemma StoredXor(p: u32, text: seq<byte>)
    requires |text| == 4
    ensures Load32(text) < TWO32 && Store32(XorWords(p, Load32(text))) == XorSeq(Store32(p), text)
  {
    hide Store32, XorByte;
    Load32Value(text);
    assert text[..4] == text;
    var w := Load32(text);
    hide Load32;
    var c := XorSeq(Store32(p), text);
    FourXors(Store32(p), text, c);
    Store32Value(p);
    Store32Value(XorWords(p, w));
    hide LE, XorSeq;
    LEInjective(Store32(XorWords(p, w)), c);
  }

  lemma FourXors(a: seq<byte>, b: seq<byte>, c: seq<byte>)
    requires |a| == |b| == 4 && c == XorSeq(a, b)
    ensures 0 <= LE(a) && 0 <= LE(b) && LE(c) == Xor(LE(a), LE(b))
  {
    hide LE, Bitwise;
    BitwiseBytes(XOR, a, b, c);
  }

  lemma XorZeros(a: seq<byte>, z: seq<byte>)
    requires |a| == |z| && ZeroFrom(z, 0)
    ensures XorSeq(a, z) == a
  {
    forall i | 0 <= i < |a| ensures XorByte(a[i], z[i]) == a[i] { ZeroIdentity(XOR, a[i]); }
    hide XorByte;
  }

  /** Where the plain text is read from: no buffer stands for zeros, and the buffer may be the output. */
  ghost predicate Reads(plainText: array?<byte>, text: seq<byte>, from: nat)
    reads plainText
  {
    if plainText == null then ZeroFrom(text, 0)
    else |text| <= plainText.Length && forall i :: from <= i < |text| ==> plainText[i] == text[i]
  }

  /** A buffer gets the text from at to end, xored with the key stream ks, and is left alone elsewhere. */
  ghost predicate Written(was: seq<byte>, now: seq<byte>, at: nat, end: nat, ks: seq<byte>, text: seq<byte>) {
    && at <= end <= |text| <= |was| == |now| && |ks| == end - at
    && (forall i :: 0 <= i < |was| && !(at <= i < end) ==> now[i] == was[i])
    && (forall i :: at <= i < end ==> now[i] == XorByte(ks[i - at], text[i]))
  }

  lemma WrittenNothing(s: seq<byte>, at: nat, text: seq<byte>)
    requires at <= |text| <= |s|
    ensures Written(s, s, at, at, [], text)
  {
  }

  lemma WrittenJoin(was: seq<byte>, mid: seq<byte>, now: seq<byte>, a: nat, b: nat, c: nat,
                    k1: seq<byte>, k2: seq<byte>, text: seq<byte>)
    requires Written(was, mid, a, b, k1, text) && Written(mid, now, b, c, k2, text)
    ensures Written(was, now, a, c, k1 + k2, text)
  {
    hide XorByte;
    forall i | a <= i < c ensures now[i] == XorByte((k1 + k2)[i - a], text[i]) {
      if i < b { assert (k1 + k2)[i - a] == k1[i - a]; } else { assert (k1 + k2)[i - a] == k2[i - b]; }
    }
  }

  /** One word of output. */
  method WordOut(cipherText: array<byte>, plainText: array?<byte>, at: nat, p: u32, ghost text: seq<byte>)
    requires at + 4 <= |text| <= cipherText.Length && Reads(plainText, text, at)
    modifies cipherText
    ensures Written(old(cipherText[..]), cipherText[..], at, at + 4, Store32(p), text)
    ensures Reads(plainText, text, at + 4)
  {
    hide Store32, XorByte, Load32;
    if plainText != null {
      assert plainText[at..at + 4] == text[at..at + 4];
      StoredXor(p, plainText[at..at + 4]);
      StoreWord(cipherText, at, XorWords(p, Load32(plainText[at..at + 4])));
    } else {
      XorZeros(Store32(p), text[at..at + 4]);
      StoreWord(cipherText, at, p);
    }
    WordWritten(old(cipherText[..]), cipherText[..], at, p, text);
  }

  lemma WordWritten(was: seq<byte>, now: seq<byte>, at: nat, p: u32, text: seq<byte>)
    requires at + 4 <= |text| <= |was| == |now|
    requires forall i :: 0 <= i < |was| && !(at <= i < at + 4) ==> now[i] == was[i]
    requires now[at..at + 4] == XorSeq(Store32(p), text[at..at + 4])
    ensures Written(was, now, at, at + 4, Store32(p), text)
  {
    hide Store32, XorByte;
    forall i | at <= i < at + 4 ensures now[i] == XorByte(Store32(p)[i - at], text[i]) {
      assert now[i] == now[at..at + 4][i - at];
    }
  }

  /** One whole block of output. */
  method BlockOut(input: array<u32>, cipherText: array<byte>, plainText: array?<byte>, at: nat, ghost text: seq<byte>)
    requires input.Length == 16 && at + 64 <= |text| <= cipherText.Length && Reads(plainText, text, at)
    modifies cipherText
    ensures Written(old(cipherText[..]), cipherText[..], at, at + 64, KeyBlock(input[..]), text)
    ensures Reads(plainText, text, at + 64)
  {
    hide *;
    var pool := Rounds(input[..]);
    ghost var sum := AddStates(pool, input[..]);
    BlockBytes(input[..]);
    WrittenNothing(cipherText[..], at, text);
    for j := 0 to 16
      invariant Written(old(cipherText[..]), cipherText[..], at, at + 4 * j, Serialize(sum)[..4 * j], text)
      invariant Reads(plainText, text, at + 4 * j)
    {
      SerializeAt(sum, j);
      SumAt(pool, input[..], j);
      ghost var before := cipherText[..];
      WordOut(cipherText, plainText, at + 4 * j, Add32(pool[j], input[j]), text);
      WrittenJoin(old(cipherText[..]), before, cipherText[..], at, at + 4 * j, at + 4 * j + 4,
                  Serialize(sum)[..4 * j], Store32(sum[j]), text);
    }
  }

  lemma BlockBytes(state: seq<u32>)
    requires |state| == 16
    ensures var ks := Serialize(AddStates(Rounds(state), state));
            |ks| == 64 && ks[..0] == [] && ks[..64] == ks == KeyBlock(state)
  {
    hide Rounds, Serialize, AddStates;
  }

  lemma SumAt(s: seq<u32>, t: seq<u32>, j: nat)
    requires |s| == |t| && j < |s|
    ensures AddStates(s, t)[j] == Add32(s[j], t[j])
  {
  }

  /** input[12]++, carrying into input[13]. */
  method NextBlock(input: array<u32>, ghost key: seq<byte>, ghost nonce: seq<byte>, ghost ctr: u64)
    requires |key| == 32 && |nonce| == 8 && input.Length == 16 && input[..] == CounterState(key, nonce, ctr)
    modifies input
    ensures input[..] == CounterState(key, nonce, (ctr as int + 1) % TWO64)
  {
    hide Word;
    input[12] := Add32(input[12], 1);
    if input[12] == 0 {
      input[13] := Add32(input[13], 1);
    }
    CounterHalves(ctr);
  }

  lemma CounterHalves(ctr: u64)
    ensures (ctr as int + 1) % TWO64 % TWO32 == (ctr % TWO32 + 1) % TWO32
    ensures (ctr as int + 1) % TWO64 / TWO32
         == (ctr / TWO32 + (if (ctr % TWO32 + 1) % TWO32 == 0 then 1 else 0)) % TWO32
  {
    var h, l := ctr / TWO32, ctr % TWO32;
    assert ctr == h * TWO32 + l && 0 <= h < TWO32;
    if l + 1 < TWO32 {
      DivModUnique(ctr + 1, TWO64, 0, ctr + 1);
      DivModUnique(ctr + 1, TWO32, h, l + 1);
      DivModUnique(l + 1, TWO32, 0, l + 1);
      DivModUnique(h, TWO32, 0, h);
    } else if h + 1 < TWO32 {
      DivModUnique(ctr + 1, TWO64, 0, ctr + 1);
      DivModUnique(ctr + 1, TWO32, h + 1, 0);
      DivModUnique(h + 1, TWO32, 0, h + 1);
    } else {
      DivModUnique(ctr + 1, TWO64, 1, 0);
    }
  }

  /** n bytes of the key stream, from byte off on. */
  ghost function Stream(key: seq<byte>, nonce: seq<byte>, ctr: u64, off: nat, n: nat): (ks: seq<byte>)
    requires |key| == 32 && |nonce| == 8
    ensures |ks| == n
  {
    seq<byte>(n, i requires 0 <= i < n => StreamByte(key, nonce, ctr, off + i))
  }

  lemma StreamNext(key: seq<byte>, nonce: seq<byte>, ctr: u64, off: nat, n: nat)
    requires |key| == 32 && |nonce| == 8
    ensures Stream(key, nonce, ctr, off, n + 1) == Stream(key, nonce, ctr, off, n) + [StreamByte(key, nonce, ctr, off + n)]
    ensures Stream(key, nonce, ctr, off, 0) == []
  {
    hide StreamByte;
  }

  ghost function Counter(ctr: u64, blocks: nat): (c: u64) {
    (ctr as int + blocks) % TWO64
  }

  /** Block i of the key stream. */
  lemma StreamBlock(key: seq<byte>, nonce: seq<byte>, ctr: u64, i: nat, n: nat)
    requires |key| == 32 && |nonce| == 8 && n <= 64
    ensures Stream(key, nonce, ctr, 0, 64 * i + n)
         == Stream(key, nonce, ctr, 0, 64 * i) + KeyBlock(CounterState(key, nonce, Counter(ctr, i)))[..n]
  {
    hide KeyBlock, CounterState;
    forall k | 0 <= k < n
      ensures StreamByte(key, nonce, ctr, 64 * i + k) == KeyBlock(CounterState(key, nonce, Counter(ctr, i)))[..n][k]
    {
      assert (64 * i + k) / 64 == i && (64 * i + k) % 64 == k;
    }
    hide StreamByte;
  }

  lemma WrittenAll(was: seq<byte>, now: seq<byte>, key: seq<byte>, nonce: seq<byte>, ctr: u64, off: nat, text: seq<byte>)
    requires |key| == 32 && |nonce| == 8
    requires Written(was, now, 0, |text|, Stream(key, nonce, ctr, off, |text|), text)
    ensures |text| <= |was| == |now| && now[..|text|] == EncryptFrom(key, nonce, ctr, off, text)
    ensures now[|text|..] == was[|text|..]
  {
    hide StreamByte, XorByte;
  }

  /** One key stream block in a temporary buffer: storing it is xoring it with nothing. */
  method KeyBlockOut(input: array<u32>, pool: array<byte>)
    requires input.Length == 16 && pool.Length == 64
    modifies pool
    ensures pool[..] == KeyBlock(input[..])
  {
    ghost var zeros := seq(64, i => 0 as byte);
    hide KeyBlock;
    BlockOut(input, pool, null, 0, zeros);
    WrittenZeros(old(pool[..]), pool[..], KeyBlock(input[..]), zeros);
  }

  lemma WrittenZeros(was: seq<byte>, now: seq<byte>, ks: seq<byte>, zeros: seq<byte>)
    requires |was| == |zeros| && ZeroFrom(zeros, 0) && Written(was, now, 0, |zeros|, ks, zeros)
    ensures now == ks
  {
    forall i | 0 <= i < |now| ensures now[i] == ks[i] { ZeroIdentity(XOR, ks[i]); }
  }

  /** The last, incomplete block: n bytes from a temporary buffer. */
  method PartialOut(input: array<u32>, cipherText: array<byte>, plainText: array?<byte>, at: nat, n: nat,
                    ghost text: seq<byte>)
    requires input.Length == 16 && n < 64 && at + n == |text| <= cipherText.Length && Reads(plainText, text, at)
    modifies cipherText
    ensures Written(old(cipherText[..]), cipherText[..], at, |text|, KeyBlock(input[..])[..n], text)
  {
    hide KeyBlock, Written, XorByte;
    var tmp := new byte[64];
    KeyBlockOut(input, tmp);
    ghost var ks := KeyBlock(input[..]);
    WrittenNothing(cipherText[..], at, text);
    assert ks[..0] == [];
    for i := 0 to n
      invariant Written(old(cipherText[..]), cipherText[..], at, at + i, ks[..i], text)
      invariant Reads(plainText, text, at + i) && tmp[..] == ks
    {
      ghost var before := cipherText[..];
      var plain := ReadByte(plainText, at + i, text);
      cipherText[at + i] := XorByte(tmp[i], plain);
      ByteWritten(before, cipherText[..], at + i, ks[i], text);
      WrittenJoin(old(cipherText[..]), before, cipherText[..], at, at + i, at + i + 1, ks[..i], [ks[i]], text);
      assert ks[..i + 1] == ks[..i] + [ks[i]];
    }
  }

  method ReadByte(plainText: array?<byte>, i: nat, ghost text: seq<byte>) returns (b: byte)
    requires i < |text| && Reads(plainText, text, i)
    ensures b == text[i]
  {
    b := if plainText == null then 0 else plainText[i];
  }

  lemma ByteWritten(was: seq<byte>, now: seq<byte>, i: nat, k: byte, text: seq<byte>)
    requires i < |text| <= |was| && now == was[i := XorByte(k, text[i])]
    ensures Written(was, now, i, i + 1, [k], text)
  {
  }

  lemma WrittenStart(s: seq<byte>, key: seq<byte>, nonce: seq<byte>, ctr: u64, text: seq<byte>)
    requires |key| == 32 && |nonce| == 8 && |text| <= |s|
    ensures Written(s, s, 0, 0, Stream(key, nonce, ctr, 0, 0), text) && Counter(ctr, 0) == ctr
  {
  }

  lemma CounterNext(ctr: u64, i: nat)
    ensures Counter(ctr, i + 1) == (Counter(ctr, i) as int + 1) % TWO64
  {
    ModAdd(ctr as int + i, 1, TWO64);
  }

  lemma CounterEnd(ctr: u64, n: nat)
    ensures (Counter(ctr, n / 64) as int + (if n % 64 > 0 then 1 else 0)) % TWO64 == (ctr as int + (n + 63) / 64) % TWO64
  {
    ModAdd(ctr as int + n / 64, if n % 64 > 0 then 1 else 0, TWO64);
    assert n / 64 + (if n % 64 > 0 then 1 else 0) == (n + 63) / 64;
  }

  method ReadCounter(input: array<u32>, partial: bool, ghost key: seq<byte>, ghost nonce: seq<byte>, ghost ctr: u64)
    returns (next: u64)
    requires |key| == 32 && |nonce| == 8 && input.Length == 16 && input[..] == CounterState(key, nonce, ctr)
    ensures next == (ctr as int + (if partial then 1 else 0)) % TWO64
  {
    hide Word;
    var low: int, high: int := input[12], input[13];
    next := (low + high * TWO32 + (if partial then 1 else 0)) % TWO64;
  }

  /** After i whole blocks. */
  ghost predicate Progress(was: seq<byte>, cipherText: array<byte>, plainText: array?<byte>, input: array<u32>,
                           key: seq<byte>, nonce: seq<byte>, ctr: u64, text: seq<byte>, i: nat)
    reads cipherText, plainText, input
  {
    && |key| == 32 && |nonce| == 8 && input.Length == 16 && 64 * i <= |text| <= cipherText.Length
    && Written(was, cipherText[..], 0, 64 * i, Stream(key, nonce, ctr, 0, 64 * i), text)
    && Reads(plainText, text, 64 * i) && input[..] == CounterState(key, nonce, Counter(ctr, i))
  }

  /** The body of the loop over whole blocks. */
  method WholeBlock(input: array<u32>, cipherText: array<byte>, plainText: array?<byte>, i: nat, ghost was: seq<byte>,
                    ghost key: seq<byte>, ghost nonce: seq<byte>, ghost ctr: u64, ghost text: seq<byte>)
    requires Progress(was, cipherText, plainText, input, key, nonce, ctr, text, i) && 64 * i + 64 <= |text|
    modifies input, cipherText
    ensures Progress(was, cipherText, plainText, input, key, nonce, ctr, text, i + 1)
  {
    hide KeyBlock, CounterState, Written, Reads, Stream, Counter;
    ghost var before := cipherText[..];
    BlockOut(input, cipherText, plainText, 64 * i, text);
    StreamBlock(key, nonce, ctr, i, 64);
    ghost var ks := KeyBlock(input[..]);
    assert ks[..64] == ks;
    WrittenJoin(was, before, cipherText[..], 0, 64 * i, 64 * i + 64, Stream(key, nonce, ctr, 0, 64 * i), ks, text);
    NextBlock(input, key, nonce, Counter(ctr, i));
    CounterNext(ctr, i);
  }

  /** The incomplete block, if there is one. */
  method LastBlock(input: array<u32>, cipherText: array<byte>, plainText: array?<byte>, i: nat, rest: nat,
                   ghost was: seq<byte>, ghost key: seq<byte>, ghost nonce: seq<byte>, ghost ctr: u64, ghost text: seq<byte>)
    requires Progress(was, cipherText, plainText, input, key, nonce, ctr, text, i)
    requires 64 * i + rest == |text| && rest < 64
    modifies cipherText
    ensures Written(was, cipherText[..], 0, |text|, Stream(key, nonce, ctr, 0, |text|), text)
  {
    hide KeyBlock, CounterState, Written, Reads, Stream, Counter;
    if rest > 0 {
      ghost var before := cipherText[..];
      PartialOut(input, cipherText, plainText, 64 * i, rest, text);
      StreamBlock(key, nonce, ctr, i, rest);
      WrittenJoin(was, before, cipherText[..], 0, 64 * i, |text|, Stream(key, nonce, ctr, 0, 64 * i),
                  KeyBlock(input[..])[..rest], text);
    }
  }

  /** chacha20_core: any number of whole blocks, then an incomplete one. The result is the counter after
      the last block that was used, which an incomplete block advances too. */
  method Core(input: array<u32>, cipherText: array<byte>, plainText: array?<byte>, textSize: nat,
              ghost key: seq<byte>, ghost nonce: seq<byte>, ghost ctr: u64, ghost text: seq<byte>) returns (next: u64)
    requires |key| == 32 && |nonce| == 8 && input.Length == 16 && input[..] == CounterState(key, nonce, ctr)
    requires textSize == |text| <= cipherText.Length && Reads(plainText, text, 0)
    modifies input, cipherText
    ensures Written(old(cipherText[..]), cipherText[..], 0, |text|, Stream(key, nonce, ctr, 0, |text|), text)
    ensures next == (ctr as int + (|text| + 63) / 64) % TWO64
  {
    hide CounterState, Written, Reads, Stream, Counter;
    var nbBlocks := textSize / 64;
    ghost var was := cipherText[..];
    WrittenStart(was, key, nonce, ctr, text);
    for i := 0 to nbBlocks
      invariant Progress(was, cipherText, plainText, input, key, nonce, ctr, text, i)
    {
      WholeBlock(input, cipherText, plainText, i, was, key, nonce, ctr, text);
    }
    LastBlock(input, cipherText, plainText, nbBlocks, textSize % 64, was, key, nonce, ctr, text);
    next := ReadCounter(input, textSize % 64 > 0, key, nonce, Counter(ctr, nbBlocks));
    CounterEnd(ctr, |text|);
  }

  /** crypto_chacha20_ctr. The plain text may be in the output buffer, or absent for the bare key stream. */
  method CryptoChaCha20Ctr(cipherText: array<byte>, plainText: array?<byte>, textSize: nat,
                           key: seq<byte>, nonce: seq<byte>, ctr: u64, ghost text: seq<byte>) returns (next: u64)
    requires |key| == 32 && |nonce| == 8
    requires textSize == |text| <= cipherText.Length && Reads(plainText, text, 0)
    modifies cipherText
    ensures cipherText[..textSize] == Encrypt(key, nonce, ctr, text)
    ensures cipherText[textSize..] == old(cipherText[textSize..])
    ensures next == (ctr as int + (textSize + 63) / 64) % TWO64
  {
    hide CounterState, Written, Reads, Stream, EncryptFrom, Serialize, KeyBlock;
    var state := CounterState(key, nonce, ctr);
    var input := new u32[16](i requires 0 <= i < 16 => state[i]);
    assert input[..] == state;
    next := Core(input, cipherText, plainText, textSize, key, nonce, ctr, text);
    WrittenAll(old(cipherText[..]), cipherText[..], key, nonce, ctr, 0, text);
  }
}
