/** XChaCha20-Poly1305 in one call: crypto_lock_aead and crypto_unlock_aead. */
module Aead {
  import opened Words
  import opened Bits
  import opened ChaCha20
  import opened Poly1305
  import Poly1305Stream

  // ---------------------------------------------------------------------
  // Specification
  // ---------------------------------------------------------------------

  /** crypto_hchacha20 */
  function HChaCha20(key: seq<byte>, input: seq<byte>): (subKey: seq<byte>)
    requires |key| == 32 && |input| == 16
    ensures |subKey| == 32
  {
    hide *;
    var block := Rounds(InitialState(key, Word(input, 0), Word(input, 1), Word(input, 2), Word(input, 3)));
    Serialize(block[..4] + block[12..16])
  }

  /** crypto_hchacha20 keeps the first and the last four words of the rounds, without adding what they were before. */
  lemma HChaCha20Words(key: seq<byte>, input: seq<byte>, s: seq<u32>, j: nat)
    requires |key| == 32 && |input| == 16 && |s| == 16 && j < 4
    requires s[0] == 0x61707865 && s[1] == 0x3320646e && s[2] == 0x79622d32 && s[3] == 0x6b206574
    requires forall i :: 0 <= i < 8 ==> s[4 + i] == LE(key[4 * i..4 * i + 4])
    requires forall i :: 0 <= i < 4 ==> s[12 + i] == LE(input[4 * i..4 * i + 4])
    ensures LE(HChaCha20(key, input)[4 * j..4 * j + 4]) == Rounds(s)[j]
    ensures LE(HChaCha20(key, input)[16 + 4 * j..20 + 4 * j]) == Rounds(s)[12 + j]
  {
    StartState(key, input, s);
    HChaCha20Is(key, input, s);
    hide *;
    KeptWords(Rounds(s), j);
  }

  lemma KeptWords(t: seq<u32>, j: nat)
    requires |t| == 16 && j < 4
    ensures var b := Serialize(t[..4] + t[12..16]);
            |b| == 32 && LE(b[4 * j..4 * j + 4]) == t[j] && LE(b[16 + 4 * j..20 + 4 * j]) == t[12 + j]
  {
    var kept := t[..4] + t[12..16];
    hide *;
    SerializeWord(kept, j);
    SerializeWord(kept, 4 + j);
    assert 4 * (4 + j) == 16 + 4 * j && 4 * (4 + j) + 4 == 20 + 4 * j;
  }

  lemma HChaCha20Is(key: seq<byte>, input: seq<byte>, s: seq<u32>)
    requires |key| == 32 && |input| == 16 && |s| == 16
    requires s == InitialState(key, Word(input, 0), Word(input, 1), Word(input, 2), Word(input, 3))
    ensures HChaCha20(key, input) == Serialize(Rounds(s)[..4] + Rounds(s)[12..16])
  {
    hide Rounds, Serialize, InitialState, Word;
  }

  lemma StartState(key: seq<byte>, input: seq<byte>, s: seq<u32>)
    requires |key| == 32 && |input| == 16 && |s| == 16
    requires s[0] == 0x61707865 && s[1] == 0x3320646e && s[2] == 0x79622d32 && s[3] == 0x6b206574
    requires forall i :: 0 <= i < 8 ==> s[4 + i] == LE(key[4 * i..4 * i + 4])
    requires forall i :: 0 <= i < 4 ==> s[12 + i] == LE(input[4 * i..4 * i + 4])
    ensures s == InitialState(key, Word(input, 0), Word(input, 1), Word(input, 2), Word(input, 3))
  {
    hide LE, Load32;
    forall i | 0 <= i < 8 ensures s[4 + i] == Word(key, i) { WordIs(key, i); }
    forall i | 0 <= i < 4 ensures s[12 + i] == Word(input, i) { WordIs(input, i); }
    hide Word;
    assert s[4] == s[4 + 0] && s[12] == s[12 + 0];
  }

  /** The zeros that fill up a block of 16 bytes. */
  function Padding(size: nat): (s: seq<byte>) {
    Zeros((16 - size % 16) % 16)
  }

  /** What the tag is computed over, section 2.8 of RFC 8439. */
  function AuthData(ad: seq<byte>, text: seq<byte>): (s: seq<byte>)
    requires |ad| < TWO64 && |text| < TWO64
  {
    ad + Padding(|ad|) + text + Padding(|text|) + Store64(|ad|) + Store64(|text|)
  }

  /** Where everything is in the authenticated string: additional data and cipher text from multiples of 16 on, zeros
      between them, and both lengths in the last 16 bytes. */
  lemma AuthDataLayout(ad: seq<byte>, text: seq<byte>, a: nat, t: nat)
    requires |ad| < TWO64 && |text| < TWO64
    requires a == (|ad| + 15) / 16 * 16 && t == a + (|text| + 15) / 16 * 16
    ensures var d := AuthData(ad, text);
            && |d| == t + 16 && d[..|ad|] == ad && d[a..a + |text|] == text
            && (forall i :: |ad| <= i < a || a + |text| <= i < t ==> d[i] == 0)
            && LE(d[t..]) == |ad| + 0x1_0000_0000_0000_0000 * |text|
  {
    hide LE, Store64;
    FilledUp(|ad|);
    FilledUp(|text|);
    LengthBytes(|ad|, |text|);
    var d, lengths := AuthData(ad, text), Store64(|ad|) + Store64(|text|);
    assert d == ad + Padding(|ad|) + text + Padding(|text|) + lengths;
    assert d[t..] == lengths;
  }

  lemma FilledUp(n: nat)
    ensures n + |Padding(n)| == (n + 15) / 16 * 16
  {
  }

  lemma LengthBytes(a: u64, t: u64)
    ensures LE(Store64(a) + Store64(t)) == a as int + 0x1_0000_0000_0000_0000 * t as int
  {
    hide LE, Store64, Pow256;
    Store64Value(a);
    Store64Value(t);
    Pow256Values();
    LEAppend(Store64(a), Store64(t));
  }

  function SubKey(key: seq<byte>, nonce: seq<byte>): (subKey: seq<byte>)
    requires |key| == 32 && |nonce| == 24
    ensures |subKey| == 32
  {
    HChaCha20(key, nonce[..16])
  }

  /** The first half of key stream block 0. */
  function AuthKey(key: seq<byte>, nonce: seq<byte>): (authKey: seq<byte>)
    requires |key| == 32 && |nonce| == 24
    ensures |authKey| == 32
  {
    hide *;
    KeyBlock(CounterState(SubKey(key, nonce), nonce[16..], 0))[..32]
  }

  function LockedText(key: seq<byte>, nonce: seq<byte>, text: seq<byte>): (cipher: seq<byte>)
    requires |key| == 32 && |nonce| == 24
    ensures |cipher| == |text|
  {
    hide *;
    Encrypt(SubKey(key, nonce), nonce[16..], 1, text)
  }

  ghost function LockTag(key: seq<byte>, nonce: seq<byte>, ad: seq<byte>, cipher: seq<byte>): int
    requires |key| == 32 && |nonce| == 24 && |ad| < TWO64 && |cipher| < TWO64
  {
    Tag(AuthKey(key, nonce), AuthData(ad, cipher))
  }

  /** Byte i of the text meets byte i % 64 of block 1 + i / 64 of the key stream under the derived key. */
  lemma LockedByte(key: seq<byte>, nonce: seq<byte>, text: seq<byte>, i: nat, sub: seq<byte>, ctr: u64,
                   block: seq<byte>)
    requires |key| == 32 && |nonce| == 24 && i < |text| && sub == HChaCha20(key, nonce[..16])
    requires ctr == (1 + i / 64) % 0x1_0000_0000_0000_0000
    requires |block| == 64 && block == KeyBlock(CounterState(sub, nonce[16..], ctr))
    ensures LockedText(key, nonce, text)[i] == XorByte(block[i % 64], text[i])
  {
    hide HChaCha20, KeyBlock, CounterState, XorByte, Encrypt;
    EncryptByte(sub, nonce[16..], 1, text, i, block);
  }

  /** The first half of block 0 authenticates. */
  lemma LockTagIs(key: seq<byte>, nonce: seq<byte>, ad: seq<byte>, cipher: seq<byte>, sub: seq<byte>, first: seq<byte>)
    requires |key| == 32 && |nonce| == 24 && |ad| < TWO64 && |cipher| < TWO64 && sub == HChaCha20(key, nonce[..16])
    requires |first| == 64 && first == KeyBlock(CounterState(sub, nonce[16..], 0))
    ensures LockTag(key, nonce, ad, cipher) == Tag(first[..32], AuthData(ad, cipher))
  {
    hide HChaCha20, KeyBlock, CounterState, Tag, AuthData;
  }

  /** Unlocking is locking again. */
  lemma LockedTwice(key: seq<byte>, nonce: seq<byte>, text: seq<byte>)
    requires |key| == 32 && |nonce| == 24
    ensures LockedText(key, nonce, LockedText(key, nonce, text)) == text
  {
    hide EncryptFrom, SubKey;
    EncryptTwice(SubKey(key, nonce), nonce[16..], 1, 0, text);
  }

  // ---------------------------------------------------------------------
  // lock_auth
  // ---------------------------------------------------------------------

  lemma AlignIsPadding(size: u64)
    ensures Zeros(Align(size, 16)) == Padding(size) && Align(size, 16) < 16
  {
    AlignValue(size);
    hide Align;
  }

  method LockAuth(mac: array<byte>, authKey: seq<byte>, ad: seq<byte>, cipherText: seq<byte>)
    requires mac.Length >= 16 && |authKey| == 32 && |ad| < TWO64 && |cipherText| < TWO64
    modifies mac
    ensures LE(mac[..16]) == Tag(authKey, AuthData(ad, cipherText))
    ensures mac[16..] == old(mac[16..])
  {
    hide LE, Tag, Zeros, Align, Padding, Store64;
    AlignIsPadding(|ad|);
    AlignIsPadding(|cipherText|);
    var sizes := Store64(|ad|) + Store64(|cipherText|);
    var poly := new Poly1305Stream.Ctx();
    hide *;
    poly.Init(authKey);
    poly.Update(ad);
    poly.Update(Zeros(Align(|ad|, 16)));
    poly.Update(cipherText);
    poly.Update(Zeros(Align(|cipherText|, 16)));
    poly.Update(sizes);
    AuthDataParts(ad, cipherText);
    poly.Final(mac);
  }

  lemma AuthDataParts(ad: seq<byte>, text: seq<byte>)
    requires |ad| < TWO64 && |text| < TWO64
    ensures AuthData(ad, text) == [] + ad + Padding(|ad|) + text + Padding(|text|) + (Store64(|ad|) + Store64(|text|))
  {
    hide Padding, Store64;
  }

  // ---------------------------------------------------------------------
  // crypto_lock_aead, crypto_unlock_aead
  // ---------------------------------------------------------------------

  /** The plain text may be in the buffer that the cipher text is written to. */
  method CryptoLockAead(mac: array<byte>, cipherText: array<byte>, key: seq<byte>, nonce: seq<byte>, ad: seq<byte>,
                        plainText: array?<byte>, textSize: nat, ghost text: seq<byte>)
    requires mac.Length >= 16 && mac != cipherText && |key| == 32 && |nonce| == 24 && |ad| < TWO64
    requires textSize == |text| <= cipherText.Length && |text| < TWO64 && Reads(plainText, text, 0)
    modifies mac, cipherText
    ensures cipherText[..textSize] == LockedText(key, nonce, text)
    ensures cipherText[textSize..] == old(cipherText[textSize..])
    ensures LE(mac[..16]) == LockTag(key, nonce, ad, LockedText(key, nonce, text))
    ensures mac[16..] == old(mac[16..])
  {
    hide LE, Tag, Encrypt, HChaCha20, AuthData, Reads;
    var subKey := HChaCha20(key, nonce[..16]);
    var authKey := MakeAuthKey(key, nonce);
    var _ := CryptoChaCha20Ctr(cipherText, plainText, textSize, subKey, nonce[16..], 1, text);
    LockAuth(mac, authKey, ad, cipherText[..textSize]);
  }

  /** crypto_chacha20(auth_key, 0, 64, sub_key, nonce + 16) */
  method MakeAuthKey(key: seq<byte>, nonce: seq<byte>) returns (authKey: seq<byte>)
    requires |key| == 32 && |nonce| == 24
    ensures authKey == AuthKey(key, nonce)
  {
    hide *;
    var block := new byte[64];
    var subKey, last := SubKey(key, nonce), nonce[16..];
    ghost var zeros := Zeros(64);
    ZerosReads(zeros);
    var _ := CryptoChaCha20Ctr(block, null, 64, subKey, last, 0, zeros);
    FirstBlock(subKey, last, zeros);
    AuthKeyIs(key, nonce, subKey, last, block[..64]);
    authKey := block[..64][..32];
  }

  lemma ZerosReads(zeros: seq<byte>)
    requires zeros == Zeros(64)
    ensures Reads(null, zeros, 0)
  {
  }

  lemma AuthKeyIs(key: seq<byte>, nonce: seq<byte>, sub: seq<byte>, last: seq<byte>, block: seq<byte>)
    requires |key| == 32 && |nonce| == 24 && |sub| == 32 && |last| == 8 && |block| == 64
    requires block == KeyBlock(CounterState(sub, last, 0)) && sub == SubKey(key, nonce) && last == nonce[16..]
    ensures AuthKey(key, nonce) == block[..32]
  {
    hide KeyBlock, CounterState, SubKey;
  }

  lemma EncryptZeros(key: seq<byte>, nonce: seq<byte>, ctr: u64, zeros: seq<byte>)
    requires |key| == 32 && |nonce| == 8 && ZeroFrom(zeros, 0)
    ensures Encrypt(key, nonce, ctr, zeros) == Stream(key, nonce, ctr, 0, |zeros|)
  {
    hide StreamByte, XorByte;
    forall i | 0 <= i < |zeros|
      ensures XorByte(StreamByte(key, nonce, ctr, i), zeros[i]) == StreamByte(key, nonce, ctr, i)
    {
      XorByteZero(StreamByte(key, nonce, ctr, i));
    }
  }

  lemma FirstBlock(key: seq<byte>, nonce: seq<byte>, zeros: seq<byte>)
    requires |key| == 32 && |nonce| == 8 && zeros == Zeros(64)
    ensures Encrypt(key, nonce, 0, zeros) == KeyBlock(CounterState(key, nonce, 0))
  {
    hide Encrypt, KeyBlock, CounterState, Stream;
    EncryptZeros(key, nonce, 0, zeros);
    StreamBlock(key, nonce, 0, 0, 64);
  }

  lemma XorByteZero(a: byte)
    ensures XorByte(a, 0) == a
  {
    ZeroIdentity(XOR, a);
  }

  /** -1, and nothing written, unless the tag matches; then 0, and the text decrypted. */
  method CryptoUnlockAead(plainText: array<byte>, key: seq<byte>, nonce: seq<byte>, mac: seq<byte>, ad: seq<byte>,
                          cipherText: array<byte>, textSize: nat, ghost text: seq<byte>) returns (result: int)
    requires |mac| == 16 && |key| == 32 && |nonce| == 24 && |ad| < TWO64
    requires textSize == |text| <= plainText.Length && |text| < TWO64
    requires textSize <= cipherText.Length && text == cipherText[..textSize]
    modifies plainText
    ensures result == if LE(mac) == LockTag(key, nonce, ad, text) then 0 else -1
    ensures result == 0 ==> plainText[..textSize] == LockedText(key, nonce, text)
    ensures result == 0 ==> plainText[textSize..] == old(plainText[textSize..])
    ensures result != 0 ==> plainText[..] == old(plainText[..])
  {
    hide LE, Tag, Encrypt, HChaCha20, AuthData, KeyBlock;
    var subKey := HChaCha20(key, nonce[..16]);
    var authKey := MakeAuthKey(key, nonce);
    var realMac := new byte[16];
    LockAuth(realMac, authKey, ad, cipherText[..textSize]);
    assert realMac[..16] == realMac[..];
    SameTag(mac, realMac[..]);
    if mac != realMac[..] {
      return -1;
    }
    var _ := CryptoChaCha20Ctr(plainText, cipherText, textSize, subKey, nonce[16..], 1, text);
    return 0;
  }

  lemma SameTag(a: seq<byte>, b: seq<byte>)
    requires |a| == |b|
    ensures LE(a) == LE(b) <==> a == b
  {
    if LE(a) == LE(b) { LEInjective(a, b); }
  }

  /** What crypto_lock_aead made, crypto_unlock_aead accepts and turns back into the plain text. */
  method LockThenUnlock(key: seq<byte>, nonce: seq<byte>, ad: seq<byte>, text: seq<byte>)
    returns (result: int, plain: seq<byte>)
    requires |key| == 32 && |nonce| == 24 && |ad| < TWO64 && |text| < TWO64
    ensures result == 0 && plain == text
  {
    hide LE, LockedText, LockTag;
    var mac := new byte[16];
    var buffer := new byte[|text|](i requires 0 <= i < |text| => text[i]);
    CryptoLockAead(mac, buffer, key, nonce, ad, buffer, |text|, text);
    assert buffer[..|text|] == buffer[..] && mac[..16] == mac[..];
    result := CryptoUnlockAead(buffer, key, nonce, mac[..], ad, buffer, |text|, buffer[..]);
    LockedTwice(key, nonce, text);
    plain := buffer[..|text|];
  }
}
