/** Keys, signatures and their check, written out with the hash, 2^254 and the order of the base point. */
module SignatureLaws {
  import opened Words
  import opened Groups
  import opened Scalars
  import opened ScalarModL
  import opened Comb
  import opened Signatures

  const L: int := 0x1000000000000000000000000000000000000000000000000000000000000000
                  + 27742317777372353535851937790883648493

  /** The secret scalar. */
  lemma SecretScalarIs(H: Hash, secret: seq<byte>, a: int)
    requires Hash64(H)
    ensures |H(secret)| == 64
    ensures a == SecretScalar(H, secret) <==> IsTrimmed(a, LE(H(secret)[..32]))
  {
    LEBound(H(secret)[..32]);
    TrimmedIs(LE(H(secret)[..32]));
    if IsTrimmed(a, LE(H(secret)[..32])) { TrimmedUnique(a, SecretScalar(H, secret), LE(H(secret)[..32])); }
    hide IsTrimmed, LE;
  }

  lemma OrderIs()
    ensures ORDER == L
  {
  }

  lemma PublicKeyWritten<F(!new), G(!new)>(c: Curve<F, G>, H: Hash, secret: seq<byte>, a: int)
    requires Hash64(H) && |H(secret)| == 64 && IsTrimmed(a, LE(H(secret)[..32]))
    ensures PublicKey(c, H, secret) == c.encode(c.group.Times(a, c.base))
  {
    hide *;
    SecretScalarIs(H, secret, a);
    PublicKeyIs(c, H, secret);
  }

  lemma HashScalarIs(H: Hash, data: seq<byte>)
    ensures HashScalar(H, data) == LE(H(data)) % L
  {
    hide LE;
  }

  /** Section 5.1.6 of RFC 8032: R and s from the two halves of the hash of the secret. */
  lemma SignatureWritten<F(!new), G(!new)>(c: Curve<F, G>, H: Hash, secret: seq<byte>, publicKey: seq<byte>,
                                           message: seq<byte>, sig: seq<byte>, a: int, r: int)
    requires Hash64(H) && |H(secret)| == 64 && |sig| == 64
    requires IsTrimmed(a, LE(H(secret)[..32])) && r == LE(H(H(secret)[32..] + message)) % L
    ensures Signature(c, H, secret, publicKey, message, sig) <==>
      && sig[..32] == c.encode(c.group.Times(r, c.base))
      && LE(sig[32..]) == (LE(H(sig[..32] + publicKey + message)) % L * a + r) % L
  {
    hide *;
    SecretScalarIs(H, secret, a);
    NonceIs(H, secret, message);
    HashScalarIs(H, H(secret)[32..] + message);
    ChallengeIs(H, sig[..32], publicKey, message);
    HashScalarIs(H, sig[..32] + publicKey + message);
    PointBytesIs(c, r);
    OrderIs();
    SignatureUnfolds(c, H, secret, publicKey, message, sig);
  }

  lemma SignatureUnfolds<F(!new), G(!new)>(c: Curve<F, G>, H: Hash, secret: seq<byte>, publicKey: seq<byte>,
                                           message: seq<byte>, sig: seq<byte>)
    requires Hash64(H) && |sig| == 64
    ensures Signature(c, H, secret, publicKey, message, sig) <==>
      && sig[..32] == PointBytes(c, Nonce(H, secret, message))
      && LE(sig[32..]) == (Challenge(H, sig[..32], publicKey, message) * SecretScalar(H, secret)
                           + Nonce(H, secret, message)) % ORDER
  {
    hide LE, ORDER, Nonce, Challenge, SecretScalar, PointBytes;
  }

  /** Section 5.1.7: the public key decodes, s is below the order, and s times the base point minus h times the key
      encodes to R. */
  lemma AcceptedWritten<F(!new), G(!new)>(c: Curve<F, G>, H: Hash, publicKey: seq<byte>, message: seq<byte>,
                                          sig: seq<byte>, h: int)
    requires |sig| == 64 && h == LE(H(sig[..32] + publicKey + message)) % L
    ensures Accepted(c, H, publicKey, message, sig) <==>
      && c.decodeNeg(publicKey).Point? && LE(sig[32..]) < L
      && c.encode(c.group.add(c.group.Times(h, c.decodeNeg(publicKey).p), c.group.Times(LE(sig[32..]), c.base)))
         == sig[..32]
  {
    hide *;
    ChallengeIs(H, sig[..32], publicKey, message);
    HashScalarIs(H, sig[..32] + publicKey + message);
    OrderIs();
    AcceptedIs(c, H, publicKey, message, sig);
  }
}
