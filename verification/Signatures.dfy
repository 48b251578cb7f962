/** Monocypher's signatures: the two passes of signing, the check, and that the check accepts what was
    signed. */
module Signatures {
  import opened Words
  import opened Groups
  import opened Scalars
  import opened ScalarModL
  import opened Comb
  import SlidingWindow

  datatype Decoded<G> = Invalid | Point(p: G)

  /** The hash of a signature vtable, by its result on all the bytes it is fed. */
  type Hash = seq<byte> -> seq<byte>

  /** A base point in an abelian group, its tables, and the encoding of points; decodeNeg negates. */
  datatype Curve<!F(!new), !G(!new)> = Curve(
    group: Group<G>, base: G, neg: F -> F, point: Niels<F> -> G, comb: seq<Niels<F>>, initial: Niels<F>,
    window: seq<G>, encode: G -> seq<byte>, decodeNeg: seq<byte> -> Decoded<G>)
  {
    ghost predicate Suits() {
      && group.Abelian() && NegatedBySwap(group, neg, point) && CombTable(group, base, point, comb)
      && group.Times(ORDER, base) == group.zero
      && |window| == 8 && SlidingWindow.OddMultiples(group, base, window)
      && (forall p :: |encode(p)| == 32)
      && (forall n: int :: decodeNeg(encode(group.Times(n, base))) == Point(group.neg(group.Times(n, base))))
    }

    lemma Encoding(n: int)
      requires Suits()
      ensures |encode(group.Times(n, base))| == 32 && group.Abelian() && group.Times(ORDER, base) == group.zero
      ensures decodeNeg(encode(group.Times(n, base))) == Point(group.neg(group.Times(n, base)))
    {
      hide group.Abelian, group.Times, NegatedBySwap, CombTable, SlidingWindow.OddMultiples;
    }

    lemma Parts()
      requires Suits()
      ensures group.Abelian() && NegatedBySwap(group, neg, point) && CombTable(group, base, point, comb)
      ensures group.Times(ORDER, base) == group.zero
      ensures |window| == 8 && SlidingWindow.OddMultiples(group, base, window)
    {
      hide group.Abelian, group.Times, NegatedBySwap, CombTable, SlidingWindow.OddMultiples;
    }

    lemma EncodedSize(p: G)
      requires Suits()
      ensures |encode(p)| == 32
    {
      hide group.Abelian, group.Times, NegatedBySwap, CombTable, SlidingWindow.OddMultiples;
    }
  }

  ghost predicate Hash64(H: Hash) {
    forall m: seq<byte> :: |H(m)| == 64
  }

  // ---------------------------------------------------------------------
  // Section 5.1 of RFC 8032
  // ---------------------------------------------------------------------

  /** A multiple of the base point, encoded. */
  ghost function PointBytes<F(!new), G(!new)>(c: Curve<F, G>, k: int): seq<byte> {
    c.encode(c.group.Times(k, c.base))
  }

  /** A hash as a scalar. */
  ghost function HashScalar(H: Hash, data: seq<byte>): int {
    LE(H(data)) % ORDER
  }

  ghost function SecretScalar(H: Hash, secret: seq<byte>): (a: nat)
    requires Hash64(H)
  {
    LEBound(H(secret)[..32]);
    TWO254 + LE(H(secret)[..32]) % TWO254 / 8 * 8
  }

  ghost function PublicKey<F(!new), G(!new)>(c: Curve<F, G>, H: Hash, secret: seq<byte>): seq<byte>
    requires Hash64(H)
  {
    PointBytes(c, SecretScalar(H, secret))
  }

  ghost function Nonce(H: Hash, secret: seq<byte>, message: seq<byte>): int
    requires Hash64(H)
  {
    HashScalar(H, H(secret)[32..] + message)
  }

  ghost function Challenge(H: Hash, R: seq<byte>, publicKey: seq<byte>, message: seq<byte>): int {
    HashScalar(H, R + publicKey + message)
  }

  /** R and s, where s = r + h * a modulo L. */
  ghost predicate Signature<F(!new), G(!new)>(c: Curve<F, G>, H: Hash, secret: seq<byte>, publicKey: seq<byte>,
                                              message: seq<byte>, sig: seq<byte>)
    requires Hash64(H)
  {
    && |sig| == 64
    && sig[..32] == PointBytes(c, Nonce(H, secret, message))
    && LE(sig[32..]) == (Challenge(H, sig[..32], publicKey, message) * SecretScalar(H, secret)
                         + Nonce(H, secret, message)) % ORDER
  }

  /** The public key is a point, s is below L, and [s]B - [h]A encodes to R. */
  ghost predicate Accepted<F(!new), G(!new)>(c: Curve<F, G>, H: Hash, publicKey: seq<byte>, message: seq<byte>,
                                             sig: seq<byte>)
  {
    && |sig| == 64 && c.decodeNeg(publicKey).Point? && LE(sig[32..]) < ORDER
    && c.encode(c.group.add(c.group.Times(Challenge(H, sig[..32], publicKey, message), c.decodeNeg(publicKey).p),
                            c.group.Times(LE(sig[32..]), c.base))) == sig[..32]
  }

  // ---------------------------------------------------------------------
  // What was signed is accepted
  // ---------------------------------------------------------------------

  /** [h](-[a]B) + [h * a + r]B == [r]B */
  lemma Difference<G(!new)>(g: Group<G>, B: G, h: int, a: int, r: int, s: int)
    requires g.Abelian() && g.Times(ORDER, B) == g.zero && s == (h * a + r) % ORDER
    ensures g.add(g.Times(h, g.neg(g.Times(a, B))), g.Times(s, B)) == g.Times(r, B)
  {
    hide *;
    ModTwice(h * a + r);
    SameMultiple(g, B, s, h * a + r);
    g.TimesNeg(a, B);
    g.TimesMul(h, -a, B);
    g.TimesAdd(h * -a, h * a + r, B);
    Opposites(h, a, r);
  }

  lemma Opposites(h: int, a: int, r: int)
    ensures h * -a + (h * a + r) == r
  {
  }

  lemma ModTwice(x: int)
    ensures x % ORDER % ORDER == x % ORDER
  {
  }

  lemma SignedIsAccepted<F(!new), G(!new)>(c: Curve<F, G>, H: Hash, secret: seq<byte>, message: seq<byte>,
                                           sig: seq<byte>)
    requires c.Suits() && Hash64(H) && Signature(c, H, secret, PublicKey(c, H, secret), message, sig)
    ensures Accepted(c, H, PublicKey(c, H, secret), message, sig)
  {
    hide c.Suits, Hash64, LE, ORDER, Challenge, Nonce, SecretScalar;
    var pk := PublicKey(c, H, secret);
    var a, r, h := SecretScalar(H, secret), Nonce(H, secret, message), Challenge(H, sig[..32], pk, message);
    c.Encoding(a);
    Difference(c.group, c.base, h, a, r, LE(sig[32..]));
    BelowOrder(h * a + r);
  }

  lemma HashBelowOrder(H: Hash, data: seq<byte>)
    ensures 0 <= HashScalar(H, data) < ORDER && ORDER < Pow2(253)
  {
    hide LE;
    BelowOrder(LE(H(data)));
  }

  lemma BelowOrder(x: int)
    ensures 0 <= x % ORDER < ORDER && ORDER < Pow2(253)
  {
    OrderBits();
  }

  lemma OrderBits()
    ensures ORDER < Pow2(253)
  {
    Pow2Values();
    Pow2Add(64, 64);
    Pow2Add(128, 64);
    Pow2Add(192, 32);
    Pow2Add(224, 28);
    assert Pow2(253) == 2 * Pow2(252);
  }

  // ---------------------------------------------------------------------
  // Signing
  // ---------------------------------------------------------------------

  /** The start of a hash, trimmed: the secret scalar. */
  method TrimmedScalar(H: Hash, secret: seq<byte>) returns (a: array<byte>)
    requires Hash64(H)
    ensures a.Length == 32 && fresh(a) && LE(a[..]) == SecretScalar(H, secret)
  {
    hide LE;
    a := ArrayOf(H(secret)[..32]);
    TrimScalar(a);
  }

  /** crypto_sign_public_key_custom_hash */
  method SignPublicKey<F(!new), G(!new)>(c: Curve<F, G>, H: Hash, secret: seq<byte>) returns (publicKey: seq<byte>)
    requires c.Suits() && Hash64(H)
    ensures publicKey == PublicKey(c, H, secret) && |publicKey| == 32
  {
    hide *;
    c.Parts();
    var a := TrimmedScalar(H, secret);
    var A := ScalarmultBase(c.group, c.base, c.neg, c.point, c.comb, c.initial, a);
    publicKey := c.encode(A);
    c.EncodedSize(A);
    PublicKeyIs(c, H, secret);
  }

  lemma PointBytesIs<F(!new), G(!new)>(c: Curve<F, G>, k: int)
    ensures PointBytes(c, k) == c.encode(c.group.Times(k, c.base))
  {
    hide c.group.Times;
  }

  lemma PublicKeyIs<F(!new), G(!new)>(c: Curve<F, G>, H: Hash, secret: seq<byte>)
    requires Hash64(H)
    ensures PublicKey(c, H, secret) == c.encode(c.group.Times(SecretScalar(H, secret), c.base))
  {
    hide c.group.Times, SecretScalar;
  }

  /** A hash reduced modulo L. */
  method ReducedHash(H: Hash, data: seq<byte>) returns (r: array<byte>)
    requires Hash64(H)
    ensures r.Length == 32 && fresh(r) && LE(r[..]) == HashScalar(H, data)
  {
    hide LE, ORDER;
    var tmp := ArrayOf(H(data));
    Reduce(tmp);
    r := ArrayOf(tmp[..32]);
  }

  /** The context of the two passes; the hash context is known by what it was fed. */
  class SignCtx<F(!new), G(!new)> {
    const c: Curve<F, G>
    const H: Hash
    var a: array<byte>
    var r: array<byte>
    var prefix: seq<byte>
    var pk: seq<byte>
    var halfSig: seq<byte>
    var fed: seq<byte>

    constructor (c: Curve<F, G>, H: Hash)
      ensures this.c == c && this.H == H
    {
      this.c, this.H := c, H;
      a, r := new byte[32], new byte[32];
      prefix, pk, halfSig, fed := [], [], [], [];
    }

    /** crypto_sign_init_first_pass, with or without the public key. */
    method InitFirstPass(secret: seq<byte>, publicKey: Option<seq<byte>>)
      requires c.Suits() && Hash64(H)
      modifies this
      ensures a.Length == 32 && fresh(a) && LE(a[..]) == SecretScalar(H, secret) && fed == H(secret)[32..]
      ensures pk == match publicKey case None => PublicKey(c, H, secret) case Some(k) => k
    {
      hide c.Suits, LE;
      a := TrimmedScalar(H, secret);
      prefix := H(secret)[32..];
      match publicKey {
        case None => pk := SignPublicKey(c, H, secret);
        case Some(k) => pk := k;
      }
      fed := [];
      Update(prefix);
    }

    /** crypto_sign_update */
    method Update(message: seq<byte>)
      modifies `fed
      ensures fed == old(fed) + message
    {
      fed := fed + message;
    }

    /** crypto_sign_init_second_pass */
    method InitSecondPass()
      requires c.Suits() && Hash64(H)
      modifies `r, `halfSig, `fed
      ensures r.Length == 32 && fresh(r) && LE(r[..]) == HashScalar(H, old(fed))
      ensures |halfSig| == 32 && halfSig == PointBytes(c, LE(r[..])) && fed == halfSig + pk
    {
      hide *;
      c.Parts();
      r := ReducedHash(H, fed);
      var R := ScalarmultBase(c.group, c.base, c.neg, c.point, c.comb, c.initial, r);
      halfSig := c.encode(R);
      c.EncodedSize(R);
      PointBytesIs(c, LE(r[..]));
      fed := [];
      Update(halfSig);
      Update(pk);
    }

    /** crypto_sign_final */
    method Final() returns (sig: seq<byte>)
      requires Hash64(H) && a.Length == 32 && r.Length == 32 && |halfSig| == 32
      ensures |sig| == 64 && sig[..32] == halfSig
      ensures LE(sig[32..]) == (HashScalar(H, fed) * LE(a[..]) + LE(r[..])) % ORDER
    {
      hide *;
      var hRam := ReducedHash(H, fed);
      var s := new byte[32];
      assert hRam[..32] == hRam[..] && a[..32] == a[..] && r[..32] == r[..];
      MulAdd(s, hRam, a, r);
      sig := halfSig + s[..];
      assert sig[32..] == s[..] == s[..32];
    }
  }

  /** crypto_sign */
  method Sign<F(!new), G(!new)>(c: Curve<F, G>, H: Hash, secret: seq<byte>, publicKey: Option<seq<byte>>,
                                message: seq<byte>) returns (sig: seq<byte>)
    requires c.Suits() && Hash64(H)
    ensures var pk := match publicKey case None => PublicKey(c, H, secret) case Some(k) => k;
            Signature(c, H, secret, pk, message, sig)
  {
    hide *;
    var ctx := new SignCtx(c, H);
    ctx.InitFirstPass(secret, publicKey);
    ctx.Update(message);
    NonceIs(H, secret, message);
    ctx.InitSecondPass();
    ctx.Update(message);
    sig := ctx.Final();
    ChallengeIs(H, sig[..32], ctx.pk, message);
    SignatureIs(c, H, secret, ctx.pk, message, sig);
  }

  lemma NonceIs(H: Hash, secret: seq<byte>, message: seq<byte>)
    requires Hash64(H)
    ensures |H(secret)| == 64 && Nonce(H, secret, message) == HashScalar(H, H(secret)[32..] + message)
  {
    hide HashScalar;
  }

  lemma ChallengeIs(H: Hash, R: seq<byte>, publicKey: seq<byte>, message: seq<byte>)
    ensures Challenge(H, R, publicKey, message) == HashScalar(H, R + publicKey + message)
  {
    hide HashScalar;
  }

  lemma SignatureIs<F(!new), G(!new)>(c: Curve<F, G>, H: Hash, secret: seq<byte>, publicKey: seq<byte>,
                                      message: seq<byte>, sig: seq<byte>)
    requires Hash64(H) && |sig| == 64
    requires sig[..32] == PointBytes(c, Nonce(H, secret, message))
    requires LE(sig[32..]) == (Challenge(H, sig[..32], publicKey, message) * SecretScalar(H, secret)
                               + Nonce(H, secret, message)) % ORDER
    ensures Signature(c, H, secret, publicKey, message, sig)
  {
    hide LE, ORDER, Nonce, Challenge, SecretScalar;
  }

  // ---------------------------------------------------------------------
  // Checking
  // ---------------------------------------------------------------------

  /** is_above_L, most significant byte first. */
  method IsAboveL(s: seq<byte>) returns (above: bool)
    requires |s| == 32
    ensures above <==> LE(s) >= ORDER
  {
    TableValue();
    ghost var l := L();
    hide *;
    var t := L();
    for i := 32 downto 0
      invariant s[i..] == t[i..]
    {
      SameTail(s, t, i);
      if s[i] > t[i] {
        LargerByte(s, t, i);
        return true;
      }
      if s[i] < t[i] {
        LargerByte(t, s, i);
        return false;
      }
      assert s[i..] == [s[i]] + s[i + 1..] && t[i..] == [t[i]] + t[i + 1..];
    }
    assert s == s[0..] && t == t[0..];
    above := true;
  }

  lemma SameTail(s: seq<byte>, t: seq<byte>, i: nat)
    requires |s| == |t| && i < |s| && s[i + 1..] == t[i + 1..]
    ensures LE(s[i + 1..]) == LE(t[i + 1..])
  {
  }

  /** The most significant difference decides. */
  lemma LargerByte(s: seq<byte>, t: seq<byte>, i: nat)
    requires |s| == |t| && i < |s| && s[i + 1..] == t[i + 1..] && s[i] > t[i]
    ensures LE(s) > LE(t)
  {
    hide LE, Pow256;
    FromByte(s, i);
    FromByte(t, i);
    LEBound(s[..i]);
    LEBound(t[..i]);
    LargerPart(LE(s[..i]), LE(t[..i]), LE(s[i..]), LE(t[i..]), Pow256(i));
  }

  lemma FromByte(s: seq<byte>, i: nat)
    requires i < |s|
    ensures LE(s) == LE(s[..i]) + Pow256(i) * LE(s[i..]) && LE(s[i..]) == s[i] as int + 256 * LE(s[i + 1..])
  {
    assert s[i..][1..] == s[i + 1..];
    assert LE(s[i..]) == s[i] as int + 256 * LE(s[i + 1..]);
    hide LE;
    LEAppend(s[..i], s[i..]);
    assert s == s[..i] + s[i..];
  }

  lemma LargerPart(a: int, b: int, x: int, y: int, p: int)
    requires a >= 0 && 0 <= b < p && x > y
    ensures a + p * x > b + p * y
  {
    assert p * x >= p * (y + 1);
  }

  /** crypto_check */
  method Check<F(!new), G(!new)>(c: Curve<F, G>, H: Hash, sig: seq<byte>, publicKey: seq<byte>, message: seq<byte>)
    returns (ok: bool)
    requires c.Suits() && Hash64(H) && |sig| == 64 && |publicKey| == 32
    ensures ok <==> Accepted(c, H, publicKey, message, sig)
  {
    hide *;
    c.Parts();
    var fed := sig[..32] + publicKey + message;
    var A := c.decodeNeg(publicKey);
    var s := sig[32..];
    var above := IsAboveL(s);
    AcceptedIs(c, H, publicKey, message, sig);
    if A.Invalid? || above {
      return false;
    }
    ChallengeIs(H, sig[..32], publicKey, message);
    var hRam := ReducedHash(H, fed);
    HashBelowOrder(H, fed);
    LEBound(s);
    var P := SlidingWindow.DoubleScalarmult(c.group, A.p, c.base, hRam[..], s, c.window);
    ok := c.encode(P) == sig[..32];
  }

  lemma AcceptedIs<F(!new), G(!new)>(c: Curve<F, G>, H: Hash, publicKey: seq<byte>, message: seq<byte>, sig: seq<byte>)
    requires |sig| == 64
    ensures Accepted(c, H, publicKey, message, sig) <==>
      c.decodeNeg(publicKey).Point? && LE(sig[32..]) < ORDER
      && c.encode(c.group.add(c.group.Times(Challenge(H, sig[..32], publicKey, message), c.decodeNeg(publicKey).p),
                              c.group.Times(LE(sig[32..]), c.base))) == sig[..32]
  {
    hide LE, ORDER, Challenge, c.group.Times;
  }

  /** Whoever signs with the right public key, or lets it be computed, is accepted. */
  method SignAndCheck<F(!new), G(!new)>(c: Curve<F, G>, H: Hash, secret: seq<byte>, message: seq<byte>) returns (ok: bool)
    requires c.Suits() && Hash64(H)
    ensures ok
  {
    hide *;
    var publicKey := SignPublicKey(c, H, secret);
    var sig := Sign(c, H, secret, None, message);
    SignedIsAccepted(c, H, secret, message, sig);
    SignatureSize(c, H, secret, publicKey, message, sig);
    ok := Check(c, H, sig, publicKey, message);
  }

  lemma SignatureSize<F(!new), G(!new)>(c: Curve<F, G>, H: Hash, secret: seq<byte>, publicKey: seq<byte>,
                                        message: seq<byte>, sig: seq<byte>)
    requires Hash64(H) && Signature(c, H, secret, publicKey, message, sig)
    ensures |sig| == 64
  {
  }
}
