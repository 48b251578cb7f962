/** fe_pow22523 and fe_invert: the addition chains for the exponents 2^252 - 3 and 2^255 - 21. */
module FieldPower {
  import opened Words
  import opened Field25519
  import opened FieldElement

  /** The array holds a tight form of z to the e. */
  ghost predicate Holds(a: array<i32>, z: int, e: nat)
    reads a
  {
    Tight(a) && Elem(a) == Pow(z, e) % PRIME
  }

  method MulPower(h: array<i32>, f: array<i32>, g: array<i32>, ghost z: int, ghost a: nat, ghost b: nat)
    requires Holds(f, z, a) && Holds(g, z, b) && h.Length == 10
    modifies h
    ensures Holds(h, z, a + b)
  {
    hide Elem, Pow;
    TightIsLoose(f);
    TightIsLoose(g);
    PowAdd(z, a, b);
    ModMul(Pow(z, a), Pow(z, b), PRIME);
    hide Tight, Loose;
    FeMul(h, f, g);
  }

  method SqPower(h: array<i32>, f: array<i32>, ghost z: int, ghost a: nat)
    requires Holds(f, z, a) && h.Length == 10
    modifies h
    ensures Holds(h, z, 2 * a)
  {
    hide Elem, Pow;
    TightIsLoose(f);
    PowAdd(z, a, a);
    ModMul(Pow(z, a), Pow(z, a), PRIME);
    hide Tight, Loose;
    FeSq(h, f);
  }

  /** FOR (i, 1, n) fe_sq(t, t); */
  method SqTimes(t: array<i32>, n: nat, ghost z: int, ghost a: nat)
    requires Holds(t, z, a) && n >= 1
    modifies t
    ensures Holds(t, z, a * Pow2(n - 1))
  {
    assert Pow2(0) == 1 && t.Length == 10;
    hide Holds;
    for i := 1 to n
      invariant t.Length == 10 && Holds(t, z, a * Pow2(i - 1))
    {
      SqPower(t, t, z, a * Pow2(i - 1));
      Doubled(a, i);
    }
  }

  lemma Doubled(a: nat, i: nat)
    requires i >= 1
    ensures 2 * (a * Pow2(i - 1)) == a * Pow2(i)
  {
  }

  lemma SmallPowers()
    ensures Pow2(2) == 4 && Pow2(5) == 0x20 && Pow2(10) == 0x400
  {
    assert Pow2(5) == 0x20;
    hide Pow2;
    Pow2Add(5, 5);
    Pow2Values();
  }

  lemma Powers()
    ensures Pow2(2) == 4 && Pow2(5) == 0x20 && Pow2(10) == 0x400 && Pow2(20) == 0x10_0000
    ensures Pow2(50) == 0x4_0000_0000_0000
    ensures Pow2(100) == 0x10_0000_0000_0000_0000_0000_0000
  {
    hide Pow2;
    SmallPowers();
    Pow2Add(10, 10);
    Pow2Add(20, 20);
    Pow2Add(40, 10);
    Pow2Add(50, 50);
  }

  /** One line of the chain: s = f squared n times, then h = s * g. */
  method Extend(h: array<i32>, s: array<i32>, f: array<i32>, g: array<i32>, n: nat,
                ghost z: int, ghost a: nat, ghost b: nat, ghost p: nat, ghost e: nat)
    requires Holds(f, z, a) && Holds(g, z, b) && h.Length == 10 == s.Length && s != g
    requires n >= 1 && p == Pow2(n) && e == a * p + b
    modifies h, s
    ensures Holds(h, z, e)
  {
    hide Holds;
    SqPower(s, f, z, a);
    SqTimes(s, n, z, 2 * a);
    assert 2 * a * Pow2(n - 1) == a * p by { Doubled(a, n); }
    MulPower(h, s, g, z, a * p, b);
  }

  const P22523: nat := 0xffffffffffffffffffffffffffffffffffffffffffffffffffffffffffffffd  // 2^252 - 3

  /** The start of the chain, up to z^(2^5 - 1). */
  method PowStart(t0: array<i32>, t1: array<i32>, z: array<i32>, ghost v: int)
    requires Holds(z, v, 1) && t0.Length == 10 == t1.Length && t0 != t1 && t0 != z && t1 != z
    modifies t0, t1
    ensures Holds(t0, v, 31)
  {
    hide Holds;
    SqPower(t0, z, v, 1);
    SqPower(t1, t0, v, 2);
    SqPower(t1, t1, v, 4);
    MulPower(t1, z, t1, v, 1, 8);
    MulPower(t0, t0, t1, v, 2, 9);
    SqPower(t0, t0, v, 11);
    MulPower(t0, t1, t0, v, 9, 22);
  }

  /** out = z^(2^252 - 3); out and z may be the same array. */
  method FePow22523(out: array<i32>, z: array<i32>)
    requires Tight(z) && out.Length == 10
    modifies out
    ensures Tight(out) && Elem(out) == Pow(old(Elem(z)), P22523) % PRIME
  {
    hide Holds, Elem, Tight, Pow, Pow2, Mul;
    ghost var v := Elem(z);
    FirstPower(z, v);
    var t0 := new i32[10];
    var t1 := new i32[10];
    var t2 := new i32[10];
    Powers();
    PowStart(t0, t1, z, v);
    Extend(t0, t1, t0, t0, 5, v, 0x1f, 0x1f, 0x20, 0x3ff);
    Extend(t1, t1, t0, t0, 10, v, 0x3ff, 0x3ff, 0x400, 0xfffff);
    Extend(t1, t2, t1, t1, 20, v, 0xfffff, 0xfffff, 0x100000, 0xffffffffff);
    Extend(t0, t1, t1, t0, 10, v, 0xffffffffff, 0x3ff, 0x400, 0x3ffffffffffff);
    Extend(t1, t1, t0, t0, 50, v, 0x3ffffffffffff, 0x3ffffffffffff, 0x4000000000000, 0xfffffffffffffffffffffffff);
    Extend(t1, t2, t1, t1, 100, v, 0xfffffffffffffffffffffffff, 0xfffffffffffffffffffffffff,
           0x10000000000000000000000000, 0xffffffffffffffffffffffffffffffffffffffffffffffffff);
    Extend(t0, t1, t1, t0, 50, v, 0xffffffffffffffffffffffffffffffffffffffffffffffffff, 0x3ffffffffffff, 0x4000000000000,
           0x3ffffffffffffffffffffffffffffffffffffffffffffffffffffffffffffff);
    Extend(out, t0, t0, z, 2, v, 0x3ffffffffffffffffffffffffffffffffffffffffffffffffffffffffffffff, 1, 0x4, P22523);
    Unpack(out, v, P22523);
  }

  lemma FirstPower(a: array<i32>, v: int)
    requires Tight(a) && v == Elem(a)
    ensures Holds(a, v, 1)
  {
    assert Pow(v, 1) == v * Pow(v, 0) == v;
    hide Pow;
    DivModUnique(v, PRIME, 0, v);
  }

  lemma Pack(a: array<i32>, z: int, e: nat)
    requires Tight(a) && Elem(a) == Pow(z, e) % PRIME
    ensures Holds(a, z, e)
  {
  }

  lemma Unpack(a: array<i32>, z: int, e: nat)
    requires Holds(a, z, e)
    ensures Tight(a) && Elem(a) == Pow(z, e) % PRIME
  {
  }

  /** out = z^(2^255 - 21), which is the inverse of z when the modulus is prime and z is not zero. */
  method FeInvert(out: array<i32>, z: array<i32>)
    requires Tight(z) && out.Length == 10
    modifies out
    ensures Tight(out) && Elem(out) == Pow(old(Elem(z)), PRIME - 2) % PRIME
  {
    hide Holds, Pow, Elem, Tight;
    ghost var v := Elem(z);
    FirstPower(z, v);
    var tmp := new i32[10];
    FePow22523(tmp, z);
    Pack(tmp, v, P22523);
    SqPower(tmp, tmp, v, P22523);
    SqPower(tmp, tmp, v, 2 * P22523);
    MulPower(tmp, tmp, z, v, 4 * P22523, 1);
    SqPower(tmp, tmp, v, 4 * P22523 + 1);
    MulPower(out, tmp, z, v, 8 * P22523 + 2, 1);
    assert 8 * P22523 + 3 == PRIME - 2;
    Unpack(out, v, PRIME - 2);
  }
}
