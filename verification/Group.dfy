/** An abelian group given by its operations, and integer multiples of its elements. */
module Groups {
  datatype Group<!G(!new)> = Group(zero: G, add: (G, G) -> G, neg: G -> G) {
    ghost predicate Abelian() {
      && (forall a, b, c :: add(add(a, b), c) == add(a, add(b, c)))
      && (forall a, b :: add(a, b) == add(b, a))
      && (forall a :: add(a, zero) == a)
      && (forall a :: add(a, neg(a)) == zero)
    }

    lemma Assoc(a: G, b: G, c: G)
      requires Abelian()
      ensures add(add(a, b), c) == add(a, add(b, c))
    {
    }

    lemma Comm(a: G, b: G)
      requires Abelian()
      ensures add(a, b) == add(b, a)
    {
    }

    lemma Zero(a: G)
      requires Abelian()
      ensures add(a, zero) == a && add(zero, a) == a
    {
    }

    lemma Inverse(a: G)
      requires Abelian()
      ensures add(a, neg(a)) == zero && add(neg(a), a) == zero
    {
    }

    /** (a + b) + (c + d) == (a + c) + (b + d) */
    lemma Exchange(a: G, b: G, c: G, d: G)
      requires Abelian()
      ensures add(add(a, b), add(c, d)) == add(add(a, c), add(b, d))
    {
      hide Abelian;
      Assoc(a, b, add(c, d));
      Assoc(b, c, d);
      Comm(b, c);
      Assoc(c, b, d);
      Assoc(a, c, add(b, d));
    }

    lemma Cancel(a: G, b: G, c: G)
      requires Abelian() && add(a, c) == add(b, c)
      ensures a == b
    {
      hide Abelian;
      Assoc(a, c, neg(c));
      Assoc(b, c, neg(c));
      Inverse(c);
      Zero(a);
      Zero(b);
    }

    /** n copies of p, or -n copies of its inverse. */
    ghost function Times(n: int, p: G): G
      decreases if n < 0 then -n else n
    {
      if n == 0 then zero else if n > 0 then add(Times(n - 1, p), p) else add(Times(n + 1, p), neg(p))
    }

    lemma TimesNext(n: int, p: G)
      requires Abelian()
      ensures Times(n + 1, p) == add(Times(n, p), p)
    {
      hide Abelian;
      if n < 0 {
        var t := Times(n + 1, p);
        assert Times(n, p) == add(t, neg(p));
        hide Times;
        Assoc(t, neg(p), p);
        Inverse(p);
        Zero(t);
      }
    }

    lemma {:induction false} TimesAdd(a: int, b: int, p: G)
      requires Abelian()
      ensures Times(a + b, p) == add(Times(a, p), Times(b, p))
      decreases if b < 0 then -b else b
    {
      hide Abelian;
      if b == 0 {
        Zero(Times(a, p));
      } else {
        var c := if b > 0 then b - 1 else b;
        var d := if b > 0 then b - 1 else b + 1;
        TimesAdd(a, d, p);
        TimesNext(c, p);
        TimesNext(a + c, p);
        hide Times;
        if b > 0 {
          Assoc(Times(a, p), Times(c, p), p);
        } else {
          Assoc(Times(a, p), Times(b, p), p);
          assert add(add(Times(a, p), Times(b, p)), p) == add(Times(a + b, p), p);
          Cancel(add(Times(a, p), Times(b, p)), Times(a + b, p), p);
        }
      }
    }

    lemma TimesNeg(n: int, p: G)
      requires Abelian()
      ensures Times(-n, p) == neg(Times(n, p))
    {
      hide Abelian;
      TimesAdd(-n, n, p);
      assert Times(0, p) == zero;
      hide Times, Abelian;
      Comm(Times(n, p), neg(Times(n, p)));
      Inverse(Times(n, p));
      Cancel(Times(-n, p), neg(Times(n, p)), Times(n, p));
    }

    lemma TimesOne(p: G)
      requires Abelian()
      ensures Times(1, p) == p && Times(-1, p) == neg(p) && Times(0, p) == zero
      ensures Times(2, p) == add(p, p)
    {
      hide Abelian;
      Zero(p);
      Zero(neg(p));
      assert Times(0, p) == zero;
      assert Times(1, p) == add(zero, p);
    }

    lemma {:induction false} TimesMul(a: int, b: int, p: G)
      requires Abelian()
      ensures Times(a * b, p) == Times(a, Times(b, p))
      decreases if a < 0 then -a else a
    {
      hide Abelian;
      if a == 0 {
      } else if a > 0 {
        TimesMul(a - 1, b, p);
        TimesAdd((a - 1) * b, b, p);
        assert (a - 1) * b + b == a * b;
      } else {
        TimesMul(a + 1, b, p);
        TimesNeg(b, p);
        TimesAdd((a + 1) * b, -b, p);
        assert (a + 1) * b + -b == a * b;
      }
    }

    lemma {:induction false} TimesSum(n: int, p: G, q: G)
      requires Abelian()
      ensures Times(n, add(p, q)) == add(Times(n, p), Times(n, q))
      decreases if n < 0 then -n else n
    {
      hide Abelian;
      if n == 0 {
        Zero(zero);
      } else if n > 0 {
        TimesSum(n - 1, p, q);
        Exchange(Times(n - 1, p), Times(n - 1, q), p, q);
      } else {
        TimesSum(n + 1, p, q);
        NegSum(p, q);
        Exchange(Times(n + 1, p), Times(n + 1, q), neg(p), neg(q));
      }
    }

    lemma NegSum(p: G, q: G)
      requires Abelian()
      ensures neg(add(p, q)) == add(neg(p), neg(q))
    {
      hide Abelian;
      Exchange(neg(p), neg(q), p, q);
      Inverse(p);
      Inverse(q);
      Zero(zero);
      Inverse(add(p, q));
      Cancel(neg(add(p, q)), add(neg(p), neg(q)), add(p, q));
    }

    lemma TimesZero(n: int)
      requires Abelian()
      ensures Times(n, zero) == zero
    {
      hide Abelian;
      TimesMul(n, 0, zero);
    }

    /** In a subgroup of order m, multiples only matter modulo m. */
    lemma TimesMod(n: int, m: int, p: G)
      requires Abelian() && m > 0 && Times(m, p) == zero
      ensures Times(n, p) == Times(n % m, p)
    {
      hide Abelian;
      var q := n / m;
      TimesMul(q, m, p);
      TimesZero(q);
      TimesAdd(q * m, n % m, p);
      Zero(Times(n % m, p));
    }
  }
}
