/** What the step of the ladder computes: on the Montgomery curve v^2 = u^3 + 486662 u^2 + u of section 4.1
    of RFC 7748, it doubles one point and adds it to the other, whose difference is known. */
module Montgomery {
  import opened Words
  import opened Field25519
  import opened FieldElement
  import opened Scalars
  import opened X25519

  // ---------------------------------------------------------------------
  // The group law of the curve
  // ---------------------------------------------------------------------

  /** Congruent modulo 2^255 - 19: whatever one of them leaves as a remainder, the other does. */
  ghost predicate Same(a: int, b: int) {
    forall r :: Leaves(a, r) <==> Leaves(b, r)
  }

  lemma SameIs(a: int, b: int)
    ensures Same(a, b) <==> a % PRIME == b % PRIME
  {
    if Same(a, b) {
      LeavesIs(a, a % PRIME);
      assert Leaves(a, a % PRIME);
      LeavesIs(b, a % PRIME);
    }
    if a % PRIME == b % PRIME {
      forall r ensures Leaves(a, r) <==> Leaves(b, r) {
        LeavesIs(a, r);
        LeavesIs(b, r);
      }
    }
  }

  lemma SameBy(a: int, b: int, k: int)
    requires a - b == k * PRIME
    ensures Same(a, b)
  {
    ModCongruent(a, b, k, PRIME);
    SameIs(a, b);
  }

  lemma FactorOf(a: int, b: int) returns (k: int)
    requires Same(a, b)
    ensures a - b == k * PRIME
  {
    SameIs(a, b);
    k := a / PRIME - b / PRIME;
  }

  lemma SameMul(a: int, b: int, c: int, d: int)
    requires Same(a, b) && Same(c, d)
    ensures Same(a * c, b * d)
  {
    var k := FactorOf(a, b);
    var l := FactorOf(c, d);
    ProductDifference(a, b, c, d, k, l, PRIME);
    SameBy(a * c, b * d, a * l + k * d);
  }

  lemma ProductDifference(a: int, b: int, c: int, d: int, k: int, l: int, p: int)
    requires a - b == k * p && c - d == l * p
    ensures a * c - b * d == (a * l + k * d) * p
  {
    assert a * c - b * d == a * (c - d) + (a - b) * d;
    assert a * (l * p) == a * l * p && k * p * d == k * d * p;
  }

  lemma SameMinus(a: int, b: int, c: int, d: int)
    requires Same(a, b) && Same(c, d)
    ensures Same(a - c, b - d)
  {
    var k := FactorOf(a, b);
    var l := FactorOf(c, d);
    SameBy(a - c, b - d, k - l);
  }

  lemma SameChain(a: int, b: int, c: int)
    requires Same(a, b) && (Same(b, c) || Same(c, b))
    ensures Same(a, c)
  {
    var k := FactorOf(a, b);
    if Same(b, c) {
      var l := FactorOf(b, c);
      SameBy(a, c, k + l);
    } else {
      var l := FactorOf(c, b);
      SameBy(a, c, k - l);
    }
  }

  lemma SameTimes(k: int, a: int, b: int)
    requires Same(a, b)
    ensures Same(k * a, k * b)
  {
    SameItself(k);
    hide Same;
    SameMul(k, k, a, b);
  }

  lemma SameItself(a: int)
    ensures Same(a, a) && Same(a % PRIME, a)
  {
    SameBy(a, a, 0);
    SameBy(a % PRIME, a, -(a / PRIME));
  }

  /** The right-hand side of the equation of the curve. */
  function Cubic(u: int): int {
    u * u * u + 486662 * (u * u) + u
  }

  ghost predicate OnCurve(u: int, v: int) {
    Same(v * v, Cubic(u))
  }

  /** A projective x-coordinate of an affine point whose first coordinate is u. */
  ghost predicate Abscissa(p: XZ, u: int) {
    Same(p.x, u * p.z)
  }

  /** The first coordinate of the third point on the line of slope m through points at u and w. */
  function Third(m: int, u: int, w: int): int {
    m * m - 486662 - u - w
  }

  lemma TangentAlgebra(u: int, v: int, m: int, n: int, f: int)
    requires n == 3 * (u * u) + 973324 * u + 1 && f == Cubic(u)
    ensures (2 * v * m) * (2 * v * m) - (4 * (486662 + 2 * u)) * (v * v) == Third(m, u, u) * (4 * (v * v))
    ensures n * n - (4 * (486662 + 2 * u)) * f == (u * u - 1) * (u * u - 1)
  {
    assert (2 * v * m) * (2 * v * m) == (4 * (v * v)) * (m * m);
    assert (4 * (486662 + 2 * u)) * (v * v) == (4 * (v * v)) * (486662 + 2 * u);
    TangentExpansion(u, u * u);
  }

  lemma TangentExpansion(u: int, s: int)
    requires s == u * u
    ensures var n, f := 3 * s + 973324 * u + 1, u * u * u + 486662 * s + u;
            n * n - (4 * (486662 + 2 * u)) * f == (s - 1) * (s - 1)
  {
    var n, f := 3 * s + 973324 * u + 1, u * s + 486662 * s + u;
    assert u * u * u == u * s;
    assert u * (u * s) == s * s;
    assert n * n == 9 * (s * s) + 2 * 3 * 973324 * (u * s) + 6 * s + 973324 * 973324 * s + 2 * 973324 * u + 1;
    assert u * f == s * s + 486662 * (u * s) + s;
  }

  /** Twice an affine point is at (u^2 - 1)^2 / (4 v^2). */
  lemma Doubled(u: int, v: int, m: int)
    requires OnCurve(u, v) && Same(2 * v * m, 3 * (u * u) + 973324 * u + 1)
    ensures Same(Third(m, u, u) * (4 * (v * v)), (u * u - 1) * (u * u - 1))
  {
    var n, f, c := 3 * (u * u) + 973324 * u + 1, Cubic(u), 4 * (486662 + 2 * u);
    TangentAlgebra(u, v, m, n, f);
    hide Same, Third, Cubic;
    SameMul(2 * v * m, n, 2 * v * m, n);
    SameTimes(c, v * v, f);
    SameMinus((2 * v * m) * (2 * v * m), n * n, c * (v * v), c * f);
  }

  /** The parts of the doubling formulas, for a point with x = u z; q is z^2. */
  lemma DoubledParts(X: int, Z: int, u: int, q: int)
    requires Same(X, u * Z) && q == Z * Z
    ensures Same((X * X - q) * (X * X - q), (u * u - 1) * (u * u - 1) * (q * q))
    ensures Same((4 * X * Z) * (X * X + 486662 * X * Z + q), 4 * Cubic(u) * (q * q))
  {
    ScaledParts(u, Z, q);
    hide Same, Cubic;
    SameItself(q);
    SameItself(Z);
    SameMul(X, u * Z, X, u * Z);
    SameMinus(X * X, (u * u) * q, q, q);
    SameMul(X * X - q, (u * u) * q - q, X * X - q, (u * u) * q - q);
    SameMul(X, u * Z, Z, Z);
    SameTimes(4, X * Z, u * q);
    SameTimes(-486662, X * Z, u * q);
    SameMinus(X * X, (u * u) * q, -486662 * (X * Z), -486662 * (u * q));
    SameItself(-q);
    SameMinus(X * X + 486662 * (X * Z), (u * u) * q + 486662 * (u * q), -q, -q);
    Associate(X, Z, q);
    SameMul(4 * X * Z, 4 * (u * q), X * X + 486662 * X * Z + q, (u * u) * q + 486662 * (u * q) + q);
  }

  lemma Associate(X: int, Z: int, q: int)
    ensures 4 * (X * Z) == 4 * X * Z && 486662 * (X * Z) == 486662 * X * Z && -486662 * (X * Z) == -(486662 * X * Z)
  {
  }

  lemma ScaledParts(u: int, Z: int, q: int)
    requires q == Z * Z
    ensures (u * Z) * (u * Z) == (u * u) * q && (u * Z) * Z == u * q
    ensures ((u * u) * q - q) * ((u * u) * q - q) == (u * u - 1) * (u * u - 1) * (q * q)
    ensures (4 * (u * q)) * ((u * u) * q + 486662 * (u * q) + q) == 4 * Cubic(u) * (q * q)
  {
    var s := u * u - 1;
    assert (u * u) * q - q == s * q;
    SquareOfProduct(u, Z);
    SquareOfProduct(s, q);
    CubicParts(u, q, u * u + 486662 * u + 1);
  }

  /** A quotient is known from its numerator and denominator, each up to the factor w. */
  lemma Ratio(x: int, z: int, n: int, d: int, w: int, u: int)
    requires Same(x, n * w) && Same(z, d * w) && Same(u * d, n)
    ensures Same(x, u * z)
  {
    hide Same;
    SameTimes(u, z, d * w);
    SameTimes(w, u * d, n);
    assert u * (d * w) == w * (u * d) && w * n == n * w;
    SameChain(u * z, u * (d * w), n * w);
    SameChain(x, n * w, u * z);
  }

  lemma FourTimes(z: int, f: int, e: int, w: int)
    requires Same(z, 4 * f * w) && Same(e, f)
    ensures Same(z, 4 * e * w)
  {
    hide Same;
    SameTimes(4 * w, e, f);
    assert 4 * w * f == 4 * f * w && 4 * w * e == 4 * e * w;
    SameChain(z, 4 * f * w, 4 * e * w);
  }

  lemma CubicParts(u: int, q: int, t: int)
    requires t == u * u + 486662 * u + 1
    ensures (4 * (u * q)) * ((u * u) * q + 486662 * (u * q) + q) == 4 * Cubic(u) * (q * q)
  {
    assert (u * u) * q + 486662 * (u * q) + q == t * q;
    assert (4 * (u * q)) * (t * q) == 4 * (u * t) * (q * q);
    assert u * (u * u) == u * u * u;
    assert u * t == Cubic(u);
  }

  /** The first point the step gives is twice the point it is given: minus the third intersection with the
      tangent, whose slope is m. */
  lemma StepDoubles(x1: int, p2: XZ, p3: XZ, u: int, v: int, m: int)
    requires OnCurve(u, v) && Same(2 * v * m, 3 * (u * u) + 973324 * u + 1) && Abscissa(p2, u)
    ensures Abscissa(Step(x1, p2, p3).0, Third(m, u, u))
    ensures Same(Step(x1, p2, p3).0.z, 4 * (v * v) * ((p2.z * p2.z) * (p2.z * p2.z)))
  {
    var (d, X, Z, q) := (Step(x1, p2, p3).0, p2.x, p2.z, p2.z * p2.z);
    StepFormulas(x1, p2, p3);
    DoubledParts(X, Z, u, q);
    Doubled(u, v, m);
    hide Same, Third, Cubic, Step;
    Reduces(d.x, (X * X - q) * (X * X - q), (u * u - 1) * (u * u - 1) * (q * q));
    Reduces(d.z, (4 * X * Z) * (X * X + 486662 * X * Z + q), 4 * Cubic(u) * (q * q));
    FourTimes(d.z, Cubic(u), v * v, q * q);
    Ratio(d.x, d.z, (u * u - 1) * (u * u - 1), 4 * (v * v), q * q, Third(m, u, u));
  }

  lemma Reduces(x: int, y: int, z: int)
    requires Leaves(y, x) && Same(y, z)
    ensures Same(x, z)
  {
    LeavesIs(y, x);
    SameItself(y);
    hide Same;
    SameChain(x, y, z);
  }

  lemma ChordExpansion(u: int, w: int, n: int)
    requires n == (486662 + u + w) * ((w - u) * (w - u))
    ensures var e := Cubic(w) - Cubic(u);
            e * e - 2 * n * (Cubic(w) + Cubic(u)) + n * n == (w - u) * (w - u) * ((u * w - 1) * (u * w - 1))
  {
    var s, p := u + w, u * w;
    CubicDifference(u, w);
    CubicSum(u, w);
    SymmetricChord(s, p);
    assert (w - u) * (w - u) == s * s - 4 * p;
    hide *;
    ChordFactors(486662 + u + w, w - u, (w - u) * (w - u), s * s - p + 486662 * s + 1,
                 s * (s * s) - 3 * (s * p) + 486662 * (s * s - 2 * p) + s, (p - 1) * (p - 1), n);
  }

  lemma ChordFactors(c: int, d: int, h: int, g: int, f: int, r: int, n: int)
    requires h == d * d && g * g - 2 * c * f + c * c * h == r && n == c * h
    ensures (d * g) * (d * g) - 2 * n * f + n * n == h * r
  {
    assert (d * g) * (d * g) == h * (g * g);
    assert 2 * n * f == h * (2 * c * f) && n * n == h * (c * c * h);
    assert h * (g * g) - h * (2 * c * f) + h * (c * c * h) == h * (g * g - 2 * c * f + c * c * h);
  }

  lemma CubicDifference(u: int, w: int)
    ensures var s, p := u + w, u * w; Cubic(w) - Cubic(u) == (w - u) * (s * s - p + 486662 * s + 1)
  {
    var a, b, p := u * u, w * w, u * w;
    assert (u + w) * (u + w) == a + 2 * p + b;
    assert (w - u) * (a + p + b) == w * b - u * a;
    assert (w - u) * (u + w) == b - a;
    assert w * w * w == w * b && u * u * u == u * a;
    assert (w - u) * (a + p + b + 486662 * (u + w) + 1)
        == (w - u) * (a + p + b) + 486662 * ((w - u) * (u + w)) + (w - u);
  }

  lemma CubicSum(u: int, w: int)
    ensures var s, p := u + w, u * w;
            Cubic(w) + Cubic(u) == s * (s * s) - 3 * (s * p) + 486662 * (s * s - 2 * p) + s
  {
    var s, p := u + w, u * w;
    assert s * s == u * u + 2 * p + w * w;
    assert s * (u * u + w * w - p) == u * u * u + w * w * w;
    assert s * (s * s) == s * (u * u + w * w - p) + 3 * (s * p);
  }

  lemma SymmetricChord(s: int, p: int)
    ensures var c, g := 486662 + s, s * s - p + 486662 * s + 1;
            var f := s * (s * s) - 3 * (s * p) + 486662 * (s * s - 2 * p) + s;
            g * g - 2 * c * f + c * c * (s * s - 4 * p) == (p - 1) * (p - 1)
  {
  }

  lemma ChordSquare(t: int, i: int, d: int, e: int)
    requires e == t * (i * d)
    ensures (t * i) * (t * i) * (d * d) == e * e
  {
    assert (t * i) * d == e;
    SquareOfProduct(t * i, d);
  }

  lemma ThirdTimes(m: int, u: int, w: int, h: int)
    ensures Third(m, u, w) * h == m * m * h - (486662 + u + w) * h
  {
    assert Third(m, u, w) == m * m - (486662 + u + w);
  }

  /** The chord of slope t / d, without the division. */
  lemma Chord(t: int, i: int, d: int, u: int, w: int)
    requires Same(i * d, 1)
    ensures Same(Third(t * i, u, w) * (d * d), t * t - (486662 + u + w) * (d * d))
  {
    var c, e := 486662 + u + w, t * (i * d);
    hide *;
    ChordSquare(t, i, d, e);
    ThirdTimes(t * i, u, w, d * d);
    SameTimes(t, i * d, 1);
    SameMul(e, t, e, t);
    SameItself(c * (d * d));
    SameMinus(e * e, t * t, c * (d * d), c * (d * d));
  }

  lemma ChordProduct(v: int, y: int, n: int)
    ensures ((y - v) * (y - v) - n) * ((y + v) * (y + v) - n)
         == (y * y - v * v) * (y * y - v * v) - 2 * n * (y * y + v * v) + n * n
  {
    var a, b := (y - v) * (y - v), (y + v) * (y + v);
    assert (y - v) * (y + v) == y * y - v * v;
    assert a * b == ((y - v) * (y + v)) * ((y - v) * (y + v));
    assert a + b == 2 * (y * y + v * v);
    assert n * (a + b) == 2 * n * (y * y + v * v);
  }

  /** The same with the squares of the second coordinates taken from the curve. */
  lemma OnBoth(Y: int, V: int, f: int, g: int, n: int)
    requires Same(Y, f) && Same(V, g)
    ensures Same((Y - V) * (Y - V) - 2 * n * (Y + V) + n * n, (f - g) * (f - g) - 2 * n * (f + g) + n * n)
  {
    hide Same;
    SameMinus(Y, f, V, g);
    SameMul(Y - V, f - g, Y - V, f - g);
    SameTimes(-1, V, g);
    SameMinus(Y, f, -1 * V, -1 * g);
    SameTimes(2 * n, Y + V, f + g);
    SameMinus((Y - V) * (Y - V), (f - g) * (f - g), 2 * n * (Y + V), 2 * n * (f + g));
    SameItself(-(n * n));
    SameMinus((Y - V) * (Y - V) - 2 * n * (Y + V), (f - g) * (f - g) - 2 * n * (f + g), -(n * n), -(n * n));
  }

  lemma InverseSquare(i: int, d: int, j: int, h: int)
    requires Same(i * d, 1) && j == i * i && h == d * d
    ensures Same(j * h, 1)
  {
    hide Same;
    SameMul(i * d, 1, i * d, 1);
    assert (i * d) * (i * d) == j * h;
  }

  lemma CancelFactor(x: int, h: int, j: int, r: int)
    requires Same(j * h, 1) && Same(x * h * h, h * r)
    ensures Same(x * h, r)
  {
    hide Same;
    SameTimes(x * h, j * h, 1);
    SameTimes(r, j * h, 1);
    SameTimes(j, x * h * h, h * r);
    assert j * (x * h * h) == x * h * (j * h) && j * (h * r) == r * (j * h);
    SameReverse(x * h * (j * h), x * h);
    SameChain(x * h, x * h * (j * h), r * (j * h));
    SameChain(x * h, r * (j * h), r);
  }

  lemma SameReverse(a: int, b: int)
    requires Same(a, b)
    ensures Same(b, a)
  {
    var k := FactorOf(a, b);
    SameBy(b, a, -k);
  }

  lemma BothChords(T: int, U: int, h: int, a: int, b: int, p: int, q: int)
    requires Same(T * h, a) && Same(U * h, b) && a * b == p && Same(p, q)
    ensures Same(T * U * h * h, q)
  {
    hide Same;
    SameMul(T * h, a, U * h, b);
    assert (T * h) * (U * h) == T * U * h * h;
    SameChain(T * U * h * h, p, q);
  }

  /** The sum and the difference of two points, by the slopes (y - v) / (w - u) and (y + v) / (w - u). */
  lemma SumAndDifference(u: int, v: int, w: int, y: int, i: int)
    requires OnCurve(u, v) && OnCurve(w, y) && Same(i * (w - u), 1)
    ensures Same(Third((y - v) * i, u, w) * Third((y + v) * i, u, w) * ((w - u) * (w - u)), (u * w - 1) * (u * w - 1))
  {
    hide Third, Cubic, Same;
    var d, h := w - u, (w - u) * (w - u);
    var n, T, U := (486662 + u + w) * h, Third((y - v) * i, u, w), Third((y + v) * i, u, w);
    Chord(y - v, i, d, u, w);
    Chord(y + v, i, d, u, w);
    ChordProduct(v, y, n);
    OnBoth(y * y, v * v, Cubic(w), Cubic(u), n);
    ChordExpansion(u, w, n);
    BothChords(T, U, h, (y - v) * (y - v) - n, (y + v) * (y + v) - n,
               (y * y - v * v) * (y * y - v * v) - 2 * n * (y * y + v * v) + n * n, h * ((u * w - 1) * (u * w - 1)));
    InverseSquare(i, d, i * i, h);
    CancelFactor(T * U, h, i * i, (u * w - 1) * (u * w - 1));
  }

  /** The parts of the addition formulas, for points with x = u z; q is the product of the z. */
  lemma AddedParts(X: int, Z: int, X': int, Z': int, u: int, w: int, q: int)
    requires Same(X, u * Z) && Same(X', w * Z') && q == Z * Z'
    ensures Same((X * X' - q) * (X * X' - q), (u * w - 1) * (u * w - 1) * (q * q))
    ensures Same((X' * Z - Z' * X) * (X' * Z - Z' * X), (w - u) * (w - u) * (q * q))
  {
    CrossParts(u, w, Z, Z', q);
    hide Same;
    SameItself(q);
    SameItself(Z);
    SameItself(Z');
    SameMul(X, u * Z, X', w * Z');
    SameMinus(X * X', (u * w) * q, q, q);
    SameMul(X * X' - q, (u * w) * q - q, X * X' - q, (u * w) * q - q);
    SameMul(X', w * Z', Z, Z);
    SameMul(Z', Z', X, u * Z);
    SameMinus(X' * Z, w * q, Z' * X, u * q);
    SameMul(X' * Z - Z' * X, w * q - u * q, X' * Z - Z' * X, w * q - u * q);
  }

  lemma CrossParts(u: int, w: int, Z: int, Z': int, q: int)
    requires q == Z * Z'
    ensures (u * Z) * (w * Z') == (u * w) * q && (w * Z') * Z == w * q && Z' * (u * Z) == u * q
    ensures ((u * w) * q - q) * ((u * w) * q - q) == (u * w - 1) * (u * w - 1) * (q * q)
    ensures (w * q - u * q) * (w * q - u * q) == (w - u) * (w - u) * (q * q)
  {
    assert (u * Z) * (w * Z') == (u * w) * (Z * Z');
    assert (w * Z') * Z == w * (Z * Z') && Z' * (u * Z) == u * (Z * Z');
    assert (u * w) * q - q == (u * w - 1) * q && w * q - u * q == (w - u) * q;
    SquareOfProduct(u * w - 1, q);
    SquareOfProduct(w - u, q);
  }

  lemma SquareOfProduct(s: int, q: int)
    ensures (s * q) * (s * q) == s * s * (q * q)
  {
  }

  /** The second point the step gives is the sum of the two it is given, when x1 is their difference. */
  lemma StepAdds(x1: int, p2: XZ, p3: XZ, u: int, v: int, w: int, y: int, i: int)
    requires OnCurve(u, v) && OnCurve(w, y) && Same(i * (w - u), 1)
    requires Abscissa(p2, u) && Abscissa(p3, w) && Same(x1, Third((y + v) * i, u, w))
    ensures Abscissa(Step(x1, p2, p3).1, Third((y - v) * i, u, w))
    ensures Same(Step(x1, p2, p3).1.z, 4 * x1 * ((w - u) * (w - u)) * ((p2.z * p3.z) * (p2.z * p3.z)))
  {
    var q := p2.z * p3.z;
    StepFormulas(x1, p2, p3);
    AddedParts(p2.x, p2.z, p3.x, p3.z, u, w, q);
    SumAndDifference(u, v, w, y, i);
    StepAddsFrom(Step(x1, p2, p3).1, x1, p2.x * p3.x - q, p3.x * p2.z - p3.z * p2.x, q * q, (u * w - 1) * (u * w - 1),
                 (w - u) * (w - u), Third((y - v) * i, u, w), Third((y + v) * i, u, w));
  }

  lemma StepAddsFrom(a: XZ, x1: int, s: int, t: int, w: int, r: int, h: int, T: int, U: int)
    requires Leaves(4 * (s * s), a.x) && Leaves(x1 * (4 * (t * t)), a.z)
    requires Same(s * s, r * w) && Same(t * t, h * w) && Same(x1, U) && Same(T * U * h, r)
    ensures Abscissa(a, T) && Same(a.z, 4 * x1 * h * w)
  {
    hide Same;
    SameTimes(4, s * s, r * w);
    Reduces(a.x, 4 * (s * s), 4 * (r * w));
    SameTimes(4 * x1, t * t, h * w);
    assert 4 * x1 * (t * t) == x1 * (4 * (t * t)) && 4 * x1 * (h * w) == 4 * x1 * h * w == (x1 * h) * (4 * w);
    Reduces(a.z, x1 * (4 * (t * t)), 4 * x1 * h * w);
    SameTimes(T * h, x1, U);
    assert T * h * x1 == T * (x1 * h) && T * h * U == T * U * h;
    SameChain(T * (x1 * h), T * U * h, r);
    assert 4 * (r * w) == r * (4 * w);
    Ratio(a.x, a.z, r, x1 * h, 4 * w, T);
  }

  // ---------------------------------------------------------------------
  // Before and after the ladder
  // ---------------------------------------------------------------------

  /** The shared secret: bit 255 of the point and bits 0, 1, 2, 254 and 255 of the scalar do not matter. */
  lemma SharedWritten(k: nat, u: nat, a: nat)
    requires IsTrimmed(a, k)
    ensures 0 <= u % 0x8000000000000000000000000000000000000000000000000000000000000000 % PRIME
    ensures Shared(k, u)
         == Quotient(LadderResult(u % 0x8000000000000000000000000000000000000000000000000000000000000000 % PRIME, a).0)
  {
    TrimmedIs(k);
    TrimmedUnique(a, Trimmed(k), k);
    hide Quotient, LadderResult;
  }

  /** Dividing by multiplying with z^(p - 2): a quotient whenever Fermat's theorem holds for z, and zero for zero. */
  lemma QuotientIs(p: XZ)
    ensures Same(Pow(p.z, PRIME - 1), 1) ==> Same(Quotient(p) * p.z, p.x)
    ensures Same(p.z, 0) ==> Quotient(p) == 0
  {
    var w := Pow(p.z, PRIME - 2);
    assert Pow(p.z, PRIME - 1) == p.z * w;
    assert Pow(p.z, PRIME - 2) == p.z * Pow(p.z, PRIME - 3);
    QuotientLeaves(p, w);
    SameItself(p.x * w);
    hide *;
    QuotientRange(p);
    if Same(p.z * w, 1) { UnitFactor(p.x, p.z, w, Quotient(p)); }
    if Same(p.z, 0) {
      ZeroFactor(p.x, p.z, Pow(p.z, PRIME - 3), w, Quotient(p));
      ZeroAlone(Quotient(p));
    }
  }

  lemma QuotientLeaves(p: XZ, w: int)
    requires w == Pow(p.z, PRIME - 2)
    ensures Same(Quotient(p), p.x * w)
  {
    hide Pow, Same;
    SameItself(w);
    SameItself(p.x * (w % PRIME));
    SameTimes(p.x, w % PRIME, w);
    SameChain(Quotient(p), p.x * (w % PRIME), p.x * w);
  }

  lemma QuotientRange(p: XZ)
    ensures 0 <= Quotient(p) < PRIME
  {
    hide Pow;
  }

  lemma ZeroAlone(q: int)
    requires 0 <= q < PRIME && Same(q, 0)
    ensures q == 0
  {
    SameIs(q, 0);
  }

  lemma UnitFactor(x: int, z: int, w: int, q: int)
    requires Same(q, x * w) && Same(z * w, 1)
    ensures Same(q * z, x)
  {
    hide Same;
    SameTimes(z, q, x * w);
    SameTimes(x, z * w, 1);
    assert z * q == q * z && z * (x * w) == x * (z * w);
    SameChain(q * z, x * (z * w), x);
  }

  lemma ZeroFactor(x: int, z: int, v: int, w: int, q: int)
    requires Same(q, x * w) && Same(z, 0) && w == z * v
    ensures Same(q, 0)
  {
    hide Same;
    SameTimes(x * v, z, 0);
    assert x * w == x * v * z && x * v * 0 == 0;
    SameChain(q, x * w, 0);
  }
}
