/** Arithmetic modulo 2^255 - 19 on ten limbs of 26 and 25 bits, as Monocypher took it from
    ref10: multiplication, squaring and the two carry chains. */
module Field25519 {
  import opened Words

  // Weights of the limbs: limb i counts 2^ceil(25.5 * i).
  const W1: int := 0x4000000
  const W2: int := 0x8000000000000
  const W3: int := 0x20000000000000000000
  const W4: int := 0x40000000000000000000000000
  const W5: int := 0x100000000000000000000000000000000
  const W6: int := 0x200000000000000000000000000000000000000
  const W7: int := 0x800000000000000000000000000000000000000000000
  const W8: int := 0x1000000000000000000000000000000000000000000000000000
  const W9: int := 0x4000000000000000000000000000000000000000000000000000000000
  const PRIME: int := TWO255 - 19

  function Value(f0: int, f1: int, f2: int, f3: int, f4: int, f5: int, f6: int, f7: int, f8: int, f9: int): int {
    f0 + W1 * f1 + W2 * f2 + W3 * f3 + W4 * f4 + W5 * f5 + W6 * f6 + W7 * f7 + W8 * f8 + W9 * f9
  }

  /** The integer that a field element stands for. */
  ghost function Val(f: seq<int>): int
    requires |f| == 10
  {
    Value(f[0], f[1], f[2], f[3], f[4], f[5], f[6], f[7], f[8], f[9])
  }

  const EVEN: int := 110729625  // 1.65 * 2^26
  const ODD: int := 55364812    // 1.65 * 2^25

  /** Limbs that multiplication and squaring accept. */
  ghost predicate Bounded(f0: int, f1: int, f2: int, f3: int, f4: int, f5: int, f6: int, f7: int, f8: int, f9: int) {
    && -EVEN <= f0 <= EVEN && -EVEN <= f2 <= EVEN && -EVEN <= f4 <= EVEN
    && -EVEN <= f6 <= EVEN && -EVEN <= f8 <= EVEN
    && -ODD <= f1 <= ODD && -ODD <= f3 <= ODD && -ODD <= f5 <= ODD
    && -ODD <= f7 <= ODD && -ODD <= f9 <= ODD
  }

  // ---------------------------------------------------------------------
  // The weights
  // ---------------------------------------------------------------------

  function Radix(i: nat): (d: nat)
    ensures d > 0
  {
    if i % 2 == 0 then 0x400_0000 else 0x200_0000
  }

  /** The weight of limb i. */
  function Weight(i: nat): (w: nat)
    ensures w > 0
  {
    if i == 0 then 1 else Weight(i - 1) * Radix(i - 1)
  }

  lemma Weights()
    ensures Weight(0) == 1 && Weight(1) == W1 && Weight(2) == W2 && Weight(3) == W3 && Weight(4) == W4
    ensures Weight(5) == W5 && Weight(6) == W6 && Weight(7) == W7 && Weight(8) == W8 && Weight(9) == W9
    ensures Weight(10) == TWO255
  {
    assert Weight(1) == W1;
    assert Weight(3) == W3;
    assert Weight(5) == W5;
    assert Weight(7) == W7;
    assert Weight(9) == W9;
  }

  /** The value of the first i limbs. */
  ghost function Partial(t: seq<int>, i: nat): int
    requires i <= |t|
  {
    if i == 0 then 0 else Partial(t, i - 1) + Weight(i - 1) * t[i - 1]
  }

  lemma PartialNext(t: seq<int>, i: nat)
    requires i < |t|
    ensures Partial(t, i + 1) == Partial(t, i) + Weight(i) * t[i]
  {
  }

  lemma PartialAll(t: seq<int>)
    requires |t| == 10
    ensures Partial(t, 10) == Val(t)
  {
    Weights();
    hide Weight;
    assert Partial(t, 0) == 0;
    assert Partial(t, 2) == t[0] + W1 * t[1];
    assert Partial(t, 4) == Partial(t, 2) + W2 * t[2] + W3 * t[3];
    assert Partial(t, 6) == Partial(t, 4) + W4 * t[4] + W5 * t[5];
    assert Partial(t, 8) == Partial(t, 6) + W6 * t[6] + W7 * t[7];
  }

  /** Two odd limbs meet half a bit above the weight of their column. */
  function Parity(i: nat, j: nat): int {
    if i % 2 == 1 && j % 2 == 1 then 2 else 1
  }

  lemma {:induction false} WeightProduct(i: nat, j: nat)
    ensures Weight(i) * Weight(j) == Parity(i, j) * Weight(i + j)
  {
    if i == 0 {
    } else {
      WeightProduct(i - 1, j);
      RadixParity(i - 1, j);
      WeightNext(i - 1);
      WeightNext(i + j - 1);
      hide *;
      Swap3(Weight(i - 1), Radix(i - 1), Weight(j));
      Swap3(Parity(i - 1, j), Weight(i + j - 1), Radix(i - 1));
      Swap3(Parity(i, j), Weight(i + j - 1), Radix(i + j - 1));
    }
  }

  lemma WeightNext(i: nat)
    ensures Weight(i + 1) == Weight(i) * Radix(i)
  {
  }

  lemma RadixParity(i: nat, j: nat)
    ensures Parity(i, j) * Radix(i) == Parity(i + 1, j) * Radix(i + j)
  {
  }

  lemma Swap3(a: int, b: int, c: int)
    ensures (a * b) * c == (a * c) * b == a * (b * c)
  {
  }

  // ---------------------------------------------------------------------
  // The ten columns of a product
  // ---------------------------------------------------------------------

  /** Sum of products, from the first to the last. */
  function Dot(a: seq<int>, b: seq<int>): int
    requires |a| == |b|
  {
    if |a| == 0 then 0 else Dot(a[..|a| - 1], b[..|b| - 1]) + a[|a| - 1] * b[|b| - 1]
  }

  /** The limbs of f as column k takes them: the even columns double the odd limbs. */
  function Left(f: seq<int>, k: nat): (s: seq<int>)
    requires |f| == 10
    ensures |s| == 10
  {
    seq(10, i requires 0 <= i < 10 => if k % 2 == 0 && i % 2 == 1 then 2 * f[i] else f[i])
  }

  /** The limbs of g that meet them: those that land at or above 2^255 come back 19 times. */
  function Right(g: seq<int>, k: nat): (s: seq<int>)
    requires |g| == 10 && k < 10
    ensures |s| == 10
  {
    seq(10, i requires 0 <= i < 10 => if i <= k then g[k - i] else 19 * g[10 + k - i])
  }

  ghost function Column(f: seq<int>, g: seq<int>, k: nat): int
    requires |f| == 10 && |g| == 10 && k < 10
  {
    Dot(Left(f, k), Right(g, k))
  }

  ghost function Product(f: seq<int>, g: seq<int>): (s: seq<int>)
    requires |f| == 10 && |g| == 10
    ensures |s| == 10
  {
    seq(10, k requires 0 <= k < 10 => Column(f, g, k))
  }

  /** The limb that meets limb i in column k, or the column where limbs i and j meet. */
  function Partner(i: nat, k: nat): (j: nat)
    requires i < 10 && k < 10
    ensures j < 10
  {
    if i <= k then k - i else 10 + k - i
  }

  function Meeting(i: nat, j: nat): (k: nat)
    requires i < 10 && j < 10
    ensures k < 10 && Partner(i, k) == j
  {
    if i + j < 10 then i + j else i + j - 10
  }

  /** What limb i of f adds to column k. */
  ghost function Term(f: seq<int>, g: seq<int>, i: nat, k: nat): int
    requires |f| == 10 && |g| == 10 && i < 10 && k < 10
  {
    Left(f, k)[i] * Right(g, k)[i]
  }

  /** The columns after the limbs of f before limb n. */
  ghost function Columns(f: seq<int>, g: seq<int>, n: nat): (s: seq<int>)
    requires |f| == 10 && |g| == 10 && n <= 10
    ensures |s| == 10
  {
    seq(10, k requires 0 <= k < 10 => Dot(Left(f, k)[..n], Right(g, k)[..n]))
  }

  /** Limb i of f times the first n limbs of g, each in its column. */
  ghost function Row(f: seq<int>, g: seq<int>, i: nat, n: nat): (s: seq<int>)
    requires |f| == 10 && |g| == 10 && i < 10
    ensures |s| == 10
  {
    seq(10, k requires 0 <= k < 10 => if Partner(i, k) < n then Term(f, g, i, k) else 0)
  }

  lemma ValZero(s: seq<int>)
    requires |s| == 10 && forall k :: 0 <= k < 10 ==> s[k] == 0
    ensures Val(s) == 0
  {
  }

  lemma ValSum(a: seq<int>, b: seq<int>, c: seq<int>)
    requires |a| == 10 && |b| == 10 && |c| == 10
    requires forall k :: 0 <= k < 10 ==> c[k] == a[k] + b[k]
    ensures Val(c) == Val(a) + Val(b)
  {
  }

  lemma {:induction false} PartialUpdate(s: seq<int>, i: nat, k: nat, v: int)
    requires k < |s| && i <= |s|
    ensures Partial(s[k := v], i) == Partial(s, i) + (if k < i then Weight(k) * (v - s[k]) else 0)
  {
    if i == 0 {
    } else {
      PartialUpdate(s, i - 1, k, v);
      PartialNext(s, i - 1);
      PartialNext(s[k := v], i - 1);
      hide *;
      if k == i - 1 {
        assert Weight(k) * (v - s[k]) == Weight(k) * v - Weight(k) * s[k];
      }
    }
  }

  lemma ValUpdate(s: seq<int>, k: nat, v: int)
    requires |s| == 10 && k < 10 && s[k] == 0
    ensures Val(s[k := v]) == Val(s) + Weight(k) * v
  {
    PartialAll(s);
    PartialAll(s[k := v]);
    PartialUpdate(s, 10, k, v);
  }

  /** One limb of f times one limb of g. */
  lemma TermValue(f: seq<int>, g: seq<int>, i: nat, j: nat) returns (m: int)
    requires |f| == 10 && |g| == 10 && i < 10 && j < 10
    ensures (Weight(i) * f[i]) * (Weight(j) * g[j])
         == Weight(Meeting(i, j)) * Term(f, g, i, Meeting(i, j)) + m * PRIME
  {
    Regroup(Weight(i), f[i], Weight(j), g[j]);
    WeightProduct(i, j);
    if i + j < 10 {
      TermDirect(f, g, i, j);
      hide Weight, Term, Parity;
      m := 0;
      Direct(Weight(i + j), Parity(i, j), f[i] * g[j]);
    } else {
      TermWrapped(f, g, i, j);
      WeightProduct(10, i + j - 10);
      Weights();
      assert Parity(10, i + j - 10) == 1;
      hide Weight, Term, Parity;
      m := Wrapped(Weight(i + j - 10), Parity(i, j), f[i] * g[j]);
    }
  }

  lemma Regroup(v: int, a: int, w: int, b: int)
    ensures (v * a) * (w * b) == (v * w) * (a * b)
  {
    assert (v * a) * (w * b) == v * (a * (w * b)) == v * (w * (a * b));
  }

  lemma Direct(w: int, p: int, x: int)
    ensures (p * w) * x == w * (p * x)
  {
    assert (p * w) * x == (w * p) * x;
  }

  lemma Wrapped(w: int, p: int, x: int) returns (m: int)
    ensures (p * (TWO255 * w)) * x == w * (19 * (p * x)) + m * PRIME
  {
    m := w * (p * x);
    assert p * (TWO255 * w) == TWO255 * (p * w);
    Direct(w, p, x);
    assert (TWO255 * (p * w)) * x == TWO255 * ((p * w) * x);
    assert w * (19 * (p * x)) == 19 * m;
  }

  lemma TermDirect(f: seq<int>, g: seq<int>, i: nat, j: nat)
    requires |f| == 10 && |g| == 10 && i + j < 10
    ensures Term(f, g, i, i + j) == Parity(i, j) * (f[i] * g[j])
  {
    assert Left(f, i + j)[i] == Parity(i, j) * f[i];
    assert Right(g, i + j)[i] == g[j];
  }

  lemma TermWrapped(f: seq<int>, g: seq<int>, i: nat, j: nat)
    requires |f| == 10 && |g| == 10 && i < 10 && j < 10 && i + j >= 10
    ensures Term(f, g, i, i + j - 10) == 19 * (Parity(i, j) * (f[i] * g[j]))
  {
    assert Left(f, i + j - 10)[i] == Parity(i, j) * f[i];
    assert Right(g, i + j - 10)[i] == 19 * g[j];
  }

  /** One limb of f times the first n limbs of g. */
  lemma {:induction false} RowValue(f: seq<int>, g: seq<int>, i: nat, n: nat) returns (m: int)
    requires |f| == 10 && |g| == 10 && i < 10 && n <= 10
    ensures (Weight(i) * f[i]) * Partial(g, n) == Val(Row(f, g, i, n)) + m * PRIME
  {
    if n == 0 {
      m := 0;
      ValZero(Row(f, g, i, 0));
    } else {
      var j, k := n - 1, Meeting(i, n - 1);
      var m0 := RowValue(f, g, i, j);
      var m1 := TermValue(f, g, i, j);
      m := m0 + m1;
      RowStep(f, g, i, j);
      ValUpdate(Row(f, g, i, j), k, Term(f, g, i, k));
      PartialNext(g, j);
      hide *;
      Joined(Weight(i) * f[i], Partial(g, j), Weight(j) * g[j], Partial(g, n), Val(Row(f, g, i, j)), m0,
             Weight(k) * Term(f, g, i, k), m1);
    }
  }

  lemma Joined(v: int, a: int, b: int, c: int, x: int, m: int, y: int, n: int)
    requires v * a == x + m * PRIME && v * b == y + n * PRIME && c == a + b
    ensures v * c == x + y + (m + n) * PRIME
  {
    assert v * (a + b) == v * a + v * b;
  }

  lemma RowStep(f: seq<int>, g: seq<int>, i: nat, j: nat)
    requires |f| == 10 && |g| == 10 && i < 10 && j < 10
    ensures var k := Meeting(i, j);
      Row(f, g, i, j)[k] == 0 && Row(f, g, i, j + 1) == Row(f, g, i, j)[k := Term(f, g, i, k)]
  {
    hide Term;
    var k := Meeting(i, j);
    assert forall l {:trigger Partner(i, l)} :: 0 <= l < 10 ==> (Partner(i, l) == j <==> l == k);
  }

  lemma ColumnStep(f: seq<int>, g: seq<int>, n: nat, k: nat)
    requires |f| == 10 && |g| == 10 && n < 10 && k < 10
    ensures Columns(f, g, n + 1)[k] == Columns(f, g, n)[k] + Row(f, g, n, 10)[k]
  {
    var a, b := Left(f, k), Right(g, k);
    assert a[..n + 1][..n] == a[..n] && b[..n + 1][..n] == b[..n];
  }

  lemma ColumnsStep(f: seq<int>, g: seq<int>, n: nat)
    requires |f| == 10 && |g| == 10 && n < 10
    ensures Val(Columns(f, g, n + 1)) == Val(Columns(f, g, n)) + Val(Row(f, g, n, 10))
  {
    hide Columns, Row, Val;
    forall k | 0 <= k < 10
      ensures Columns(f, g, n + 1)[k] == Columns(f, g, n)[k] + Row(f, g, n, 10)[k]
    {
      ColumnStep(f, g, n, k);
    }
    ValSum(Columns(f, g, n), Row(f, g, n, 10), Columns(f, g, n + 1));
  }

  lemma ColumnsStart(f: seq<int>, g: seq<int>)
    requires |f| == 10 && |g| == 10
    ensures Partial(f, 0) == 0 && Val(Columns(f, g, 0)) == 0
  {
    ValZero(Columns(f, g, 0));
  }

  /** The first n limbs of f times g. */
  lemma {:induction false} ColumnsValue(f: seq<int>, g: seq<int>, n: nat) returns (m: int)
    requires |f| == 10 && |g| == 10 && n <= 10
    ensures Val(g) * Partial(f, n) == Val(Columns(f, g, n)) + m * PRIME
  {
    hide *;
    if n == 0 {
      ColumnsStart(f, g);
      m := 0;
    } else {
      var m0 := ColumnsValue(f, g, n - 1);
      var m1 := RowValue(f, g, n - 1, 10);
      m := m0 + m1;
      PartialAll(g);
      ColumnsStep(f, g, n - 1);
      PartialNext(f, n - 1);
      Joined(Val(g), Partial(f, n - 1), Weight(n - 1) * f[n - 1], Partial(f, n), Val(Columns(f, g, n - 1)), m0,
             Val(Row(f, g, n - 1, 10)), m1);
    }
  }

  /** The ten columns are the product of the two elements, up to a multiple of the prime. */
  lemma ProductIdentity(f: seq<int>, g: seq<int>) returns (m: int)
    requires |f| == 10 && |g| == 10
    ensures Val(f) * Val(g) == Val(Product(f, g)) + m * PRIME
  {
    m := ColumnsValue(f, g, 10);
    PartialAll(f);
    assert Columns(f, g, 10) == Product(f, g) by {
      forall k | 0 <= k < 10 ensures Columns(f, g, 10)[k] == Product(f, g)[k] {
        assert Left(f, k)[..10] == Left(f, k) && Right(g, k)[..10] == Right(g, k);
      }
    }
  }

  // ---------------------------------------------------------------------
  // Ranges
  // ---------------------------------------------------------------------

  const COLUMN: int := 190 * (EVEN * EVEN)

  ghost predicate Within(s: seq<int>, bound: int) {
    forall k :: 0 <= k < |s| ==> -bound <= s[k] <= bound
  }

  lemma DotLast(a: seq<int>, b: seq<int>)
    requires |a| == |b| > 0
    ensures var n := |a| - 1; Dot(a, b) == Dot(a[..n], b[..n]) + a[n] * b[n]
  {
  }

  lemma BoundNext(n: nat, c: int, x: int, y: int)
    requires -(n * c) <= x <= n * c && -c <= y <= c
    ensures -((n + 1) * c) <= x + y <= (n + 1) * c
  {
  }

  /** Every sum on the way to a column is bounded as well: it is the sum of a prefix. */
  lemma {:induction false} DotBound(a: seq<int>, b: seq<int>, A: int, B: int)
    requires A >= 0 && B >= 0 && |a| == |b| && Within(a, A) && Within(b, B)
    ensures -(|a| * (A * B)) <= Dot(a, b) <= |a| * (A * B)
  {
    if |a| == 0 {
    } else {
      var n := |a| - 1;
      assert Within(a[..n], A) && Within(b[..n], B);
      assert -A <= a[n] <= A && -B <= b[n] <= B;
      hide *;
      DotBound(a[..n], b[..n], A, B);
      MulBound(a[n], b[n], A, B);
      DotLast(a, b);
      BoundNext(n, A * B, Dot(a[..n], b[..n]), a[n] * b[n]);
    }
  }

  ghost predicate Limbs(f: seq<int>) {
    |f| == 10 && Bounded(f[0], f[1], f[2], f[3], f[4], f[5], f[6], f[7], f[8], f[9])
  }

  lemma LimbsWithin(f: seq<int>, k: nat)
    requires Limbs(f) && k < 10
    ensures Within(Left(f, k), EVEN) && Within(Right(f, k), 19 * EVEN)
  {
    assert forall i :: 0 <= i < 10 && i % 2 == 1 ==> -ODD <= f[i] <= ODD;
    assert Within(f, EVEN);
  }

  lemma ColumnBound(f: seq<int>, g: seq<int>, k: nat)
    requires Limbs(f) && Limbs(g) && k < 10
    ensures -COLUMN <= Column(f, g, k) <= COLUMN
  {
    LimbsWithin(f, k);
    LimbsWithin(g, k);
    DotBound(Left(f, k), Right(g, k), EVEN, 19 * EVEN);
  }

  function Dot10(a0: int, a1: int, a2: int, a3: int, a4: int, a5: int, a6: int, a7: int, a8: int, a9: int,
                 b0: int, b1: int, b2: int, b3: int, b4: int, b5: int, b6: int, b7: int, b8: int, b9: int): int {
    a0 * b0 + a1 * b1 + a2 * b2 + a3 * b3 + a4 * b4 + a5 * b5 + a6 * b6 + a7 * b7 + a8 * b8 + a9 * b9
  }

  function Dot6(a0: int, a1: int, a2: int, a3: int, a4: int, a5: int,
                b0: int, b1: int, b2: int, b3: int, b4: int, b5: int): int {
    a0 * b0 + a1 * b1 + a2 * b2 + a3 * b3 + a4 * b4 + a5 * b5
  }

  function Dot5(a0: int, a1: int, a2: int, a3: int, a4: int, b0: int, b1: int, b2: int, b3: int, b4: int): int {
    a0 * b0 + a1 * b1 + a2 * b2 + a3 * b3 + a4 * b4
  }

  /** The ten sums of fe_mul. */
  ghost function Sums(f: seq<int>, g: seq<int>): (s: seq<int>)
    requires |f| == 10 && |g| == 10
    ensures |s| == 10
  {
    [
      Dot10(f[0], 2 * f[1], f[2], 2 * f[3], f[4], 2 * f[5], f[6], 2 * f[7], f[8], 2 * f[9],
            g[0], 19 * g[9], 19 * g[8], 19 * g[7], 19 * g[6], 19 * g[5], 19 * g[4], 19 * g[3], 19 * g[2], 19 * g[1]),
      Dot10(f[0], f[1], f[2], f[3], f[4], f[5], f[6], f[7], f[8], f[9],
            g[1], g[0], 19 * g[9], 19 * g[8], 19 * g[7], 19 * g[6], 19 * g[5], 19 * g[4], 19 * g[3], 19 * g[2]),
      Dot10(f[0], 2 * f[1], f[2], 2 * f[3], f[4], 2 * f[5], f[6], 2 * f[7], f[8], 2 * f[9],
            g[2], g[1], g[0], 19 * g[9], 19 * g[8], 19 * g[7], 19 * g[6], 19 * g[5], 19 * g[4], 19 * g[3]),
      Dot10(f[0], f[1], f[2], f[3], f[4], f[5], f[6], f[7], f[8], f[9],
            g[3], g[2], g[1], g[0], 19 * g[9], 19 * g[8], 19 * g[7], 19 * g[6], 19 * g[5], 19 * g[4]),
      Dot10(f[0], 2 * f[1], f[2], 2 * f[3], f[4], 2 * f[5], f[6], 2 * f[7], f[8], 2 * f[9],
            g[4], g[3], g[2], g[1], g[0], 19 * g[9], 19 * g[8], 19 * g[7], 19 * g[6], 19 * g[5]),
      Dot10(f[0], f[1], f[2], f[3], f[4], f[5], f[6], f[7], f[8], f[9],
            g[5], g[4], g[3], g[2], g[1], g[0], 19 * g[9], 19 * g[8], 19 * g[7], 19 * g[6]),
      Dot10(f[0], 2 * f[1], f[2], 2 * f[3], f[4], 2 * f[5], f[6], 2 * f[7], f[8], 2 * f[9],
            g[6], g[5], g[4], g[3], g[2], g[1], g[0], 19 * g[9], 19 * g[8], 19 * g[7]),
      Dot10(f[0], f[1], f[2], f[3], f[4], f[5], f[6], f[7], f[8], f[9],
            g[7], g[6], g[5], g[4], g[3], g[2], g[1], g[0], 19 * g[9], 19 * g[8]),
      Dot10(f[0], 2 * f[1], f[2], 2 * f[3], f[4], 2 * f[5], f[6], 2 * f[7], f[8], 2 * f[9],
            g[8], g[7], g[6], g[5], g[4], g[3], g[2], g[1], g[0], 19 * g[9]),
      Dot10(f[0], f[1], f[2], f[3], f[4], f[5], f[6], f[7], f[8], f[9],
            g[9], g[8], g[7], g[6], g[5], g[4], g[3], g[2], g[1], g[0])
    ]
  }

  /** The ten sums of fe_sq, which take equal products once. */
  ghost function Squares(f: seq<int>): (s: seq<int>)
    requires |f| == 10
    ensures |s| == 10
  {
    [
      Dot6(f[0], 2 * f[1], 2 * f[2], 2 * f[3], 2 * f[4], f[5],
           f[0], 38 * f[9], 19 * f[8], 38 * f[7], 19 * f[6], 38 * f[5]),
      Dot5(2 * f[0], f[2], 2 * f[3], f[4], 2 * f[5], f[1], 38 * f[9], 19 * f[8], 38 * f[7], 19 * f[6]),
      Dot6(2 * f[0], 2 * f[1], 2 * f[3], 2 * f[4], 2 * f[5], f[6],
           f[2], f[1], 38 * f[9], 19 * f[8], 38 * f[7], 19 * f[6]),
      Dot5(2 * f[0], 2 * f[1], f[4], 2 * f[5], f[6], f[3], f[2], 38 * f[9], 19 * f[8], 38 * f[7]),
      Dot6(2 * f[0], 2 * f[1], f[2], 2 * f[5], 2 * f[6], f[7], f[4], 2 * f[3], f[2], 38 * f[9], 19 * f[8], 38 * f[7]),
      Dot5(2 * f[0], 2 * f[1], 2 * f[2], f[6], 2 * f[7], f[5], f[4], f[3], 38 * f[9], 19 * f[8]),
      Dot6(2 * f[0], 2 * f[1], 2 * f[2], 2 * f[3], 2 * f[7], f[8], f[6], 2 * f[5], f[4], f[3], 38 * f[9], 19 * f[8]),
      Dot5(2 * f[0], 2 * f[1], 2 * f[2], 2 * f[3], f[8], f[7], f[6], f[5], f[4], 38 * f[9]),
      Dot6(2 * f[0], 2 * f[1], 2 * f[2], 2 * f[3], f[4], f[9], f[8], 2 * f[7], f[6], 2 * f[5], f[4], 38 * f[9]),
      Dot5(2 * f[0], 2 * f[1], 2 * f[2], 2 * f[3], f[4], f[9], f[8], f[7], f[6], 2 * f[5])
    ]
  }

  lemma DotPeel(a: seq<int>, b: seq<int>, n: nat)
    requires n < |a| && n < |b|
    ensures Dot(a[..n + 1], b[..n + 1]) == Dot(a[..n], b[..n]) + a[n] * b[n]
  {
    assert a[..n + 1][..n] == a[..n] && b[..n + 1][..n] == b[..n];
  }

  lemma DotIs(a: seq<int>, b: seq<int>)
    requires |a| == 10 == |b|
    ensures Dot(a, b) == Dot10(a[0], a[1], a[2], a[3], a[4], a[5], a[6], a[7], a[8], a[9],
                               b[0], b[1], b[2], b[3], b[4], b[5], b[6], b[7], b[8], b[9])
  {
    assert Dot(a[..0], b[..0]) == 0;
    hide Dot;
    DotPeel(a, b, 0);
    DotPeel(a, b, 1);
    DotPeel(a, b, 2);
    DotPeel(a, b, 3);
    DotPeel(a, b, 4);
    DotPeel(a, b, 5);
    DotPeel(a, b, 6);
    DotPeel(a, b, 7);
    DotPeel(a, b, 8);
    DotPeel(a, b, 9);
    assert a[..10] == a && b[..10] == b;
  }

  lemma SumIsColumn(f: seq<int>, g: seq<int>, k: nat)
    requires |f| == 10 && |g| == 10 && k < 10
    ensures Sums(f, g)[k] == Column(f, g, k)
  {
    DotIs(Left(f, k), Right(g, k));
    hide Dot, Dot10;
  }

  lemma SumsAreColumns(f: seq<int>, g: seq<int>)
    requires |f| == 10 && |g| == 10
    ensures Sums(f, g) == Product(f, g)
  {
    hide Sums, Column;
    forall k | 0 <= k < 10 ensures Sums(f, g)[k] == Product(f, g)[k] {
      SumIsColumn(f, g, k);
    }
  }

  /** The sums of fe_mul and of fe_sq fit 64 bits on limbs with one addition of slack. */
  lemma SumsFit(f: seq<int>, g: seq<int>)
    requires Limbs(f) && Limbs(g)
    ensures Within(Sums(f, g), COLUMN)
  {
    hide Sums, Column;
    SumsAreColumns(f, g);
    forall k | 0 <= k < 10 ensures -COLUMN <= Sums(f, g)[k] <= COLUMN {
      ColumnBound(f, g, k);
    }
  }

  lemma SquaresFit(f: seq<int>)
    requires Limbs(f)
    ensures Within(Squares(f), COLUMN)
  {
    assert |f| == 10;
    hide *;
    SumsFit(f, f);
    LowSquares(f);
    HighSquares(f);
    assert Squares(f) == Sums(f, f);
  }

  lemma LowSquares(f: seq<int>)
    requires |f| == 10
    ensures Squares(f)[0] == Sums(f, f)[0] && Squares(f)[1] == Sums(f, f)[1] && Squares(f)[2] == Sums(f, f)[2]
    ensures Squares(f)[3] == Sums(f, f)[3] && Squares(f)[4] == Sums(f, f)[4]
  {
  }

  lemma HighSquares(f: seq<int>)
    requires |f| == 10
    ensures Squares(f)[5] == Sums(f, f)[5] && Squares(f)[6] == Sums(f, f)[6] && Squares(f)[7] == Sums(f, f)[7]
    ensures Squares(f)[8] == Sums(f, f)[8] && Squares(f)[9] == Sums(f, f)[9]
  {
  }

  /** The shortened columns of a square are those of the product with itself. */
  lemma SquareValue(f: seq<int>) returns (m: int)
    requires |f| == 10
    ensures Val(f) * Val(f) == Val(Squares(f)) + m * PRIME
  {
    hide *;
    LowSquares(f);
    HighSquares(f);
    SumsAreColumns(f, f);
    assert Squares(f) == Sums(f, f);
    m := ProductIdentity(f, f);
  }

  ghost predicate ColumnsFit(h0: int, h1: int, h2: int, h3: int, h4: int, h5: int, h6: int, h7: int, h8: int, h9: int) {
    && -COLUMN <= h0 <= COLUMN && -COLUMN <= h1 <= COLUMN && -COLUMN <= h2 <= COLUMN && -COLUMN <= h3 <= COLUMN
    && -COLUMN <= h4 <= COLUMN && -COLUMN <= h5 <= COLUMN && -COLUMN <= h6 <= COLUMN && -COLUMN <= h7 <= COLUMN
    && -COLUMN <= h8 <= COLUMN && -COLUMN <= h9 <= COLUMN
  }

  lemma EachFits(h: seq<int>)
    requires |h| == 10 && Within(h, COLUMN)
    ensures ColumnsFit(h[0], h[1], h[2], h[3], h[4], h[5], h[6], h[7], h[8], h[9])
  {
  }

  /** The sums of fe_mul, in 64 bits. */
  method MulColumns(f0: i32, f1: i32, f2: i32, f3: i32, f4: i32, f5: i32, f6: i32, f7: i32, f8: i32, f9: i32,
                    g0: i32, g1: i32, g2: i32, g3: i32, g4: i32, g5: i32, g6: i32, g7: i32, g8: i32, g9: i32)
    returns (h0: i64, h1: i64, h2: i64, h3: i64, h4: i64, h5: i64, h6: i64, h7: i64, h8: i64, h9: i64)
    requires Bounded(f0, f1, f2, f3, f4, f5, f6, f7, f8, f9) && Bounded(g0, g1, g2, g3, g4, g5, g6, g7, g8, g9)
    ensures [h0, h1, h2, h3, h4, h5, h6, h7, h8, h9]
         == Sums([f0, f1, f2, f3, f4, f5, f6, f7, f8, f9], [g0, g1, g2, g3, g4, g5, g6, g7, g8, g9])
    ensures ColumnsFit(h0, h1, h2, h3, h4, h5, h6, h7, h8, h9)
  {
    var F1: i32 := f1 as int * 2;
    var F3: i32 := f3 as int * 2;
    var F5: i32 := f5 as int * 2;
    var F7: i32 := f7 as int * 2;
    var F9: i32 := f9 as int * 2;
    var G1: i32 := g1 as int * 19;
    var G2: i32 := g2 as int * 19;
    var G3: i32 := g3 as int * 19;
    var G4: i32 := g4 as int * 19;
    var G5: i32 := g5 as int * 19;
    var G6: i32 := g6 as int * 19;
    var G7: i32 := g7 as int * 19;
    var G8: i32 := g8 as int * 19;
    var G9: i32 := g9 as int * 19;
    ghost var f, g := [f0, f1, f2, f3, f4, f5, f6, f7, f8, f9], [g0, g1, g2, g3, g4, g5, g6, g7, g8, g9];
    SumsFit(f, g);
    hide Dot10;
    var t0 := Dot10(f0, F1, f2, F3, f4, F5, f6, F7, f8, F9, g0, G9, G8, G7, G6, G5, G4, G3, G2, G1);
    var t1 := Dot10(f0, f1, f2, f3, f4, f5, f6, f7, f8, f9, g1, g0, G9, G8, G7, G6, G5, G4, G3, G2);
    var t2 := Dot10(f0, F1, f2, F3, f4, F5, f6, F7, f8, F9, g2, g1, g0, G9, G8, G7, G6, G5, G4, G3);
    var t3 := Dot10(f0, f1, f2, f3, f4, f5, f6, f7, f8, f9, g3, g2, g1, g0, G9, G8, G7, G6, G5, G4);
    var t4 := Dot10(f0, F1, f2, F3, f4, F5, f6, F7, f8, F9, g4, g3, g2, g1, g0, G9, G8, G7, G6, G5);
    var t5 := Dot10(f0, f1, f2, f3, f4, f5, f6, f7, f8, f9, g5, g4, g3, g2, g1, g0, G9, G8, G7, G6);
    var t6 := Dot10(f0, F1, f2, F3, f4, F5, f6, F7, f8, F9, g6, g5, g4, g3, g2, g1, g0, G9, G8, G7);
    var t7 := Dot10(f0, f1, f2, f3, f4, f5, f6, f7, f8, f9, g7, g6, g5, g4, g3, g2, g1, g0, G9, G8);
    var t8 := Dot10(f0, F1, f2, F3, f4, F5, f6, F7, f8, F9, g8, g7, g6, g5, g4, g3, g2, g1, g0, G9);
    var t9 := Dot10(f0, f1, f2, f3, f4, f5, f6, f7, f8, f9, g9, g8, g7, g6, g5, g4, g3, g2, g1, g0);
    ghost var t := [t0, t1, t2, t3, t4, t5, t6, t7, t8, t9];
    assert t == Sums(f, g);
    hide Sums;
    EachFits(t);
    h0, h1, h2, h3, h4, h5, h6, h7, h8, h9 := t0, t1, t2, t3, t4, t5, t6, t7, t8, t9;
  }

  /** The sums of fe_sq. */
  method SquareColumns(f0: i32, f1: i32, f2: i32, f3: i32, f4: i32, f5: i32, f6: i32, f7: i32, f8: i32, f9: i32)
    returns (h0: i64, h1: i64, h2: i64, h3: i64, h4: i64, h5: i64, h6: i64, h7: i64, h8: i64, h9: i64)
    requires Bounded(f0, f1, f2, f3, f4, f5, f6, f7, f8, f9)
    ensures [h0, h1, h2, h3, h4, h5, h6, h7, h8, h9] == Squares([f0, f1, f2, f3, f4, f5, f6, f7, f8, f9])
    ensures ColumnsFit(h0, h1, h2, h3, h4, h5, h6, h7, h8, h9)
  {
    var f0_2: i32 := f0 as int * 2;
    var f1_2: i32 := f1 as int * 2;
    var f2_2: i32 := f2 as int * 2;
    var f3_2: i32 := f3 as int * 2;
    var f4_2: i32 := f4 as int * 2;
    var f5_2: i32 := f5 as int * 2;
    var f6_2: i32 := f6 as int * 2;
    var f7_2: i32 := f7 as int * 2;
    var f5_38: i32 := f5 as int * 38;
    var f6_19: i32 := f6 as int * 19;
    var f7_38: i32 := f7 as int * 38;
    var f8_19: i32 := f8 as int * 19;
    var f9_38: i32 := f9 as int * 38;
    ghost var f := [f0, f1, f2, f3, f4, f5, f6, f7, f8, f9];
    SquaresFit(f);
    hide Dot5, Dot6;
    var t0 := Dot6(f0, f1_2, f2_2, f3_2, f4_2, f5, f0, f9_38, f8_19, f7_38, f6_19, f5_38);
    var t1 := Dot5(f0_2, f2, f3_2, f4, f5_2, f1, f9_38, f8_19, f7_38, f6_19);
    var t2 := Dot6(f0_2, f1_2, f3_2, f4_2, f5_2, f6, f2, f1, f9_38, f8_19, f7_38, f6_19);
    var t3 := Dot5(f0_2, f1_2, f4, f5_2, f6, f3, f2, f9_38, f8_19, f7_38);
    var t4 := Dot6(f0_2, f1_2, f2, f5_2, f6_2, f7, f4, f3_2, f2, f9_38, f8_19, f7_38);
    var t5 := Dot5(f0_2, f1_2, f2_2, f6, f7_2, f5, f4, f3, f9_38, f8_19);
    var t6 := Dot6(f0_2, f1_2, f2_2, f3_2, f7_2, f8, f6, f5_2, f4, f3, f9_38, f8_19);
    var t7 := Dot5(f0_2, f1_2, f2_2, f3_2, f8, f7, f6, f5, f4, f9_38);
    var t8 := Dot6(f0_2, f1_2, f2_2, f3_2, f4, f9, f8, f7_2, f6, f5_2, f4, f9_38);
    var t9 := Dot5(f0_2, f1_2, f2_2, f3_2, f4, f9, f8, f7, f6, f5_2);
    ghost var t := [t0, t1, t2, t3, t4, t5, t6, t7, t8, t9];
    assert t == Squares(f);
    hide Squares;
    EachFits(t);
    h0, h1, h2, h3, h4, h5, h6, h7, h8, h9 := t0, t1, t2, t3, t4, t5, t6, t7, t8, t9;
  }

  // ---------------------------------------------------------------------
  // The two carry chains
  // ---------------------------------------------------------------------

  const REDUCED_EVEN: int := 33889976  // 1.01 * 2^25
  const REDUCED_ODD: int := 16944988   // 1.01 * 2^24

  ghost predicate Reduced(f0: int, f1: int, f2: int, f3: int, f4: int, f5: int, f6: int, f7: int, f8: int, f9: int) {
    && -REDUCED_EVEN <= f0 <= REDUCED_EVEN && -REDUCED_EVEN <= f2 <= REDUCED_EVEN
          && -REDUCED_EVEN <= f4 <= REDUCED_EVEN
    && -REDUCED_EVEN <= f6 <= REDUCED_EVEN && -REDUCED_EVEN <= f8 <= REDUCED_EVEN
    && -REDUCED_ODD <= f1 <= REDUCED_ODD && -REDUCED_ODD <= f3 <= REDUCED_ODD && -REDUCED_ODD <= f5 <= REDUCED_ODD
    && -REDUCED_ODD <= f7 <= REDUCED_ODD && -REDUCED_ODD <= f9 <= REDUCED_ODD
  }

  /** One line of the carry macros: a limb is rounded to 26 signed bits, and the next one takes the carry. */
  method Carry26(h: i64, next: i64) returns (low: i64, up: i64)
    requires -0x4000_0000_0000_0000 <= h <= 0x4000_0000_0000_0000
    requires -0x4000_0000_0000_0000 <= next <= 0x4000_0000_0000_0000
    ensures low + 0x400_0000 * up == h + 0x400_0000 * next
    ensures -0x200_0000 <= low < 0x200_0000
  {
    var c := (h + 0x200_0000) / 0x400_0000;
    up := next + c;
    low := h - c * 0x400_0000;
  }

  /** The same for 25 bits. */
  method Carry25(h: i64, next: i64) returns (low: i64, up: i64)
    requires -0x4000_0000_0000_0000 <= h <= 0x4000_0000_0000_0000
    requires -0x4000_0000_0000_0000 <= next <= 0x4000_0000_0000_0000
    ensures low + 0x200_0000 * up == h + 0x200_0000 * next
    ensures -0x100_0000 <= low < 0x100_0000
  {
    var c := (h + 0x100_0000) / 0x200_0000;
    up := next + c;
    low := h - c * 0x200_0000;
  }

  /** The line for the last limb, whose carry comes back to the first one 19 times. */
  method CarryBack(h: i64, first: i64) returns (low: i64, up: i64, ghost k: int)
    requires -0x4000_0000_0000_0000 <= h <= 0x4000_0000_0000_0000
    requires -0x4000_0000_0000_0000 <= first <= 0x4000_0000_0000_0000
    ensures h == low + 0x200_0000 * k && up == first + 19 * k
    ensures -0x100_0000 <= low < 0x100_0000
  {
    var c := (h + 0x100_0000) / 0x200_0000;
    k := c;
    up := first + c * 19;
    low := h - c * 0x200_0000;
  }

  /** The CARRY macro that ends fe_mul and fe_sq. */
  method Carry(t0: i64, t1: i64, t2: i64, t3: i64, t4: i64, t5: i64, t6: i64, t7: i64, t8: i64, t9: i64)
    returns (r0: i32, r1: i32, r2: i32, r3: i32, r4: i32, r5: i32, r6: i32, r7: i32, r8: i32, r9: i32, ghost k: int)
    requires ColumnsFit(t0, t1, t2, t3, t4, t5, t6, t7, t8, t9)
    ensures Reduced(r0, r1, r2, r3, r4, r5, r6, r7, r8, r9)
    ensures Value(t0, t1, t2, t3, t4, t5, t6, t7, t8, t9) == Value(r0, r1, r2, r3, r4, r5, r6, r7, r8, r9) + k * PRIME
  {
    var h0: i64, h1: i64, h2: i64, h3: i64, h4: i64, h5: i64, h6: i64, h7: i64, h8: i64, h9: i64 := t0, t1, t2,
          t3, t4, t5, t6, t7, t8, t9;
    h0, h1 := Carry26(h0, h1);
    h4, h5 := Carry26(h4, h5);
    h1, h2 := Carry25(h1, h2);
    h5, h6 := Carry25(h5, h6);
    h2, h3 := Carry26(h2, h3);
    h6, h7 := Carry26(h6, h7);
    h3, h4 := Carry25(h3, h4);
    h7, h8 := Carry25(h7, h8);
    h4, h5 := Carry26(h4, h5);
    h8, h9 := Carry26(h8, h9);
    h9, h0, k := CarryBack(h9, h0);
    h0, h1 := Carry26(h0, h1);
    r0, r1, r2, r3, r4, r5, r6, r7, r8, r9 := h0, h1, h2, h3, h4, h5, h6, h7, h8, h9;
  }

  const WIDE_EVEN: int := 8246515640032  // about 1.01 * 2^26 * 121666
  const WIDE_ODD: int := 4123257820016

  /** The FE_CARRY macro that ends fe_frombytes and fe_mul_small. */
  method FeCarry(t0: i64, t1: i64, t2: i64, t3: i64, t4: i64, t5: i64, t6: i64, t7: i64, t8: i64, t9: i64)
    returns (r0: i32, r1: i32, r2: i32, r3: i32, r4: i32, r5: i32, r6: i32, r7: i32, r8: i32, r9: i32, ghost k: int)
    requires -WIDE_EVEN <= t0 <= WIDE_EVEN && -WIDE_ODD <= t1 <= WIDE_ODD && -WIDE_EVEN <= t2 <= WIDE_EVEN
          && -WIDE_ODD <= t3 <= WIDE_ODD && -WIDE_EVEN <= t4 <= WIDE_EVEN
    requires -WIDE_ODD <= t5 <= WIDE_ODD && -WIDE_EVEN <= t6 <= WIDE_EVEN && -WIDE_ODD <= t7 <= WIDE_ODD
          && -WIDE_EVEN <= t8 <= WIDE_EVEN && -WIDE_ODD <= t9 <= WIDE_ODD
    ensures Reduced(r0, r1, r2, r3, r4, r5, r6, r7, r8, r9)
    ensures Value(t0, t1, t2, t3, t4, t5, t6, t7, t8, t9) == Value(r0, r1, r2, r3, r4, r5, r6, r7, r8, r9) + k * PRIME
  {
    var h0: i64, h1: i64, h2: i64, h3: i64, h4: i64, h5: i64, h6: i64, h7: i64, h8: i64, h9: i64 := t0, t1, t2,
          t3, t4, t5, t6, t7, t8, t9;
    h9, h0, k := CarryBack(h9, h0);
    h1, h2 := Carry25(h1, h2);
    h3, h4 := Carry25(h3, h4);
    h5, h6 := Carry25(h5, h6);
    h7, h8 := Carry25(h7, h8);
    h0, h1 := Carry26(h0, h1);
    h2, h3 := Carry26(h2, h3);
    h4, h5 := Carry26(h4, h5);
    h6, h7 := Carry26(h6, h7);
    h8, h9 := Carry26(h8, h9);
    r0, r1, r2, r3, r4, r5, r6, r7, r8, r9 := h0, h1, h2, h3, h4, h5, h6, h7, h8, h9;
  }

  lemma Fold(x: int, t: int, k: int, r: int, k': int)
    requires x == t + k * PRIME && t == r + k' * PRIME
    ensures r % PRIME == x % PRIME
  {
    ModCongruent(x, r, k + k', PRIME);
  }

  /** The body of fe_mul: the limbs of a product, reduced. */
  method MulLimbs(f0: i32, f1: i32, f2: i32, f3: i32, f4: i32, f5: i32, f6: i32, f7: i32, f8: i32, f9: i32,
                  g0: i32, g1: i32, g2: i32, g3: i32, g4: i32, g5: i32, g6: i32, g7: i32, g8: i32, g9: i32)
    returns (r0: i32, r1: i32, r2: i32, r3: i32, r4: i32, r5: i32, r6: i32, r7: i32, r8: i32, r9: i32)
    requires Bounded(f0, f1, f2, f3, f4, f5, f6, f7, f8, f9) && Bounded(g0, g1, g2, g3, g4, g5, g6, g7, g8, g9)
    ensures Reduced(r0, r1, r2, r3, r4, r5, r6, r7, r8, r9)
    ensures Value(r0, r1, r2, r3, r4, r5, r6, r7, r8, r9) % PRIME
         == Value(f0, f1, f2, f3, f4, f5, f6, f7, f8, f9) * Value(g0, g1, g2, g3, g4, g5, g6, g7, g8, g9) % PRIME
  {
    var t0: i64, t1: i64, t2: i64, t3: i64, t4: i64, t5: i64, t6: i64, t7: i64, t8: i64, t9: i64 :=
      MulColumns(f0, f1, f2, f3, f4, f5, f6, f7, f8, f9, g0, g1, g2, g3, g4, g5, g6, g7, g8, g9);
    ghost var f, g := [f0, f1, f2, f3, f4, f5, f6, f7, f8, f9], [g0, g1, g2, g3, g4, g5, g6, g7, g8, g9];
    ghost var t := [t0, t1, t2, t3, t4, t5, t6, t7, t8, t9];
    assert Val(f) == Value(f0, f1, f2, f3, f4, f5, f6, f7, f8, f9)
        && Val(g) == Value(g0, g1, g2, g3, g4, g5, g6, g7, g8, g9)
        && Val(t) == Value(t0, t1, t2, t3, t4, t5, t6, t7, t8, t9);
    hide *;
    SumsAreColumns(f, g);
    ghost var m := ProductIdentity(f, g);
    ghost var k;
    r0, r1, r2, r3, r4, r5, r6, r7, r8, r9, k := Carry(t0, t1, t2, t3, t4, t5, t6, t7, t8, t9);
    Fold(Val(f) * Val(g), Val(t), m, Value(r0, r1, r2, r3, r4, r5, r6, r7, r8, r9), k);
  }

  /** The body of fe_sq. */
  method SqLimbs(f0: i32, f1: i32, f2: i32, f3: i32, f4: i32, f5: i32, f6: i32, f7: i32, f8: i32, f9: i32)
    returns (r0: i32, r1: i32, r2: i32, r3: i32, r4: i32, r5: i32, r6: i32, r7: i32, r8: i32, r9: i32)
    requires Bounded(f0, f1, f2, f3, f4, f5, f6, f7, f8, f9)
    ensures Reduced(r0, r1, r2, r3, r4, r5, r6, r7, r8, r9)
    ensures Value(r0, r1, r2, r3, r4, r5, r6, r7, r8, r9) % PRIME
         == Value(f0, f1, f2, f3, f4, f5, f6, f7, f8, f9) * Value(f0, f1, f2, f3, f4, f5, f6, f7, f8, f9) % PRIME
  {
    var t0: i64, t1: i64, t2: i64, t3: i64, t4: i64, t5: i64, t6: i64, t7: i64, t8: i64, t9: i64 :=
      SquareColumns(f0, f1, f2, f3, f4, f5, f6, f7, f8, f9);
    ghost var f, t := [f0, f1, f2, f3, f4, f5, f6, f7, f8, f9], [t0, t1, t2, t3, t4, t5, t6, t7, t8, t9];
    assert Val(f) == Value(f0, f1, f2, f3, f4, f5, f6, f7, f8, f9)
        && Val(t) == Value(t0, t1, t2, t3, t4, t5, t6, t7, t8, t9);
    hide *;
    ghost var m := SquareValue(f);
    ghost var k;
    r0, r1, r2, r3, r4, r5, r6, r7, r8, r9, k := Carry(t0, t1, t2, t3, t4, t5, t6, t7, t8, t9);
    Fold(Val(f) * Val(f), Val(t), m, Value(r0, r1, r2, r3, r4, r5, r6, r7, r8, r9), k);
  }
}
