/** crypto_x25519 on limbs, against section 5 of RFC 7748 on integers modulo 2^255 - 19. */
module X25519 {
  import opened Words
  import opened Bits
  import opened Field25519
  import opened FieldElement
  import opened FieldBytes
  import opened FieldPower
  import opened Scalars
  import opened Ladder
  import opened Groups

  /** A projective x-coordinate. */
  datatype XZ = XZ(x: int, z: int)

  /** The body of the loop of section 5 of RFC 7748: doubles p2, adds p3 to it. */
  ghost function Step(x1: int, p2: XZ, p3: XZ): (XZ, XZ) {
    var A := Plus(p2.x, p2.z);
    var AA := Mul(A, A);
    var B := Minus(p2.x, p2.z);
    var BB := Mul(B, B);
    var E := Minus(AA, BB);
    var C := Plus(p3.x, p3.z);
    var D := Minus(p3.x, p3.z);
    var DA := Mul(D, A);
    var CB := Mul(C, B);
    var S, T := Plus(DA, CB), Minus(DA, CB);
    (XZ(Mul(AA, BB), Mul(E, Plus(AA, Mul(121665, E)))),
     XZ(Mul(S, S), Mul(x1, Mul(T, T))))
  }

  ghost predicate Division(a: int, q: int, r: int) {
    a == q * PRIME + r && 0 <= r < PRIME
  }

  /** The remainder of a is r. */
  ghost predicate Leaves(a: int, r: int) {
    exists q :: Division(a, q, r)
  }

  lemma LeavesIs(a: int, r: int)
    ensures Leaves(a, r) <==> a % PRIME == r
  {
    if Leaves(a, r) {
      var q :| Division(a, q, r);
      DivModUnique(a, PRIME, q, r);
    }
    if a % PRIME == r { assert Division(a, a / PRIME, r); }
  }

  lemma PlusOf(a: int, b: int, x: int, y: int)
    requires Leaves(x, a) && Leaves(y, b)
    ensures Leaves(x + y, Plus(a, b))
  {
    LeavesIs(x, a);
    LeavesIs(y, b);
    LeavesIs(x + y, Plus(a, b));
    hide Leaves;
    ModAdd(x, y, PRIME);
  }

  lemma MinusOf(a: int, b: int, x: int, y: int)
    requires Leaves(x, a) && Leaves(y, b)
    ensures Leaves(x - y, Minus(a, b))
  {
    LeavesIs(x, a);
    LeavesIs(y, b);
    LeavesIs(x - y, Minus(a, b));
    hide Leaves;
    ModCongruent(a - b, x - y, y / PRIME - x / PRIME, PRIME);
  }

  lemma MulOf(a: int, b: int, x: int, y: int)
    requires Leaves(x, a) && Leaves(y, b)
    ensures Leaves(x * y, Mul(a, b))
  {
    LeavesIs(x, a);
    LeavesIs(y, b);
    LeavesIs(x * y, Mul(a, b));
    hide Leaves;
    ModMul(x, y, PRIME);
  }

  lemma MulBy(c: int, b: int, y: int)
    requires Leaves(y, b)
    ensures Leaves(c * y, Mul(c, b))
  {
    LeavesIs(y, b);
    LeavesIs(c * y, Mul(c, b));
    hide Leaves;
    ModMul(c, y, PRIME);
  }

  lemma PlusIs(a: int, b: int)
    ensures Leaves(a + b, Plus(a, b)) && Leaves(a - b, Minus(a, b))
  {
    LeavesIs(a + b, Plus(a, b));
    LeavesIs(a - b, Minus(a, b));
  }

  lemma Factors(X: int, Z: int)
    ensures (X + Z) * (X + Z) - (X - Z) * (X - Z) == 4 * X * Z
    ensures (X + Z) * (X + Z) + 121665 * (4 * X * Z) == X * X + 486662 * X * Z + Z * Z
  {
  }

  lemma Cross(X2: int, Z2: int, X3: int, Z3: int)
    ensures (X3 - Z3) * (X2 + Z2) + (X3 + Z3) * (X2 - Z2) == 2 * (X2 * X3 - Z2 * Z3)
    ensures (X3 - Z3) * (X2 + Z2) - (X3 + Z3) * (X2 - Z2) == 2 * (X3 * Z2 - Z3 * X2)
  {
  }

  lemma Squares4(s: int, x: int)
    requires s == 2 * x
    ensures s * s == 4 * (x * x)
  {
  }

  lemma DifferenceOfSquares(X: int, Z: int)
    ensures ((X + Z) * (X + Z)) * ((X - Z) * (X - Z)) == (X * X - Z * Z) * (X * X - Z * Z)
  {
    var u, v := X + Z, X - Z;
    assert u * v == X * X - Z * Z;
    assert (u * u) * (v * v) == (u * v) * (u * v);
  }

  /** The four coordinates that the step gives, as polynomials modulo 2^255 - 19. */
  lemma StepFormulas(x1: int, p2: XZ, p3: XZ)
    ensures var (X2, Z2) := (p2.x, p2.z);
            var (X3, Z3) := (p3.x, p3.z);
            var (d, a) := Step(x1, p2, p3);
            && Leaves((X2 * X2 - Z2 * Z2) * (X2 * X2 - Z2 * Z2), d.x)
            && Leaves((4 * X2 * Z2) * (X2 * X2 + 486662 * X2 * Z2 + Z2 * Z2), d.z)
            && Leaves(4 * ((X2 * X3 - Z2 * Z3) * (X2 * X3 - Z2 * Z3)), a.x)
            && Leaves(x1 * (4 * ((X3 * Z2 - Z3 * X2) * (X3 * Z2 - Z3 * X2))), a.z)
  {
    hide Plus, Minus, Mul, Leaves;
    var X2, Z2, X3, Z3 := p2.x, p2.z, p3.x, p3.z;
    var u, v := X2 + Z2, X2 - Z2;
    var aa, bb, da, cb := u * u, v * v, (X3 - Z3) * u, (X3 + Z3) * v;
    var e := aa - bb;
    Factors(X2, Z2);
    Cross(X2, Z2, X3, Z3);
    DifferenceOfSquares(X2, Z2);
    Squares4(da + cb, X2 * X3 - Z2 * Z3);
    Squares4(da - cb, X3 * Z2 - Z3 * X2);
    var A, B := Plus(X2, Z2), Minus(X2, Z2);
    PlusIs(X2, Z2);
    PlusIs(X3, Z3);
    MulOf(A, A, u, u);
    MulOf(B, B, v, v);
    var AA, BB := Mul(A, A), Mul(B, B);
    MinusOf(AA, BB, aa, bb);
    var E := Minus(AA, BB);
    var C, D := Plus(X3, Z3), Minus(X3, Z3);
    MulOf(D, A, X3 - Z3, u);
    MulOf(C, B, X3 + Z3, v);
    var DA, CB := Mul(D, A), Mul(C, B);
    PlusOf(DA, CB, da, cb);
    MinusOf(DA, CB, da, cb);
    var S, T := Plus(DA, CB), Minus(DA, CB);
    MulOf(AA, BB, aa, bb);
    MulBy(121665, E, e);
    PlusOf(AA, Mul(121665, E), aa, 121665 * e);
    MulOf(E, Plus(AA, Mul(121665, E)), e, aa + 121665 * e);
    MulOf(S, S, da + cb, da + cb);
    MulOf(T, T, da - cb, da - cb);
    MulBy(x1, Mul(T, T), (da - cb) * (da - cb));
  }

  ghost function StepOf(x1: int): (XZ, XZ) -> (XZ, XZ) {
    (p2: XZ, p3: XZ) => Step(x1, p2, p3)
  }

  ghost function Pair(x2: array<i32>, z2: array<i32>, x3: array<i32>, z3: array<i32>): (XZ, XZ)
    reads x2, z2, x3, z3
  {
    (XZ(Elem(x2), Elem(z2)), XZ(Elem(x3), Elem(z3)))
  }

  /** After the first line of the step on the points p: B, A, D * A and C * B. */
  ghost predicate Crossed(x2: array<i32>, z2: array<i32>, z3: array<i32>, t1: array<i32>, p: (XZ, XZ))
    reads x2, z2, z3, t1
  {
    var A, B := Plus(p.0.x, p.0.z), Minus(p.0.x, p.0.z);
    var C, D := Plus(p.1.x, p.1.z), Minus(p.1.x, p.1.z);
    && Loose(t1) && Elem(t1) == B
    && Loose(x2) && Elem(x2) == A
    && Tight(z3) && Elem(z3) == Mul(D, A)
    && Tight(z2) && Elem(z2) == Mul(C, B)
  }

  /** After the squares: B^2, A^2 * B^2, A^2 - B^2, and the sum and difference of the cross products. */
  ghost predicate Squared(x2: array<i32>, z2: array<i32>, x3: array<i32>, t0: array<i32>, t1: array<i32>, p: (XZ, XZ))
    reads x2, z2, x3, t0, t1
  {
    var A, B := Plus(p.0.x, p.0.z), Minus(p.0.x, p.0.z);
    var C, D := Plus(p.1.x, p.1.z), Minus(p.1.x, p.1.z);
    && Tight(t0) && Elem(t0) == Mul(B, B)
    && Tight(x2) && Elem(x2) == Mul(Mul(A, A), Mul(B, B))
    && Loose(t1) && Elem(t1) == Minus(Mul(A, A), Mul(B, B))
    && Loose(x3) && Elem(x3) == Plus(Mul(D, A), Mul(C, B))
    && Loose(z2) && Elem(z2) == Minus(Mul(D, A), Mul(C, B))
  }

  method StepCross(x2: array<i32>, z2: array<i32>, x3: array<i32>, z3: array<i32>, t0: array<i32>, t1: array<i32>)
    requires Tight(x2) && Tight(z2) && Tight(x3) && Tight(z3) && t0.Length == 10 == t1.Length
    requires Distinct([x2, z2, x3, z3, t0, t1])
    modifies x2, z2, x3, z3, t0, t1
    ensures Crossed(x2, z2, z3, t1, old(Pair(x2, z2, x3, z3)))
  {
    Unequal(x2, z2, x3, z3, t0, t1);
    Lengths(x2, z2, x3, z3);
    hide Elem, Tight, Loose, Plus, Minus, Mul;
    FeSub(t0, x3, z3);
    FeSub(t1, x2, z2);
    FeAdd(x2, x2, z2);
    FeAdd(z2, x3, z3);
    FeMul(z3, t0, x2);
    FeMul(z2, z2, t1);
  }

  ghost predicate Distinct(a: seq<array<i32>>) {
    forall i, j :: 0 <= i < j < |a| ==> a[i] != a[j]
  }

  lemma Unequal(x2: array<i32>, z2: array<i32>, x3: array<i32>, z3: array<i32>, t0: array<i32>, t1: array<i32>)
    requires Distinct([x2, z2, x3, z3, t0, t1])
    ensures x2 != z2 && x2 != x3 && x2 != z3 && x2 != t0 && x2 != t1 && z2 != x3 && z2 != z3 && z2 != t0 && z2 != t1
    ensures x3 != z3 && x3 != t0 && x3 != t1 && z3 != t0 && z3 != t1 && t0 != t1
  {
    var a := [x2, z2, x3, z3, t0, t1];
    assert a[0] == x2 && a[1] == z2 && a[2] == x3 && a[3] == z3 && a[4] == t0 && a[5] == t1;
  }

  lemma Lengths(x2: array<i32>, z2: array<i32>, x3: array<i32>, z3: array<i32>)
    requires Tight(x2) && Tight(z2) && Tight(x3) && Tight(z3)
    ensures x2.Length == 10 == z2.Length && x3.Length == 10 == z3.Length
  {
  }

  method StepSquares(x2: array<i32>, z2: array<i32>, x3: array<i32>, z3: array<i32>, t0: array<i32>, t1: array<i32>,
                     ghost p: (XZ, XZ))
    requires Crossed(x2, z2, z3, t1, p) && x3.Length == 10 == t0.Length
    requires Distinct([x2, z2, x3, z3, t0, t1])
    modifies x2, z2, x3, t0, t1
    ensures Squared(x2, z2, x3, t0, t1, p)
  {
    Unequal(x2, z2, x3, z3, t0, t1);
    LooseLengths(x2, z2, z3, t1);
    hide Elem, Tight, Loose, Plus, Minus, Mul;
    FeSq(t0, t1);
    FeSq(t1, x2);
    FeAdd(x3, z3, z2);
    FeSub(z2, z3, z2);
    TightIsLoose(t0);
    TightIsLoose(t1);
    FeMul(x2, t1, t0);
    FeSub(t1, t1, t0);
  }

  lemma LooseLengths(x2: array<i32>, z2: array<i32>, z3: array<i32>, t1: array<i32>)
    requires Loose(t1) && Loose(x2) && Tight(z3) && Tight(z2)
    ensures x2.Length == 10 == z2.Length && z3.Length == 10 == t1.Length
  {
  }

  method StepProducts(x1: array<i32>, x2: array<i32>, z2: array<i32>, x3: array<i32>, z3: array<i32>,
                      t0: array<i32>, t1: array<i32>, ghost p: (XZ, XZ))
    requires Squared(x2, z2, x3, t0, t1, p) && Tight(x1) && z3.Length == 10
    requires Distinct([x2, z2, x3, z3, t0, t1]) && Distinct([x1, z2, x3, z3, t0, t1])
    modifies z2, x3, z3, t0
    ensures Tight(x2) && Tight(z2) && Tight(x3) && Tight(z3)
    ensures Pair(x2, z2, x3, z3) == Step(Elem(x1), p.0, p.1)
  {
    Unequal(x2, z2, x3, z3, t0, t1);
    Unequal(x1, z2, x3, z3, t0, t1);
    EndLengths(x1, z2, x3, t0, t1);
    ghost var A := Plus(p.0.x, p.0.z);
    SameFactor(Mul(A, A), Elem(t0), Elem(t1));
    hide Elem, Tight, Loose, Plus, Minus, Mul;
    FeSq(z2, z2);
    FeMulSmall(z3, t1, 121666);
    FeSq(x3, x3);
    FeAdd(t0, t0, z3);
    TightIsLoose(x1);
    TightIsLoose(z2);
    FeMul(z3, x1, z2);
    FeMul(z2, t1, t0);
  }

  lemma EndLengths(x1: array<i32>, z2: array<i32>, x3: array<i32>, t0: array<i32>, t1: array<i32>)
    requires Tight(x1) && Tight(t0) && Loose(t1) && Loose(x3) && Loose(z2)
    ensures x1.Length == 10 == z2.Length && x3.Length == 10 == t0.Length && t1.Length == 10
  {
  }

  /** 121666 * E + BB is 121665 * E + AA. */
  lemma SameFactor(aa: int, bb: int, e: int)
    requires e == Minus(aa, bb)
    ensures Plus(bb, Mul(e, 121666)) == Plus(aa, Mul(121665, e))
  {
    ModAdd(bb, e * 121666, PRIME);
    ModAdd(aa, 121665 * e, PRIME);
    ModCongruent(bb + e * 121666, aa + 121665 * e, -((aa - bb) / PRIME), PRIME);
  }

  /** One ladder step on the limbs is one step of RFC 7748. */
  method StepInPlace(x1: array<i32>, x2: array<i32>, z2: array<i32>, x3: array<i32>, z3: array<i32>,
                     t0: array<i32>, t1: array<i32>)
    requires Tight(x1) && Tight(x2) && Tight(z2) && Tight(x3) && Tight(z3) && t0.Length == 10 == t1.Length
    requires Distinct([x2, z2, x3, z3, t0, t1]) && Distinct([x1, z2, x3, z3, t0, t1]) && x1 != x2
    modifies x2, z2, x3, z3, t0, t1
    ensures Tight(x2) && Tight(z2) && Tight(x3) && Tight(z3)
    ensures var p := old(Pair(x2, z2, x3, z3)); Pair(x2, z2, x3, z3) == Step(Elem(x1), p.0, p.1)
  {
    Unequal(x2, z2, x3, z3, t0, t1);
    Unequal(x1, z2, x3, z3, t0, t1);
    Lengths(x2, z2, x3, z3);
    hide Elem, Tight, Loose, Distinct, Step, Crossed, Squared;
    ghost var p := Pair(x2, z2, x3, z3);
    StepCross(x2, z2, x3, z3, t0, t1);
    StepSquares(x2, z2, x3, z3, t0, t1, p);
    StepProducts(x1, x2, z2, x3, z3, t0, t1, p);
  }

  method SwapPoints(x2: array<i32>, z2: array<i32>, x3: array<i32>, z3: array<i32>, swap: int)
    requires Tight(x2) && Tight(z2) && Tight(x3) && Tight(z3) && 0 <= swap <= 1
    requires x2 != z2 && x2 != x3 && x2 != z3 && z2 != x3 && z2 != z3 && x3 != z3
    modifies x2, z2, x3, z3
    ensures Tight(x2) && Tight(z2) && Tight(x3) && Tight(z3)
    ensures Pair(x2, z2, x3, z3) == Swapped(old(Pair(x2, z2, x3, z3)), swap)
  {
    hide Elem, Tight;
    SwapElements(x2, x3, swap);
    SwapElements(z2, z3, swap);
  }

  method SwapElements(f: array<i32>, g: array<i32>, b: int)
    requires Tight(f) && Tight(g) && f != g && 0 <= b <= 1
    modifies f, g
    ensures Tight(f) && Tight(g)
    ensures Elem(f) == if b == 1 then old(Elem(g)) else old(Elem(f))
    ensures Elem(g) == if b == 1 then old(Elem(f)) else old(Elem(g))
  {
    ghost var fs, gs := f[..], g[..];
    FeCswap(f, g, b);
    assert forall k :: 0 <= k < 10 ==> f[k] == (if b == 1 then gs[k] else fs[k]);
    assert forall k :: 0 <= k < 10 ==> g[k] == (if b == 1 then fs[k] else gs[k]);
    hide Value, Reduced;
  }

  /** The loop over the bits of a scalar below 2^255, with its swap flag. */
  method ClimbInPlace(x1: array<i32>, x2: array<i32>, z2: array<i32>, x3: array<i32>, z3: array<i32>,
                      t0: array<i32>, t1: array<i32>, e: array<byte>) returns (swap: int)
    requires Tight(x1) && Tight(x2) && Tight(z2) && Tight(x3) && Tight(z3) && t0.Length == 10 == t1.Length
    requires Distinct([x2, z2, x3, z3, t0, t1]) && Distinct([x1, z2, x3, z3, t0, t1])
    requires x1 != x2 && e.Length == 32
    modifies x2, z2, x3, z3, t0, t1
    ensures Tight(x2) && Tight(z2) && Tight(x3) && Tight(z3) && 0 <= swap <= 1 && 0 <= LE(e[..])
    ensures var p := old(Pair(x2, z2, x3, z3));
            Pair(x2, z2, x3, z3) == Swapped(Climb(StepOf(Elem(x1)), p.0, p.1, LE(e[..]), 255, 0), swap)
  {
    hide Elem, Tight, Distinct, Step, LE, ScalarBit, Bit, Climb, Rung, Xor;
    Unequal(x2, z2, x3, z3, t0, t1);
    Unequal(x1, z2, x3, z3, t0, t1);
    ghost var p := Pair(x2, z2, x3, z3);
    ghost var step := StepOf(Elem(x1));
    LEBound(e[..]);
    ghost var k := LE(e[..]);
    swap := 0;
    ClimbSteps(step, p.0, p.1, k, 255, 255);
    for pos := 255 downto 0
      invariant 0 <= swap <= 1
      invariant Tight(x2) && Tight(z2) && Tight(x3) && Tight(z3) && Tight(x1) && Elem(x1) == old(Elem(x1))
      invariant Pair(x2, z2, x3, z3) == Swapped(Climb(step, p.0, p.1, k, 255, pos), swap)
    {
      var b := ScalarBit(e[..], pos);
      ScalarBitIsBit(e[..], pos);
      XorFlag(swap, b);
      ghost var seen, held := Pair(x2, z2, x3, z3), Climb(step, p.0, p.1, k, 255, pos + 1);
      ClimbSteps(step, p.0, p.1, k, 255, pos);
      DeferredSwap(step, seen, held, swap, b);
      swap := Xor(swap, b);
      SwapPoints(x2, z2, x3, z3, swap);
      swap := b;
      StepInPlace(x1, x2, z2, x3, z3, t0, t1);
    }
  }

  lemma XorFlag(a: nat, b: nat)
    requires a <= 1 && b <= 1
    ensures Xor(a, b) == (a + b) % 2
  {
  }

  /** The scalar that trim_scalar makes of a secret key. */
  function Trimmed(k: nat): (t: nat)
    ensures TWO254 <= t < 2 * TWO254 && t % 8 == 0
  {
    TWO254 + k % TWO254 / 8 * 8
  }

  /** The pair of points at the end of the ladder for the scalar t and the x-coordinate x1. */
  ghost function LadderResult(x1: int, t: nat): (XZ, XZ) {
    Climb(StepOf(x1), XZ(1, 0), XZ(x1, 1), t, 255, 0)
  }

  /** The quotient of its coordinates, a division by zero giving zero. */
  ghost function Quotient(p: XZ): int {
    Mul(p.x, Pow(p.z, PRIME - 2) % PRIME)
  }

  /** The function X25519 of section 5 of RFC 7748. */
  ghost function Shared(k: nat, u: nat): int {
    Quotient(LadderResult(u % TWO255 % PRIME, Trimmed(k)).0)
  }

  method CopyTrimmed(yourSecretKey: seq<byte>) returns (e: array<byte>)
    requires |yourSecretKey| == 32
    ensures fresh(e) && e.Length == 32
    ensures 0 <= LE(yourSecretKey) && LE(e[..]) == Trimmed(LE(yourSecretKey))
  {
    e := new byte[32];
    for i := 0 to 32
      invariant forall j :: 0 <= j < i ==> e[j] == yourSecretKey[j]
    {
      e[i] := yourSecretKey[i];
    }
    assert e[..] == yourSecretKey;
    LEBound(yourSecretKey);
    TrimScalar(e);
  }

  /** From the affine x1 to the projective result. */
  method Multiply(x1: array<i32>, x2: array<i32>, z2: array<i32>, e: array<byte>)
    requires Tight(x1) && x2.Length == 10 == z2.Length && e.Length == 32 && x1 != x2 && x1 != z2 && x2 != z2
    modifies x2, z2
    ensures Tight(x2) && Tight(z2) && 0 <= LE(e[..])
    ensures XZ(Elem(x2), Elem(z2)) == LadderResult(Elem(x1), LE(e[..])).0
  {
    hide *;
    var x3 := new i32[10];
    var z3 := new i32[10];
    var t0 := new i32[10];
    var t1 := new i32[10];
    AllDistinct(x1, x2, z2, x3, z3, t0, t1);
    StartPoints(x1, x2, z2, x3, z3);
    var swap := ClimbInPlace(x1, x2, z2, x3, z3, t0, t1, e);
    SwapPoints(x2, z2, x3, z3, swap);
    LadderEnd(x2, z2, x3, z3, Elem(x1), LE(e[..]), swap);
  }

  lemma AllDistinct(x1: array<i32>, x2: array<i32>, z2: array<i32>, x3: array<i32>, z3: array<i32>,
                    t0: array<i32>, t1: array<i32>)
    requires x1 != x2 && x1 != z2 && x2 != z2 && x3 !in {x1, x2, z2} && z3 !in {x1, x2, z2, x3}
    requires t0 !in {x1, x2, z2, x3, z3} && t1 !in {x1, x2, z2, x3, z3, t0}
    ensures Distinct([x1, x2, z2, x3, z3]) && Distinct([x2, z2, x3, z3, t0, t1]) && Distinct([x1, z2, x3, z3, t0, t1])
  {
  }

  /** Swapping twice, or not at all. */
  lemma LadderEnd(x2: array<i32>, z2: array<i32>, x3: array<i32>, z3: array<i32>, x1: int, t: nat, swap: int)
    requires 0 <= swap <= 1
    requires Pair(x2, z2, x3, z3)
          == Swapped(Swapped(Climb(StepOf(x1), XZ(1, 0), XZ(x1, 1), t, 255, 0), swap), swap)
    ensures XZ(Elem(x2), Elem(z2)) == LadderResult(x1, t).0
  {
    hide Elem, Climb;
  }

  /** The inversion and the last multiplication. */
  method Divide(x2: array<i32>, z2: array<i32>)
    requires Tight(x2) && Tight(z2) && x2 != z2
    modifies x2, z2
    ensures Loose(x2) && Elem(x2) == old(Quotient(XZ(Elem(x2), Elem(z2))))
  {
    hide Elem, Tight, Pow, Mul, Loose;
    TightLength(z2);
    FeInvert(z2, z2);
    TightIsLoose(x2);
    TightIsLoose(z2);
    TightLength(x2);
    FeMul(x2, x2, z2);
    TightIsLoose(x2);
  }

  lemma TightLength(a: array<i32>)
    requires Tight(a)
    ensures a.Length == 10
  {
  }

  /** The point at infinity and the base point. */
  method StartPoints(x1: array<i32>, x2: array<i32>, z2: array<i32>, x3: array<i32>, z3: array<i32>)
    requires Tight(x1) && x2.Length == 10 == z2.Length && x3.Length == 10 == z3.Length
    requires Distinct([x1, x2, z2, x3, z3])
    modifies x2, z2, x3, z3
    ensures Tight(x2) && Tight(z2) && Tight(x3) && Tight(z3) && Tight(x1)
    ensures Pair(x2, z2, x3, z3) == (XZ(1, 0), XZ(Elem(x1), 1)) && Elem(x1) == old(Elem(x1))
  {
    assert var a := [x1, x2, z2, x3, z3];
           a[0] != a[1] && a[0] != a[2] && a[0] != a[3] && a[0] != a[4] && a[1] != a[2] && a[1] != a[3]
           && a[1] != a[4] && a[2] != a[3] && a[2] != a[4] && a[3] != a[4];
    hide Elem, Tight, Distinct;
    Fe1(x2);
    Fe0(z2);
    CopyElement(x3, x1);
    Fe1(z3);
  }

  method CopyElement(h: array<i32>, f: array<i32>)
    requires Tight(f) && h.Length == 10 && h != f
    modifies h
    ensures Tight(h) && Elem(h) == Elem(f)
  {
    ghost var s := f[..];
    FeCopy(h, f);
    assert forall k :: 0 <= k < 10 ==> h[k] == s[k];
    hide Value, Reduced;
  }

  /** The encoding of the result is the canonical one. */
  method CryptoX25519(rawSharedSecret: array<byte>, yourSecretKey: seq<byte>, theirPublicKey: seq<byte>)
    requires rawSharedSecret.Length == 32 && |yourSecretKey| == 32 && |theirPublicKey| == 32
    modifies rawSharedSecret
    ensures 0 <= LE(yourSecretKey) && 0 <= LE(theirPublicKey)
    ensures LE(rawSharedSecret[..]) == Shared(LE(yourSecretKey), LE(theirPublicKey))
  {
    hide *;
    BytesValue(theirPublicKey);
    var x1 := new i32[10];
    FeFromBytes(x1, theirPublicKey);
    var e := CopyTrimmed(yourSecretKey);
    var x2 := new i32[10];
    var z2 := new i32[10];
    Multiply(x1, x2, z2, e);
    Divide(x2, z2);
    FeToBytes(rawSharedSecret, x2);
    SharedIs(LE(yourSecretKey), LE(theirPublicKey));
  }

  lemma BytesValue(s: seq<byte>)
    ensures 0 <= LE(s)
  {
    LEBound(s);
  }

  lemma SharedIs(k: nat, u: nat)
    ensures Shared(k, u) == Quotient(LadderResult(u % TWO255 % PRIME, Trimmed(k)).0)
  {
  }

  /** Whenever the step of RFC 7748 doubles and adds differentially, under any reading of projective
      coordinates as points of an abelian group, the ladder gives the multiple by the trimmed scalar. */
  lemma SharedPoint<G(!new)>(g: Group<G>, base: G, point: (XZ, G) -> bool, x1: int, k: nat)
    requires g.Abelian() && Differential(g, base, point, StepOf(x1))
    requires point(XZ(1, 0), g.zero) && point(XZ(x1, 1), base)
    ensures point(LadderResult(x1, Trimmed(k)).0, g.Times(Trimmed(k), base))
  {
    var t := Trimmed(k);
    Pow255();
    ShiftZero(t);
    assert LadderResult(x1, t) == Climb(StepOf(x1), XZ(1, 0), XZ(x1, 1), t, 255, 0);
    hide *;
    ClimbMultiple(g, base, point, StepOf(x1), XZ(1, 0), XZ(x1, 1), t, 255, 0);
  }

  lemma Pow255()
    ensures Pow2(255) == 2 * TWO254
  {
    hide Pow2;
    Pow2Values();
    Pow2Add(64, 64);
    Pow2Add(64, 128);
    Pow2Add(32, 16);
    Pow2Add(48, 8);
    Pow2Add(56, 7);
    Pow2Add(192, 63);
  }
}
