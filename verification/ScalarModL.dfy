/** Reduction modulo the order of the Ed25519 base point: modL, reduce and
    mul_add, on 64 signed base-256 limbs held in 64-bit words. */
module ScalarModL {
  import opened Words

  /** The table L, least significant byte first, in its four rows. */
  const LRow0: seq<byte> := [0xed, 0xd3, 0xf5, 0x5c, 0x1a, 0x63, 0x12, 0x58]
  const LRow1: seq<byte> := [0xd6, 0x9c, 0xf7, 0xa2, 0xde, 0xf9, 0xde, 0x14]
  const LRow2: seq<byte> := [0x00, 0x00, 0x00, 0x00, 0x00, 0x00, 0x00, 0x00]
  const LRow3: seq<byte> := [0x00, 0x00, 0x00, 0x00, 0x00, 0x00, 0x00, 0x10]
  function L(): (t: seq<byte>)
    ensures |t| == 32
  {
    LRow0 + LRow1 + LRow2 + LRow3
  }

  const DELTA: int := 27742317777372353535851937790883648493
  const TWO252: int := 0x1000000000000000000000000000000000000000000000000000000000000000
  const ORDER: int := TWO252 + DELTA

  const LIMB_MAX: int := 0x1FC11F  // 32 * 255 * 255 + 255, the largest limb mul_add can build

  lemma TableRows01()
    ensures LE(LRow0) == 0x5812631a5cf5d3ed && LE(LRow1) == 0x14def9dea2f79cd6
  {
    LEPeelAt(LRow0, 0); LEPeelAt(LRow0, 4);
    LEPeelAt(LRow1, 0); LEPeelAt(LRow1, 4);
  }

  lemma TableRow2()
    ensures LE(LRow2) == 0 && LE(LRow2[..4]) == 0
  {
    LEPeelAt(LRow2, 0); LEPeelAt(LRow2, 4);
    LEPeel4(LRow2[..4]);
  }

  lemma TableRow3()
    ensures LE(LRow3) == 0x1000_0000 * TWO32
  {
    LEPeelAt(LRow3, 0); LEPeelAt(LRow3, 4);
  }

  lemma RowAppend(a: seq<int>, b: seq<int>)
    requires |a| == 8
    ensures LE(a + b) == LE(a) + TWO64 * LE(b)
  {
    Pow256Values();
    hide LE, Pow256;
    LEAppend(a, b);
    assert Pow256(8) * LE(b) == TWO64 * LE(b);
  }

  lemma RowsTaken(a: seq<int>, b: seq<int>, c: seq<int>, d: seq<int>)
    requires |a| == |b| == |c| == |d| == 8
    ensures (a + b + c + d)[..20] == a + (b + c[..4])
  {
    var t := a + b;
    assert (t + c + d)[..20] == t + c[..4];
  }

  lemma Associated(a: seq<int>, b: seq<int>, c: seq<int>)
    ensures a + b + c == a + (b + c)
  {
  }

  /** Four rows of eight limbs. */
  lemma LERows(a: seq<int>, b: seq<int>, c: seq<int>, d: seq<int>)
    requires |a| == |b| == |c| == |d| == 8
    ensures LE(a + b + c + d) == LE(a) + TWO64 * (LE(b) + TWO64 * (LE(c) + TWO64 * LE(d)))
  {
    hide LE;
    Associated(a + b, c, d);
    Associated(a, b, c + d);
    RowAppend(a, b + (c + d));
    RowAppend(b, c + d);
    RowAppend(c, d);
  }

  /** The first twenty of those limbs. */
  lemma LETwenty(a: seq<int>, b: seq<int>, c: seq<int>, d: seq<int>)
    requires |a| == |b| == |c| == |d| == 8
    ensures LE((a + b + c + d)[..20]) == LE(a) + TWO64 * (LE(b) + TWO64 * LE(c[..4]))
  {
    hide LE;
    RowsTaken(a, b, c, d);
    RowAppend(a, b + c[..4]);
    RowAppend(b, c[..4]);
  }

  lemma ThirdRow(a: seq<int>, b: seq<int>, c: seq<int>, d: seq<int>)
    requires |a| == |b| == |c| == |d| == 8
    ensures (a + b + c + d)[16..20] == c[..4]
  {
    var t := a + b;
    assert (t + c + d)[16..20] == c[..4];
  }

  lemma TableValue()
    ensures LE(L()) == ORDER
    // the inner loop of modL only uses the first twenty entries, the part below 2^252
    ensures LE(L()[..20]) == DELTA && L()[16..20] == [0, 0, 0, 0]
  {
    TableRows01();
    TableRow2();
    TableRow3();
    hide LE;
    LERows(LRow0, LRow1, LRow2, LRow3);
    LETwenty(LRow0, LRow1, LRow2, LRow3);
    ThirdRow(LRow0, LRow1, LRow2, LRow3);
  }

  // ---------------------------------------------------------------------
  // First loop: fold the limbs 63 down to 32 into the 20 limbs below them
  // ---------------------------------------------------------------------

  /** What the limbs look like when limb i is the next one to fold (i == 31: none is left). */
  ghost predicate Stage(s: seq<int>, i: int)
    requires 31 <= i < 64
  {
    && |s| == 64
    && (forall k :: i < k < 64 ==> s[k] == 0)
    && (forall k :: 0 <= k <= i && (i == 63 || k <= i - 32) ==> 0 <= s[k] <= LIMB_MAX)
    && (i < 63 ==>
          && (forall k :: i - 32 < k <= i - 12 ==> -128 <= s[k] <= 127)
          && (forall k :: i - 12 < k <= i && k <= 50 ==> -130 <= s[k] <= 130)
          && (forall k :: 51 <= k <= i ==> -LIMB_MAX - 0x4000 <= s[k] <= LIMB_MAX + 0x4000))
  }

  /** Bound on the carry into column t of the inner loop: the last four columns have no
      product in them, so the carry dies out. */
  function CarryMax(t: nat, fresh63: bool): (c: int)
  {
    if t <= 16 then 0x400_0000
    else if t == 17 then 0x4_2002
    else if t == 18 then if fresh63 then 9250 else 1060
    else if t == 19 then if fresh63 then 8231 else 6
    else if fresh63 then 0x4000 else 2
  }

  /** The value of s, plus the carry owed to column j, plus m times the part of l, shifted up
      by k0 columns, that has been subtracted so far. */
  ghost function Owed(s: seq<int>, l: seq<int>, j: nat, k0: nat, m: int, carry: int): int
    requires k0 <= j && j - k0 <= |l|
  {
    LE(s) + carry * Pow256(j) + (m * Pow256(k0)) * LE(l[..j - k0])
  }

  lemma ColumnAlgebra(d: int, p: int, carry: int, next: int, m: int, w: int, lt: int, pt: int, low: int)
    requires d == carry - m * lt - 256 * next
    requires w * pt == m * p
    ensures d * p + next * (256 * p) + w * (low + lt * pt) == carry * p + w * low
  {
    assert w * (low + lt * pt) == w * low + lt * (w * pt);
    assert d * p == carry * p - lt * (m * p) - next * (256 * p) by {
      assert m * lt * p == lt * (m * p);
      assert 256 * next * p == next * (256 * p);
    }
  }

  /** One column of a loop that subtracts m * l, shifted up by k0 columns, from s: the carry
      that is owed makes up for the digit that was cut to one byte. */
  lemma ColumnValue(s: seq<int>, l: seq<int>, j: nat, k0: nat, m: int, carry: int, next: int, v: int)
    requires k0 <= j < |s| && j - k0 < |l|
    requires v == s[j] + carry - m * l[j - k0] - 256 * next
    ensures Owed(s[j := v], l, j + 1, k0, m, next) == Owed(s, l, j, k0, m, carry)
  {
    var t := j - k0;
    LEUpdate(s, j, v);
    LESnoc(l, t);
    Pow256Add(k0, t);
    assert (m * Pow256(k0)) * Pow256(t) == m * (Pow256(k0) * Pow256(t));
    ColumnAlgebra(v - s[j], Pow256(j), carry, next, m, m * Pow256(k0), l[t], Pow256(t), LE(l[..t]));
  }

  lemma OwedStart(s: seq<int>, l: seq<int>, k0: nat, m: int)
    ensures Owed(s, l, k0, k0, m, 0) == LE(s)
  {
    assert LE(l[..0]) == 0;
  }

  lemma ColumnBounds(xj: int, carry: int, prod: int, t: nat, fresh63: bool)
    requires t < 20 && -CarryMax(t, fresh63) <= carry <= CarryMax(t, fresh63)
    requires -0x2_0000_0000 <= prod <= 0x2_0000_0000 && (t >= 16 ==> prod == 0)
    requires -128 <= xj <= LIMB_MAX && (t == 0 || fresh63 || xj <= 127)
    ensures -CarryMax(t + 1, fresh63) <= (xj + carry - prod + 128) / 256 <= CarryMax(t + 1, fresh63)
  {
  }

  lemma FoldingProduct(m: int, t: nat)
    requires t < 20 && -16 * (LIMB_MAX + 0x4000) <= m <= 16 * (LIMB_MAX + 0x4000)
    ensures -0x2_0000_0000 <= m * L()[t] <= 0x2_0000_0000
    ensures t >= 16 ==> m * L()[t] == 0
  {
    hide L, LE;
    TableValue();
    var c: int := L()[t];
    MulBound(m, c, 16 * (LIMB_MAX + 0x4000), 255);
    if t >= 16 { assert c == L()[16..20][t - 16]; }
  }

  /** State of the inner loop for limb i: columns i-32..j are cut down to a signed byte, and
      carry is owed to column j. */
  ghost predicate Folding(was: seq<int>, s: seq<int>, i: int, j: nat, carry: int)
    requires 32 <= i < 64
  {
    && |was| == |s| == 64 && i - 32 <= j <= i - 12
    && (forall k :: (0 <= k < i - 32 || j <= k < 64) ==> s[k] == was[k])
    && (forall k :: i - 32 <= k < j ==> -128 <= s[k] <= 127)
    && -CarryMax(j - (i - 32), i == 63) <= carry <= CarryMax(j - (i - 32), i == 63)
    && Owed(s, L(), j, i - 32, 16 * was[i], carry) == LE(was)
  }

  lemma FoldingStart(was: seq<int>, i: int)
    requires 32 <= i < 64 && Stage(was, i)
    ensures Folding(was, was, i, i - 32, 0)
    ensures -0x8000_0000_0000 < 16 * was[i] < 0x8000_0000_0000
  {
    OwedStart(was, L(), i - 32, 16 * was[i]);
  }

  lemma FoldingStep(was: seq<int>, s: seq<int>, i: int, j: nat, carry: int)
    requires 32 <= i < 64 && Stage(was, i) && j < i - 12
    requires Folding(was, s, i, j, carry)
    ensures
      var prod := 16 * was[i] * L()[j - (i - 32)];
      var sum := s[j] + carry - prod;
      && -0x8000_0000_0000 < prod < 0x8000_0000_0000
      && -0x8000_0000_0000 < sum < 0x8000_0000_0000
      && Folding(was, s[j := sum - (sum + 128) / 256 * 256], i, j + 1, (sum + 128) / 256)
  {
    hide L, LE, Owed;
    var t := j - (i - 32);
    var m := 16 * was[i];
    FoldingProduct(m, t);
    var prod := m * L()[t];
    var sum := s[j] + carry - prod;
    ColumnBounds(s[j], carry, prod, t, i == 63);
    ColumnValue(s, L(), j, i - 32, m, carry, (sum + 128) / 256, sum - (sum + 128) / 256 * 256);
  }

  /** The inner loop of the first part of modL, for limb i. */
  method FoldColumns(x: array<i64>, i: int) returns (carry: i64)
    requires x.Length == 64 && 32 <= i < 64 && Stage(x[..], i)
    modifies x
    ensures Folding(old(x[..]), x[..], i, i - 12, carry)
  {
    hide Stage, Folding, L, LE;
    carry := 0;
    ghost var was := x[..];
    FoldingStart(was, i);
    var m: i64 := 16 * x[i];
    var j := i - 32;
    while j < i - 12
      invariant i - 32 <= j <= i - 12
      invariant Folding(was, x[..], i, j, carry)
    {
      FoldingStep(was, x[..], i, j, carry);
      ghost var s := x[..];
      x[j] := x[j] + carry - m * L()[j - (i - 32)];
      carry := (x[j] + 128) / 256;
      x[j] := x[j] - carry * 256;
      assert x[..] == s[j := x[j]];
      j := j + 1;
    }
  }

  lemma FoldedAlgebra(le: int, p: int, m: int, xi: int, carry: int, pc: int)
    requires m == 16 * xi
    ensures le - carry * pc - (m * p) * DELTA + carry * pc - xi * (16 * TWO252 * p) == le - (m * p) * ORDER
  {
    assert xi * (16 * TWO252 * p) == (m * p) * TWO252;
  }

  lemma FoldedValue(was: seq<int>, s: seq<int>, i: int, carry: int)
    requires 32 <= i < 64 && Folding(was, s, i, i - 12, carry)
    ensures var s1 := s[i - 12 := s[i - 12] + carry][i := 0];
      LE(s1) == LE(was) - ((16 * was[i]) * Pow256(i - 32)) * ORDER
  {
    hide L, LE, Pow256;
    TableValue();
    Pow256Values();
    var p := Pow256(i - 32);
    var s' := s[i - 12 := s[i - 12] + carry];
    LEUpdate(s, i - 12, s[i - 12] + carry);
    LEUpdate(s', i, 0);
    Pow256Add(i - 32, 32);
    assert L()[..i - 12 - (i - 32)] == L()[..20];
    FoldedAlgebra(LE(was), p, 16 * was[i], was[i], carry, Pow256(i - 12));
  }

  lemma FoldedStage(was: seq<int>, s: seq<int>, i: int, carry: int)
    requires 32 <= i < 64 && Stage(was, i) && Folding(was, s, i, i - 12, carry)
    ensures Stage(s[i - 12 := s[i - 12] + carry][i := 0], i - 1)
    ensures -0x8000_0000_0000 < s[i - 12] + carry < 0x8000_0000_0000
  {
    hide L, LE, Owed;
  }

  /** The body of the outer loop of the first part of modL. */
  method FoldLimb(x: array<i64>, i: int)
    requires x.Length == 64 && 32 <= i < 64 && Stage(x[..], i)
    modifies x
    ensures Stage(x[..], i - 1)
    ensures LE(x[..]) == LE(old(x[..])) - ((16 * old(x[i])) * Pow256(i - 32)) * ORDER
  {
    hide Folding, Stage, LE;
    var carry := FoldColumns(x, i);
    FoldedValue(old(x[..]), x[..], i, carry);
    FoldedStage(old(x[..]), x[..], i, carry);
    ghost var s := x[..];
    x[i - 12] := x[i - 12] + carry;
    x[i] := 0;
    assert x[..] == s[i - 12 := s[i - 12] + carry][i := 0];
  }

  // ---------------------------------------------------------------------
  // Second part: subtract the top multiple of L, fix the sign, output bytes
  // ---------------------------------------------------------------------

  /** State of the loop that subtracts q * L from the 32 remaining limbs. */
  ghost predicate Trimming(was: seq<int>, s: seq<int>, i: nat, q: int, carry: int) {
    && |was| == |s| == 64 && i <= 32
    && (forall k :: 0 <= k < i ==> 0 <= s[k] <= 255)
    && (forall k :: i <= k < 64 ==> s[k] == was[k])
    && -16 <= carry <= 16
    && Owed(s, L(), i, 0, q, carry) == LE(was)
  }

  lemma TrimmingStep(was: seq<int>, s: seq<int>, i: nat, q: int, carry: int)
    requires Trimming(was, s, i, q, carry) && i < 32
    requires -9 <= q <= 9 && -130 <= was[i] <= 130
    ensures -0x1_0000 < q * L()[i] < 0x1_0000
    ensures var sum := s[i] + carry - q * L()[i];
      -0x1_0000 < sum < 0x1_0000 && Trimming(was, s[i := sum % 256], i + 1, q, sum / 256)
  {
    hide L, LE, Owed;
    MulBound(q, L()[i], 9, 255);
    var sum := s[i] + carry - q * L()[i];
    ColumnValue(s, L(), i, 0, q, carry, sum / 256, sum % 256);
  }

  method SubtractTopMultiple(x: array<i64>) returns (carry: i64)
    requires x.Length == 64 && Stage(x[..], 31)
    modifies x
    ensures Trimming(old(x[..]), x[..], 32, old(x[31]) / 16, carry)
  {
    hide L, LE;
    carry := 0;
    ghost var was, q := x[..], x[31] / 16;
    OwedStart(was, L(), 0, q);
    var i := 0;
    while i < 32
      invariant 0 <= i <= 32
      invariant Trimming(was, x[..], i, q, carry)
    {
      TrimmingStep(was, x[..], i, q, carry);
      ghost var s := x[..];
      x[i] := x[i] + carry - (x[31] / 16) * L()[i];
      carry := x[i] / 256;
      x[i] := x[i] % 256;
      assert x[..] == s[i := x[i]];
      i := i + 1;
    }
  }

  lemma {:induction false} LESmallLimbs(s: seq<int>)
    requires forall k :: 0 <= k < |s| ==> -130 <= s[k] <= 130
    ensures -130 * (Pow256(|s|) - 1) <= 255 * LE(s) <= 130 * (Pow256(|s|) - 1)
  {
    if |s| == 0 {
    } else {
      LESmallLimbs(s[1..]);
    }
  }

  /** After the folding, subtracting floor(x[31] / 16) * L leaves a value just around [0, 2^252). */
  lemma TrimmedRange(s: seq<int>)
    requires Stage(s, 31)
    ensures -TWO252 < LE(s) - s[31] / 16 * ORDER < TWO252
  {
    TopLimb(s);
    LESmallLimbs(s[..31]);
    hide LE, Pow256, Stage;
    var p := Pow256(31);
    assert 16 * p == TWO252 by { Pow256Values(); Pow256Add(31, 1); Pow256One(); }
    RangeAlgebra(LE(s[..31]), s[31], p);
  }

  lemma TopLimb(s: seq<int>)
    requires Stage(s, 31)
    ensures LE(s) == LE(s[..31]) + s[31] * Pow256(31)
  {
    TailZero(s);
    hide LE, Pow256;
    assert s[..32][..31] == s[..31];
    assert s[..32][..32] == s[..32];
    LESnoc(s[..32], 31);
  }

  lemma RangeAlgebra(low: int, x: int, p: int)
    requires 16 * p == TWO252 && -130 * p <= 255 * low <= 130 * p && -130 <= x <= 130
    ensures -TWO252 < low + x * p - x / 16 * ORDER < TWO252
  {
    var q, m := x / 16, x % 16;
    assert x * p == q * TWO252 + m * p;
    assert 0 <= m * p <= 15 * p;
  }

  lemma Pow256One()
    ensures Pow256(1) == 256
  {
  }

  lemma {:induction false} ZeroTail(s: seq<int>)
    requires forall k :: 0 <= k < |s| ==> s[k] == 0
    ensures LE(s) == 0
  {
    if |s| == 0 {
    } else {
      ZeroTail(s[1..]);
    }
  }

  /** The second loop left t = LE(x) + carry * 2^256 with |t| < 2^252: carry is 0 or -1, and
      subtracting carry * L makes the low 256 bits t or t + L. */
  lemma BorrowResolved(low: int, carry: int, t: int, u: int, r: int)
    requires 0 <= low < 16 * TWO252 && t == low + carry * (16 * TWO252) && -TWO252 < t < TWO252
    requires u == low - carry * ORDER
    requires 0 <= r < 16 * TWO252 && exists k :: u == r + k * (16 * TWO252)
    ensures 0 <= r < ORDER && r == (if t < 0 then t + ORDER else t)
    ensures -1 <= carry <= 0
  {
    var k :| u == r + k * (16 * TWO252);
    assert -1 <= carry <= 0;
    if carry == 0 {
      assert k == 0;
    } else {
      assert carry == -1 && k == 1;
    }
  }

  ghost predicate Adding(was: seq<int>, s: seq<int>, i: nat, carry: int) {
    && |was| == |s| == 64 && i <= 32
    && (forall k :: 0 <= k < i ==> s[k] == was[k] - carry * L()[k])
    && (forall k :: i <= k < 64 ==> s[k] == was[k])
    && LE(s) + carry * LE(L()[..i]) == LE(was)
  }

  lemma AddingStep(was: seq<int>, s: seq<int>, i: nat, carry: int)
    requires Adding(was, s, i, carry) && i < 32
    ensures Adding(was, s[i := s[i] - carry * L()[i]], i + 1, carry)
  {
    hide L, LE, Pow256;
    LEUpdate(s, i, s[i] - carry * L()[i]);
    LESnoc(L(), i);
    assert carry * (L()[i] * Pow256(i)) == (carry * L()[i]) * Pow256(i);
  }

  /** The third loop: x -= carry * L, limb by limb. */
  method AddBack(x: array<i64>, carry: i64)
    requires x.Length == 64 && -16 <= carry <= 16
    requires forall k :: 0 <= k < 32 ==> 0 <= x[k] <= 255
    modifies x
    ensures Adding(old(x[..]), x[..], 32, carry)
  {
    hide L, LE;
    ghost var was := x[..];
    assert LE(L()[..0]) == 0 by { LEEmpty(L()[..0]); }
    var i := 0;
    while i < 32
      invariant 0 <= i <= 32
      invariant Adding(was, x[..], i, carry)
    {
      AddingStep(was, x[..], i, carry);
      ghost var s := x[..];
      MulBound(carry, L()[i], 16, 255);
      x[i] := x[i] - carry * L()[i];
      assert x[..] == s[i := s[i] - carry * L()[i]];
      i := i + 1;
    }
  }

  lemma LEEmpty(s: seq<int>)
    requires s == []
    ensures LE(s) == 0
  {
  }

  /** State of the last loop: bytes below i are out, the carry sits in limb i. */
  ghost predicate Storing(was: seq<int>, s: seq<int>, r: seq<int>, i: nat) {
    && |was| == |s| == 64 && i <= 32 <= |r|
    && AllBytes(r[..i])
    && (forall k :: i < k < 64 ==> s[k] == was[k])
    && -0x1000 <= s[i] - was[i] <= 0x1000
    && LE(r[..i]) + Pow256(i) * LE(s[i..]) == LE(was)
  }

  lemma StoringAlgebra(p: int, si: int, rest: int)
    ensures p * 256 * (si / 256 + rest) + si % 256 * p == p * (si + 256 * rest)
  {
    var q, m := si / 256, si % 256;
    assert si == 256 * q + m;
    assert p * 256 * (q + rest) == p * (256 * q + 256 * rest);
    assert p * (si + 256 * rest) == p * (256 * q + 256 * rest) + p * m;
  }

  lemma StoringStep(was: seq<int>, s: seq<int>, r: seq<int>, i: nat)
    requires Storing(was, s, r, i) && i < 32 && -0x2000 <= was[i] <= 0x2000
    ensures Storing(was, s[i + 1 := s[i + 1] + s[i] / 256], r[i := s[i] % 256], i + 1)
  {
    hide Pow256, LE;
    var s' := s[i + 1 := s[i + 1] + s[i] / 256];
    var r' := r[i := s[i] % 256];
    assert s'[i + 1..][1..] == s[i + 2..] == s[i + 1..][1..] && s[i..][1..] == s[i + 1..];
    LECons(s'[i + 1..]);
    LECons(s[i + 1..]);
    LECons(s[i..]);
    LESnoc(r', i);
    assert r'[..i] == r[..i];
    assert r'[..i + 1] == r[..i] + [s[i] % 256];
    Pow256Add(i, 1);
    Pow256One();
    StoringAlgebra(Pow256(i), s[i], LE(s[i + 1..]));
  }

  lemma LECons(s: seq<int>)
    requires |s| > 0
    ensures LE(s) == s[0] + 256 * LE(s[1..])
  {
  }

  /** The last loop: propagate carries and store 32 bytes. */
  method StoreBytes(r: array<byte>, x: array<i64>)
    requires r.Length >= 32 && x.Length == 64
    requires forall k :: 0 <= k < 64 ==> -0x2000 <= x[k] <= 0x2000
    modifies r, x
    ensures Storing(old(x[..]), x[..], r[..], 32)
    ensures r[32..] == old(r[32..])
  {
    hide LE, Storing;
    ghost var was := x[..];
    StoringStart(was, r[..]);
    var i := 0;
    while i < 32
      invariant 0 <= i <= 32
      invariant Storing(was, x[..], r[..], i)
      invariant r[32..] == old(r[32..])
    {
      StoringStep(was, x[..], r[..], i);
      StoringBound(was, x[..], r[..], i);
      ghost var s, rs := x[..], r[..];
      x[i + 1] := x[i + 1] + x[i] / 256;
      r[i] := x[i] % 256;
      assert x[..] == s[i + 1 := s[i + 1] + s[i] / 256];
      assert r[..] == rs[i := s[i] % 256];
      i := i + 1;
    }
  }

  lemma StoringStart(was: seq<int>, r: seq<int>)
    requires |was| == 64 && |r| >= 32
    ensures Storing(was, was, r, 0)
  {
    assert was[0..] == was && r[..0] == [];
  }

  lemma StoringBound(was: seq<int>, s: seq<int>, r: seq<int>, i: nat)
    requires Storing(was, s, r, i) && i < 32 && -0x2000 <= was[i] <= 0x2000 && -0x2000 <= was[i + 1] <= 0x2000
    ensures -0x1_0000 <= s[i] <= 0x1_0000 && -0x1_0000 <= s[i + 1] <= 0x1_0000
  {
    hide LE, Pow256;
  }

  // ---------------------------------------------------------------------
  // modL, reduce and mul_add
  // ---------------------------------------------------------------------

  /** LE(x) before the second part, t after subtracting q * L, and the bytes stored at the end. */
  lemma FinalValue(v: seq<int>, a: seq<int>, b: seq<int>, c: seq<int>, r: seq<int>, carry: int)
    requires Stage(v, 31) && Trimming(v, a, 32, v[31] / 16, carry) && Adding(a, b, 32, carry) && Storing(b, c, r, 32)
    ensures |r| >= 32 && 0 <= LE(r[..32]) < ORDER
    ensures LE(r[..32]) % ORDER == LE(v) % ORDER
  {
    hide LE, Pow256, Storing, L;
    TableValue();
    Pow256Values();
    var q := v[31] / 16;
    TrimmedRange(v);
    assert L()[..32] == L();
    TailZero(a);
    LEBound(a[..32]);
    StoredValue(b, c, r);
    var t := LE(v) - q * ORDER;
    OwedWhole(a, q, carry);
    BorrowResolved(LE(a), carry, t, LE(b), LE(r[..32]));
    ModCongruent(LE(r[..32]), LE(v), if t < 0 then 1 - q else -q, ORDER);
  }

  lemma OwedWhole(a: seq<int>, q: int, carry: int)
    ensures Owed(a, L(), 32, 0, q, carry) == LE(a) + carry * (16 * TWO252) + q * ORDER
  {
    hide LE;
    TableValue();
    Pow256Values();
    assert L()[..32] == L();
    assert Pow256(0) == 1;
  }

  lemma TailZero(a: seq<int>)
    requires |a| == 64 && forall k :: 32 <= k < 64 ==> a[k] == 0
    ensures LE(a) == LE(a[..32])
  {
    hide *;
    LEAppend(a[..32], a[32..]);
    assert a == a[..32] + a[32..];
    ZeroTail(a[32..]);
  }

  lemma StoredValue(b: seq<int>, c: seq<int>, r: seq<int>)
    requires Storing(b, c, r, 32)
    ensures |r| >= 32 && 0 <= LE(r[..32]) < 16 * TWO252
    ensures exists k :: LE(b) == LE(r[..32]) + k * (16 * TWO252)
  {
    hide LE, Pow256;
    Pow256Values();
    LEBound(r[..32]);
    assert LE(b) == LE(r[..32]) + LE(c[32..]) * (16 * TWO252);
  }

  /** r = x mod L: for every limb array that reduce or mul_add can build, no step leaves the
      range of a 64-bit word and the bytes are the unique value in [0, L). */
  method ModL(r: array<byte>, x: array<i64>)
    requires r.Length >= 32 && x.Length == 64
    requires forall k :: 0 <= k < 64 ==> 0 <= x[k] <= LIMB_MAX
    modifies r, x
    ensures LE(r[..32]) == LE(old(x[..])) % ORDER
    ensures r[32..] == old(r[32..])
  {
    hide LE, Pow256, L;
    ghost var v0, q := LE(x[..]), 0;
    assert Stage(x[..], 63);
    var i := 63;
    while i >= 32
      invariant 31 <= i < 64
      invariant Stage(x[..], i)
      invariant LE(x[..]) == v0 - q * ORDER
      invariant r[..] == old(r[..])
    {
      hide Stage;
      ghost var before := LE(x[..]);
      ghost var m := (16 * x[i]) * Pow256(i - 32);
      FoldLimb(x, i);
      q := q + m;
      i := i - 1;
    }
    ghost var v := x[..];
    var carry := SubtractTopMultiple(x);
    ghost var a := x[..];
    AddBack(x, carry);
    ghost var b := x[..];
    AddedRange(a, b, carry);
    StoreBytes(r, x);
    FinalValue(v, a, b, x[..], r[..], carry);
    ModPlusMultiple(v0, -q, ORDER);
    DivModUnique(LE(r[..32]), ORDER, 0, LE(r[..32]));
  }

  lemma AddedRange(a: seq<int>, b: seq<int>, carry: int)
    requires Adding(a, b, 32, carry) && -16 <= carry <= 16
    requires forall k :: 0 <= k < 32 ==> 0 <= a[k] <= 255
    requires forall k :: 32 <= k < 64 ==> a[k] == 0
    ensures forall k :: 0 <= k < 64 ==> -0x2000 <= b[k] <= 0x2000
  {
    hide LE, L;
    forall k | 0 <= k < 64 ensures -0x2000 <= b[k] <= 0x2000 {
      if k < 32 { MulBound(carry, L()[k], 16, 255); }
    }
  }

  /** Reduces a 64-byte hash modulo L; the upper half of the buffer is left zero. */
  method Reduce(r: array<byte>)
    requires r.Length == 64
    modifies r
    ensures LE(r[..32]) == LE(old(r[..])) % ORDER
    ensures forall k :: 32 <= k < 64 ==> r[k] == 0
  {
    hide LE;
    var x := new i64[64];
    ghost var was := r[..];
    var i := 0;
    while i < 64
      invariant 0 <= i <= 64
      invariant forall k :: 0 <= k < i ==> x[k] == was[k] && r[k] == 0
      invariant forall k :: i <= k < 64 ==> r[k] == was[k]
    {
      x[i] := r[i];
      r[i] := 0;
      i := i + 1;
    }
    assert x[..] == was;
    ghost var high := r[32..];
    ModL(r, x);
    assert forall k :: 32 <= k < 64 ==> r[k] == high[k - 32];
  }

  /** Schoolbook product: row i of a * b is added up to column j. */
  ghost predicate Multiplying(s: seq<int>, a: seq<int>, b: seq<int>, c: seq<int>, i: nat, j: nat) {
    && |s| == 64 && |a| == |b| == |c| == 32 && i <= 32 && j <= 32 && (i == 32 ==> j == 0)
    && (forall k :: 0 <= k < 64 ==> 0 <= s[k] <= 255 + 65025 * (if k < i + j && j > 0 then i + 1 else i))
    && LE(s) == LE(c) + LE(a[..i]) * LE(b) + (if i < 32 then a[i] * Pow256(i) * LE(b[..j]) else 0)
  }

  lemma MultiplyingStep(s: seq<int>, a: seq<int>, b: seq<int>, c: seq<int>, i: nat, j: nat)
    requires Multiplying(s, a, b, c, i, j) && i < 32 && j < 32 && AllBytes(a) && AllBytes(b)
    ensures 0 <= a[i] * b[j] <= 65025
    ensures Multiplying(s[i + j := s[i + j] + a[i] * b[j]], a, b, c, i, j + 1)
  {
    hide LE, Pow256;
    MulBound(a[i], b[j], 255, 255);
    assert 0 <= a[i] * b[j];
    LEUpdate(s, i + j, s[i + j] + a[i] * b[j]);
    LESnoc(b, j);
    Pow256Add(i, j);
    RowAlgebra(a[i], b[j], Pow256(i), Pow256(j), LE(b[..j]));
  }

  lemma RowAlgebra(ai: int, bj: int, pi: int, pj: int, low: int)
    ensures ai * pi * (low + bj * pj) == ai * pi * low + ai * bj * (pi * pj)
  {
    assert ai * pi * (bj * pj) == ai * bj * (pi * pj);
  }

  lemma MultiplyingNextRow(s: seq<int>, a: seq<int>, b: seq<int>, c: seq<int>, i: nat)
    requires Multiplying(s, a, b, c, i, 32) && i < 32
    ensures Multiplying(s, a, b, c, i + 1, 0)
  {
    hide Pow256;
    LESnoc(a, i);
    assert b[..32] == b && b[..0] == [];
    var p := Pow256(i);
    assert (LE(a[..i]) + a[i] * p) * LE(b) == LE(a[..i]) * LE(b) + a[i] * p * LE(b);
  }

  /** The two nested loops of mul_add: s += a * b. */
  method AddProduct(s: array<i64>, a: array<byte>, b: array<byte>, ghost c: seq<int>)
    requires s.Length == 64 && a.Length >= 32 && b.Length >= 32
    requires Multiplying(s[..], a[..32], b[..32], c, 0, 0)
    modifies s
    ensures Multiplying(s[..], a[..32], b[..32], c, 32, 0)
  {
    hide LE, Pow256, Multiplying;
    ghost var av: seq<int>, bv: seq<int> := a[..32], b[..32];
    var i := 0;
    while i < 32
      invariant 0 <= i <= 32
      invariant Multiplying(s[..], av, bv, c, i, 0)
    {
      var j := 0;
      while j < 32
        invariant 0 <= j <= 32
        invariant Multiplying(s[..], av, bv, c, i, j)
      {
        MultiplyingStep(s[..], av, bv, c, i, j);
        MultiplyingBound(s[..], av, bv, c, i, j);
        ghost var was := s[..];
        var ai: int, bj: int := a[i], b[j];
        s[i + j] := s[i + j] + ai * bj;
        assert s[..] == was[i + j := was[i + j] + av[i] * bv[j]];
        j := j + 1;
      }
      MultiplyingNextRow(s[..], av, bv, c, i);
      i := i + 1;
    }
  }

  /** r = (a * b + c) mod L on 32-byte scalars. */
  method MulAdd(r: array<byte>, a: array<byte>, b: array<byte>, c: array<byte>)
    requires r.Length >= 32 && a.Length >= 32 && b.Length >= 32 && c.Length >= 32
    modifies r
    ensures LE(r[..32]) == (LE(old(a[..32])) * LE(old(b[..32])) + LE(old(c[..32]))) % ORDER
    ensures r[32..] == old(r[32..])
  {
    hide LE, Multiplying;
    var s := new i64[64];
    var i := 0;
    while i < 32
      invariant 0 <= i <= 32
      invariant forall k :: 0 <= k < i ==> s[k] == c[k]
      invariant r[..] == old(r[..])
    {
      s[i] := c[i];
      i := i + 1;
    }
    while i < 64
      invariant 32 <= i <= 64
      invariant forall k :: 0 <= k < 32 ==> s[k] == c[k]
      invariant forall k :: 32 <= k < i ==> s[k] == 0
      invariant r[..] == old(r[..])
    {
      s[i] := 0;
      i := i + 1;
    }
    assert s[..][..32] == c[..32];
    MultiplyingStart(s[..], a[..32], b[..32], c[..32]);
    AddProduct(s, a, b, c[..32]);
    MultiplyingDone(s[..], a[..32], b[..32], c[..32]);
    ModL(r, s);
  }

  lemma MultiplyingStart(s: seq<int>, a: seq<int>, b: seq<int>, c: seq<int>)
    requires |s| == 64 && |a| == |b| == |c| == 32 && AllBytes(c)
    requires s[..32] == c && forall k :: 32 <= k < 64 ==> s[k] == 0
    ensures Multiplying(s, a, b, c, 0, 0)
  {
    TailZero(s);
    assert a[..0] == [] && b[..0] == [];
    assert forall k :: 0 <= k < 32 ==> s[k] == s[..32][k];
  }

  lemma MultiplyingBound(s: seq<int>, a: seq<int>, b: seq<int>, c: seq<int>, i: nat, j: nat)
    requires Multiplying(s, a, b, c, i, j)
    ensures |s| == 64 && forall k :: 0 <= k < 64 ==> 0 <= s[k] <= LIMB_MAX
  {
    hide LE, Pow256;
  }

  lemma MultiplyingDone(s: seq<int>, a: seq<int>, b: seq<int>, c: seq<int>)
    requires Multiplying(s, a, b, c, 32, 0)
    ensures |s| == 64 && forall k :: 0 <= k < 64 ==> 0 <= s[k] <= LIMB_MAX
    ensures LE(s) == LE(a) * LE(b) + LE(c)
  {
    hide LE, Pow256;
    assert a[..32] == a;
  }
}
