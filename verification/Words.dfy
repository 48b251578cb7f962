/** Machine words as range-checked integers, powers of two, and little- and
    big-endian readings of byte sequences. A subset type on a variable or an
    array element makes every store into it a proof that nothing overflows. */
module Words {
  datatype Option<T> = None | Some(value: T)

  type byte = x: int | 0 <= x < 0x100
  type u32 = x: int | 0 <= x < 0x1_0000_0000
  type u64 = x: int | 0 <= x < 0x1_0000_0000_0000_0000
  type i32 = x: int | -0x8000_0000 <= x < 0x8000_0000
  type i64 = x: int | -0x8000_0000_0000_0000 <= x < 0x8000_0000_0000_0000

  const TWO32: int := 0x1_0000_0000
  const TWO64: int := 0x1_0000_0000_0000_0000
  const TWO128: int := TWO64 * TWO64
  const TWO255: int := 0x8000000000000000000000000000000000000000000000000000000000000000

  function Pow2(n: nat): (p: nat)
    ensures p > 0
  {
    if n == 0 then 1 else 2 * Pow2(n - 1)
  }

  lemma {:induction false} Pow2Add(a: nat, b: nat)
    ensures Pow2(a + b) == Pow2(a) * Pow2(b)
  {
    if a == 0 {
    } else {
      Pow2Add(a - 1, b);
      assert Pow2(a) * Pow2(b) == 2 * (Pow2(a - 1) * Pow2(b));
    }
  }

  lemma Pow2Values()
    ensures Pow2(2) == 4 && Pow2(4) == 16 && Pow2(7) == 128
    ensures Pow2(8) == 0x100 && Pow2(16) == 0x1_0000 && Pow2(24) == 0x100_0000
    ensures Pow2(26) == 0x400_0000 && Pow2(28) == 0x1000_0000
    ensures Pow2(32) == TWO32 && Pow2(64) == TWO64
  {
    assert Pow2(2) == 4;
    hide Pow2;
    Pow2Add(2, 2);
    Pow2Add(4, 4);
    Pow2Add(8, 8);
    Pow2Add(16, 8);
    Pow2Add(24, 2);
    Pow2Add(24, 4);
    Pow2Add(16, 16);
    Pow2Add(32, 32);
    Pow2Seven();
  }

  lemma Pow2Seven()
    ensures Pow2(7) == 128
  {
  }

  function Pow256(n: nat): (p: nat)
    ensures p > 0
  {
    if n == 0 then 1 else 256 * Pow256(n - 1)
  }

  lemma {:induction false} Pow256Add(a: nat, b: nat)
    ensures Pow256(a + b) == Pow256(a) * Pow256(b)
  {
    if a == 0 {
    } else {
      assert Pow256(a) == 256 * Pow256(a - 1) && Pow256(a + b) == 256 * Pow256(a - 1 + b);
      hide Pow256;
      Pow256Add(a - 1, b);
      assert (256 * Pow256(a - 1)) * Pow256(b) == 256 * (Pow256(a - 1) * Pow256(b));
    }
  }

  lemma {:induction false} Pow256IsPow2(n: nat)
    ensures Pow256(n) == Pow2(8 * n)
  {
    if n == 0 {
    } else {
      Pow256IsPow2(n - 1);
      Pow2Add(8, 8 * (n - 1));
      assert Pow2(8) == 256;
    }
  }

  lemma Pow256Values()
    ensures Pow256(4) == TWO32 && Pow256(8) == TWO64 && Pow256(16) == TWO64 * TWO64
    ensures Pow256(32) == TWO64 * TWO64 * TWO64 * TWO64
  {
    assert Pow256(4) == TWO32;
    Pow256Add(4, 4);
    Pow256Add(8, 8);
    Pow256Add(16, 16);
  }

  ghost function Pow(x: int, n: nat): int {
    if n == 0 then 1 else x * Pow(x, n - 1)
  }

  lemma {:induction false} PowAdd(x: int, a: nat, b: nat)
    ensures Pow(x, a + b) == Pow(x, a) * Pow(x, b)
  {
    if a == 0 {
    } else {
      PowAdd(x, a - 1, b);
      assert x * (Pow(x, a - 1) * Pow(x, b)) == (x * Pow(x, a - 1)) * Pow(x, b);
    }
  }

  // ---------------------------------------------------------------------
  // Little-endian base-256 value of a sequence of limbs, which may be signed
  // ---------------------------------------------------------------------

  function LE(s: seq<int>): (v: int)
  {
    if |s| == 0 then 0 else s[0] + 256 * LE(s[1..])
  }

  lemma {:induction false} LEAppend(a: seq<int>, b: seq<int>)
    ensures LE(a + b) == LE(a) + Pow256(|a|) * LE(b)
  {
    if |a| == 0 {
      assert a + b == b;
    } else {
      LEAppend(a[1..], b);
      assert (a + b)[1..] == a[1..] + b;
      assert 256 * (Pow256(|a| - 1) * LE(b)) == Pow256(|a|) * LE(b);
    }
  }

  lemma LESingle(x: int)
    ensures LE([x]) == x
  {
  }

  /** Taking one more limb into a prefix. */
  lemma LESnoc(s: seq<int>, i: nat)
    requires i < |s|
    ensures LE(s[..i + 1]) == LE(s[..i]) + s[i] * Pow256(i)
  {
    LEAppend(s[..i], [s[i]]);
    assert s[..i + 1] == s[..i] + [s[i]];
    assert LE([s[i]]) == s[i];
  }

  lemma {:induction false} LEUpdate(s: seq<int>, i: nat, v: int)
    requires i < |s|
    ensures LE(s[i := v]) == LE(s) + (v - s[i]) * Pow256(i)
  {
    if i == 0 {
      assert s[0 := v][1..] == s[1..];
    } else {
      LEUpdate(s[1..], i - 1, v);
      assert s[i := v][1..] == s[1..][i - 1 := v];
      assert 256 * ((v - s[i]) * Pow256(i - 1)) == (v - s[i]) * Pow256(i);
    }
  }

  lemma SliceSlice<T>(s: seq<T>, a: nat, b: nat, c: nat, d: nat)
    requires a <= b <= |s| && c <= d <= b - a
    ensures s[a..b][c..d] == s[a + c..a + d]
  {
    forall i | 0 <= i < d - c ensures s[a..b][c..d][i] == s[a + c..a + d][i] {
      assert s[a..b][c..d][i] == s[a..b][c + i] == s[a + (c + i)];
      assert s[a + c..a + d][i] == s[a + c + i];
    }
  }

  /** A message fed in three pieces. */
  lemma Rejoin<T>(s: seq<T>, m: seq<T>, a: nat, k: nat)
    requires a <= |m| && k <= |m| - a
    ensures ((s + m[..a]) + m[a..][..k]) + m[a..][k..] == s + m
  {
    assert m == m[..a] + (m[a..][..k] + m[a..][k..]);
  }

  /** Horner's rule, four limbs at a time. */
  lemma LEPeel4(s: seq<int>)
    requires |s| >= 4
    ensures LE(s) == s[0] + 0x100 * s[1] + 0x1_0000 * s[2] + 0x100_0000 * s[3] + 0x1_0000_0000 * LE(s[4..])
  {
    assert s[1..][1..] == s[2..] && s[2..][1..] == s[3..] && s[3..][1..] == s[4..];
    assert LE(s) == s[0] + 256 * LE(s[1..]);
    assert LE(s[1..]) == s[1] + 256 * LE(s[2..]);
    assert LE(s[2..]) == s[2] + 256 * LE(s[3..]);
  }

  /** The four limbs of s from position i, and what follows them. */
  lemma LEPeelAt(s: seq<int>, i: nat)
    requires i + 4 <= |s|
    ensures LE(s[i..]) == s[i] + 0x100 * s[i + 1] + 0x1_0000 * s[i + 2] + 0x100_0000 * s[i + 3]
                          + 0x1_0000_0000 * LE(s[i + 4..])
  {
    LEPeel4(s[i..]);
    assert s[i..][4..] == s[i + 4..];
  }

  ghost predicate AllBytes(s: seq<int>) {
    forall k :: 0 <= k < |s| ==> 0 <= s[k] < 256
  }

  lemma {:induction false} LEBound(s: seq<int>)
    requires AllBytes(s)
    ensures 0 <= LE(s) < Pow256(|s|)
  {
    if |s| == 0 {
    } else {
      LEBound(s[1..]);
    }
  }

  lemma {:induction false} LEInjective(a: seq<int>, b: seq<int>)
    requires AllBytes(a) && AllBytes(b) && |a| == |b|
    requires LE(a) == LE(b)
    ensures a == b
  {
    if |a| == 0 {
    } else {
      assert a[0] == LE(a) % 256 && b[0] == LE(b) % 256;
      LEInjective(a[1..], b[1..]);
      assert a == [a[0]] + a[1..] && b == [b[0]] + b[1..];
    }
  }

  /** The len low bytes of n, least significant first. */
  function ToLE(n: nat, len: nat): (s: seq<byte>)
    ensures |s| == len
    decreases len
  {
    if len == 0 then [] else [n % 256] + ToLE(n / 256, len - 1)
  }

  lemma {:induction false} ToLEValue(n: nat, len: nat)
    ensures LE(ToLE(n, len)) == n % Pow256(len)
    decreases len
  {
    if len == 0 {
    } else {
      ToLEValue(n / 256, len - 1);
      var p := Pow256(len - 1);
      DivModUnique(n, 256 * p, (n / 256) / p, n % 256 + 256 * ((n / 256) % p));
      assert ToLE(n, len)[1..] == ToLE(n / 256, len - 1);
    }
  }

  // ---------------------------------------------------------------------
  // Division
  // ---------------------------------------------------------------------

  lemma MulBound(a: int, b: int, A: int, B: int)
    requires A >= 0 && B >= 0
    requires -A <= a <= A && -B <= b <= B
    ensures -(A * B) <= a * b <= A * B
  {
    assert (A - a) * B >= 0 && (A + a) * B >= 0;
    assert (B - b) * (A + a) >= 0 && (B + b) * (A - a) >= 0;
    assert (B + b) * (A + a) >= 0 && (B - b) * (A - a) >= 0;
  }

  lemma MulOrder(a: nat, b: nat, n: nat)
    requires a <= b
    ensures a * n <= b * n
  {
  }

  lemma SmallMultiple(k: int, d: int)
    requires -d < k * d < d
    ensures k == 0
  {
  }

  lemma DivModUnique(x: int, d: int, q: int, r: int)
    requires d > 0 && 0 <= r < d && x == q * d + r
    ensures x / d == q && x % d == r
  {
    var k := x / d - q;
    assert k * d == (x / d) * d - q * d;
    assert x == (x / d) * d + x % d;
    SmallMultiple(k, d);
  }

  /** Multiples of the modulus vanish. */
  lemma ModPlusMultiple(x: int, k: int, m: int)
    requires m > 0
    ensures (x + k * m) % m == x % m
  {
    DivModUnique(x + k * m, m, x / m + k, x % m);
  }

  lemma ModCongruent(x: int, y: int, k: int, m: int)
    requires m > 0 && x == y + k * m
    ensures x % m == y % m
  {
    ModPlusMultiple(y, k, m);
  }

  lemma ModMul(a: int, b: int, m: int)
    requires m > 0
    ensures (a % m) * (b % m) % m == a * b % m
    ensures (a % m) * b % m == a * b % m
    ensures a * (b % m) % m == a * b % m
  {
    var a', b' := a % m, b % m;
    var qa, qb := a / m, b / m;
    assert a == qa * m + a' && b == qb * m + b';
    assert a * b == a' * b + (qa * b) * m by { assert (qa * m) * b == (qa * b) * m; }
    assert a * b == a * b' + (qb * a) * m by { assert a * (qb * m) == (qb * a) * m; }
    assert a' * b == a' * b' + (qb * a') * m by { assert a' * (qb * m) == (qb * a') * m; }
    ModCongruent(a * b, a' * b, qa * b, m);
    ModCongruent(a * b, a * b', qb * a, m);
    ModCongruent(a' * b, a' * b', qb * a', m);
  }

  lemma ModAdd(a: int, b: int, m: int)
    requires m > 0
    ensures (a % m + b % m) % m == (a + b) % m
    ensures (a % m + b) % m == (a + b) % m
    ensures (a + b % m) % m == (a + b) % m
  {
    ModCongruent(a + b, a % m + b % m, a / m + b / m, m);
    ModCongruent(a + b, a % m + b, a / m, m);
    ModCongruent(a + b, a + b % m, b / m, m);
  }
}
