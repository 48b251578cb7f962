/** The rounds of ChaCha20 on bit vectors, as sections 2.1 to 2.3 of RFC 8439 write them. */
module ChaChaRounds {
  import opened Words
  import opened Bits
  import opened BitVectors
  import opened ChaCha20

  // ---------------------------------------------------------------------
  // The quarter round
  // ---------------------------------------------------------------------

  lemma RotateParts(p: bv32, n: nat, l: bv32, r: bv32)
    requires n <= 32 && l == LeftBy(p, n) && r == RightBy(p, 32 - n)
    ensures Rotl32(Number(p), n) == Number(XorVector(l, r))
  {
    hide *;
    LeftByIs(p, n);
    RightByIs(p, 32 - n);
    XorIs(l, r);
    RotlIs(Number(p), n);
  }

  lemma RotlIs(x: u32, n: nat)
    requires n <= 32
    ensures Rotl32(x, n) == Xor(Shl32(x, n), Shr32(x, 32 - n))
  {
    hide Bitwise, Shl32, Shr32;
  }

  lemma By16(p: bv32)
    ensures Rotl32(Number(p), 16) == Number(Turn16(p))
  {
    hide *;
    ShiftSixteen(p);
    RotateParts(p, 16, Left16(p), Right16(p));
    Rotate16(p);
  }

  lemma By12(p: bv32)
    ensures Rotl32(Number(p), 12) == Number(Turn12(p))
  {
    hide *;
    LeftByAdd(p, 8, 4);
    ShiftEight(p);
    ShiftFour(Left8(p));
    RightByAdd(p, 16, 4);
    ShiftSixteen(p);
    ShiftFour(Right16(p));
    RotateParts(p, 12, Left4(Left8(p)), Right4(Right16(p)));
    Rotate12(p);
  }

  lemma By8(p: bv32)
    ensures Rotl32(Number(p), 8) == Number(Turn8(p))
  {
    hide *;
    ShiftEight(p);
    RightByAdd(p, 16, 8);
    ShiftSixteen(p);
    ShiftEight(Right16(p));
    RotateParts(p, 8, Left8(p), Right8(Right16(p)));
    Rotate8(p);
  }

  lemma By7(p: bv32)
    ensures Rotl32(Number(p), 7) == Number(Turn7(p))
  {
    hide *;
    LeftByAdd(p, 4, 2);
    LeftByAdd(p, 6, 1);
    ShiftFour(p);
    ShiftTwo(Left4(p));
    ShiftOne(Left2(Left4(p)));
    RightByAdd(p, 16, 8);
    RightByAdd(p, 24, 1);
    ShiftSixteen(p);
    ShiftEight(Right16(p));
    ShiftOne(Right8(Right16(p)));
    RotateParts(p, 7, Left1(Left2(Left4(p))), Right1(Right8(Right16(p))));
    Rotate7(p);
  }

  lemma Add32Is(p: bv32, q: bv32)
    ensures Add32(Number(p), Number(q)) == Number(SumVector(p, q))
  {
    SumIs(p, q);
    hide Number, SumVector;
  }

  lemma XorWordsIs(p: bv32, q: bv32)
    ensures XorWords(Number(p), Number(q)) == Number(XorVector(p, q))
  {
    XorIs(p, q);
    hide Number, Bitwise, XorVector;
  }

  /** Half a quarter round: from the four words, with the two rotation amounts. */
  lemma HalfWords(s: seq<u32>, a: nat, b: nat, c: nat, d: nat, n: nat, m: nat, a1: u32, d1: u32, c1: u32, b1: u32)
    requires |s| == 16 && a < 16 && b < 16 && c < 16 && d < 16 && n <= 32 && m <= 32
    requires a != b && a != c && a != d && b != c && b != d && c != d
    requires a1 == Add32(s[a], s[b]) && d1 == Rotl32(XorWords(s[d], a1), n)
    requires c1 == Add32(s[c], d1) && b1 == Rotl32(XorWords(s[b], c1), m)
    ensures HalfRound(s, a, b, c, d, n, m) == s[a := a1][d := d1][c := c1][b := b1]
  {
    hide Add32, Rotl32, XorWords;
  }

  function HalfRound(s: seq<u32>, a: nat, b: nat, c: nat, d: nat, n: nat, m: nat): (t: seq<u32>)
    requires |s| == 16 && a < 16 && b < 16 && c < 16 && d < 16 && n <= 32 && m <= 32
    ensures |t| == 16
  {
    var s := s[a := Add32(s[a], s[b])];
    var s := s[d := Rotl32(XorWords(s[d], s[a]), n)];
    var s := s[c := Add32(s[c], s[d])];
    s[b := Rotl32(XorWords(s[b], s[c]), m)]
  }

  lemma TwoHalves(s: seq<u32>, a: nat, b: nat, c: nat, d: nat)
    requires |s| == 16 && a < 16 && b < 16 && c < 16 && d < 16
    ensures QuarterRound(s, a, b, c, d) == HalfRound(HalfRound(s, a, b, c, d, 16, 12), a, b, c, d, 8, 7)
  {
    hide Add32, Rotl32, XorWords;
  }

  lemma Overwritten(s: seq<u32>, a: nat, b: nat, c: nat, d: nat, a1: u32, d1: u32, c1: u32, b1: u32,
                    a2: u32, d2: u32, c2: u32, b2: u32)
    requires |s| == 16 && a < 16 && b < 16 && c < 16 && d < 16
    requires a != b && a != c && a != d && b != c && b != d && c != d
    ensures var t := s[a := a1][d := d1][c := c1][b := b1];
            && t[a] == a1 && t[b] == b1 && t[c] == c1 && t[d] == d1
            && t[a := a2][d := d2][c := c2][b := b2] == s[a := a2][b := b2][c := c2][d := d2]
  {
  }

  lemma HalfTurn16(p: bv32, q: bv32, r: bv32, t: bv32)
    ensures var p1 := SumVector(p, q);
            var t1 := Turn16(XorVector(t, p1));
            var r1 := SumVector(r, t1);
            var q1 := Turn12(XorVector(q, r1));
            && Number(p1) == Add32(Number(p), Number(q)) && Number(t1) == Rotl32(XorWords(Number(t), Number(p1)), 16)
            && Number(r1) == Add32(Number(r), Number(t1)) && Number(q1) == Rotl32(XorWords(Number(q), Number(r1)), 12)
  {
    hide *;
    var p1 := SumVector(p, q);
    var t1 := Turn16(XorVector(t, p1));
    var r1 := SumVector(r, t1);
    Add32Is(p, q);
    XorWordsIs(t, p1);
    By16(XorVector(t, p1));
    Add32Is(r, t1);
    XorWordsIs(q, r1);
    By12(XorVector(q, r1));
  }

  lemma HalfTurn8(p: bv32, q: bv32, r: bv32, t: bv32)
    ensures var p1 := SumVector(p, q);
            var t1 := Turn8(XorVector(t, p1));
            var r1 := SumVector(r, t1);
            var q1 := Turn7(XorVector(q, r1));
            && Number(p1) == Add32(Number(p), Number(q)) && Number(t1) == Rotl32(XorWords(Number(t), Number(p1)), 8)
            && Number(r1) == Add32(Number(r), Number(t1)) && Number(q1) == Rotl32(XorWords(Number(q), Number(r1)), 7)
  {
    hide *;
    var p1 := SumVector(p, q);
    var t1 := Turn8(XorVector(t, p1));
    var r1 := SumVector(r, t1);
    Add32Is(p, q);
    XorWordsIs(t, p1);
    By8(XorVector(t, p1));
    Add32Is(r, t1);
    XorWordsIs(q, r1);
    By7(XorVector(q, r1));
  }

  /** A quarter round on four words. */
  function Quarter(p: bv32, q: bv32, r: bv32, t: bv32): (k: (bv32, bv32, bv32, bv32)) {
    var p := SumVector(p, q);
    var t := Turn16(XorVector(t, p));
    var r := SumVector(r, t);
    var q := Turn12(XorVector(q, r));
    var p := SumVector(p, q);
    var t := Turn8(XorVector(t, p));
    var r := SumVector(r, t);
    var q := Turn7(XorVector(q, r));
    (p, q, r, t)
  }

  lemma QuarterRoundIs(s: seq<u32>, a: nat, b: nat, c: nat, d: nat, p: bv32, q: bv32, r: bv32, t: bv32)
    requires |s| == 16 && a < 16 && b < 16 && c < 16 && d < 16
    requires a != b && a != c && a != d && b != c && b != d && c != d
    requires s[a] == Number(p) && s[b] == Number(q) && s[c] == Number(r) && s[d] == Number(t)
    ensures var k := Quarter(p, q, r, t);
            QuarterRound(s, a, b, c, d)
            == s[a := Number(k.0)][b := Number(k.1)][c := Number(k.2)][d := Number(k.3)]
  {
    hide *;
    var p1 := SumVector(p, q);
    var t1 := Turn16(XorVector(t, p1));
    var r1 := SumVector(r, t1);
    var q1 := Turn12(XorVector(q, r1));
    var p2 := SumVector(p1, q1);
    var t2 := Turn8(XorVector(t1, p2));
    var r2 := SumVector(r1, t2);
    var q2 := Turn7(XorVector(q1, r2));
    HalfTurn16(p, q, r, t);
    HalfTurn8(p1, q1, r1, t1);
    TwoHalves(s, a, b, c, d);
    HalfWords(s, a, b, c, d, 16, 12, Number(p1), Number(t1), Number(r1), Number(q1));
    Overwritten(s, a, b, c, d, Number(p1), Number(t1), Number(r1), Number(q1),
                Number(p2), Number(t2), Number(r2), Number(q2));
    HalfWords(HalfRound(s, a, b, c, d, 16, 12), a, b, c, d, 8, 7, Number(p2), Number(t2), Number(r2), Number(q2));
    QuarterParts(p, q, r, t);
  }

  lemma QuarterParts(p: bv32, q: bv32, r: bv32, t: bv32)
    ensures var p1 := SumVector(p, q);
            var t1 := Turn16(XorVector(t, p1));
            var r1 := SumVector(r, t1);
            var q1 := Turn12(XorVector(q, r1));
            var p2 := SumVector(p1, q1);
            var t2 := Turn8(XorVector(t1, p2));
            var r2 := SumVector(r1, t2);
            Quarter(p, q, r, t) == (p2, Turn7(XorVector(q1, r2)), r2, t2)
  {
    hide SumVector, XorVector, Turn16, Turn12, Turn8, Turn7;
  }

  lemma NativeSum(p: bv32, q: bv32, r: bv32)
    requires r == p + q
    ensures SumVector(p, q) == r
  {
  }

  lemma NativeTurn16(p: bv32, q: bv32, r: bv32)
    requires r == (p ^ q).RotateLeft(16)
    ensures Turn16(XorVector(p, q)) == r
  {
  }

  lemma NativeTurn12(p: bv32, q: bv32, r: bv32)
    requires r == (p ^ q).RotateLeft(12)
    ensures Turn12(XorVector(p, q)) == r
  {
  }

  lemma NativeTurn8(p: bv32, q: bv32, r: bv32)
    requires r == (p ^ q).RotateLeft(8)
    ensures Turn8(XorVector(p, q)) == r
  {
  }

  lemma NativeTurn7(p: bv32, q: bv32, r: bv32)
    requires r == (p ^ q).RotateLeft(7)
    ensures Turn7(XorVector(p, q)) == r
  {
  }

  /** Section 2.1 of RFC 8439, for all words p, q, r and t: the values the words take one after the other. */
  lemma QuarterRoundWords(s: seq<u32>, a: nat, b: nat, c: nat, d: nat, p: bv32, q: bv32, r: bv32, t: bv32,
                          p1: bv32, t1: bv32, r1: bv32, q1: bv32, p2: bv32, t2: bv32, r2: bv32, q2: bv32)
    requires |s| == 16 && a < 16 && b < 16 && c < 16 && d < 16
    requires a != b && a != c && a != d && b != c && b != d && c != d
    requires s[a] == p as int && s[b] == q as int && s[c] == r as int && s[d] == t as int
    requires p1 == p + q && t1 == (t ^ p1).RotateLeft(16) && r1 == r + t1 && q1 == (q ^ r1).RotateLeft(12)
    requires p2 == p1 + q1 && t2 == (t1 ^ p2).RotateLeft(8) && r2 == r1 + t2 && q2 == (q1 ^ r2).RotateLeft(7)
    ensures QuarterRound(s, a, b, c, d) == s[a := p2 as int][b := q2 as int][c := r2 as int][d := t2 as int]
  {
    NativeSum(p, q, p1);
    NativeTurn16(t, p1, t1);
    NativeSum(r, t1, r1);
    NativeTurn12(q, r1, q1);
    NativeSum(p1, q1, p2);
    NativeTurn8(t1, p2, t2);
    NativeSum(r1, t2, r2);
    NativeTurn7(q1, r2, q2);
    hide SumVector, XorVector, Turn16, Turn12, Turn8, Turn7, QuarterRound, Quarter;
    QuarterParts(p, q, r, t);
    QuarterRoundIs(s, a, b, c, d, p, q, r, t);
  }

  // ---------------------------------------------------------------------
  // The quarter round backwards
  // ---------------------------------------------------------------------

  function Difference(p: bv32, q: bv32): (r: bv32) { p - q }
  function Back16(p: bv32): (q: bv32) { p.RotateRight(16) }
  function Back12(p: bv32): (q: bv32) { p.RotateRight(12) }
  function Back8(p: bv32): (q: bv32) { p.RotateRight(8) }
  function Back7(p: bv32): (q: bv32) { p.RotateRight(7) }

  /** The steps of a quarter round undone, the last one first. */
  function Unquarter(p: bv32, q: bv32, r: bv32, t: bv32): (k: (bv32, bv32, bv32, bv32)) {
    var q := XorVector(Back7(q), r);
    var r := Difference(r, t);
    var t := XorVector(Back8(t), p);
    var p := Difference(p, q);
    var q := XorVector(Back12(q), r);
    var r := Difference(r, t);
    var t := XorVector(Back16(t), p);
    var p := Difference(p, q);
    (p, q, r, t)
  }

  lemma NativeDifference(p: bv32, q: bv32, s: bv32)
    requires s == p + q
    ensures Difference(s, q) == p
  {
  }

  lemma SumUndone(p: bv32, q: bv32)
    ensures Difference(SumVector(p, q), q) == p
  {
    hide *;
    NativeSum(p, q, p + q);
    NativeDifference(p, q, p + q);
  }

  lemma XorUndone(p: bv32, q: bv32)
    ensures XorVector(XorVector(p, q), q) == p
  {
  }

  lemma TurnUndone(p: bv32)
    ensures Back16(Turn16(p)) == p && Back12(Turn12(p)) == p && Back8(Turn8(p)) == p && Back7(Turn7(p)) == p
  {
  }

  lemma QuarterUndone(p: bv32, q: bv32, r: bv32, t: bv32)
    ensures var k := Quarter(p, q, r, t); Unquarter(k.0, k.1, k.2, k.3) == (p, q, r, t)
  {
    hide SumVector, XorVector, Difference, Turn16, Turn12, Turn8, Turn7, Back16, Back12, Back8, Back7;
    var p1 := SumVector(p, q);
    var t1 := Turn16(XorVector(t, p1));
    var r1 := SumVector(r, t1);
    var q1 := Turn12(XorVector(q, r1));
    var p2 := SumVector(p1, q1);
    var t2 := Turn8(XorVector(t1, p2));
    var r2 := SumVector(r1, t2);
    TurnUndone(XorVector(q1, r2));
    XorUndone(q1, r2);
    SumUndone(r1, t2);
    TurnUndone(XorVector(t1, p2));
    XorUndone(t1, p2);
    SumUndone(p1, q1);
    TurnUndone(XorVector(q, r1));
    XorUndone(q, r1);
    SumUndone(r, t1);
    TurnUndone(XorVector(t, p1));
    XorUndone(t, p1);
    SumUndone(p, q);
  }
}
