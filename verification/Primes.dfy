/** The first eighty primes, by their number. */
module Primes {
  import opened Words

  ghost predicate Divides(d: nat, n: nat) {
    d > 0 && n % d == 0
  }

  ghost predicate IsPrime(n: nat) {
    n >= 2 && forall d :: 2 <= d < n ==> !Divides(d, n)
  }

  /** How many primes are below n. */
  ghost function PrimesBelow(n: nat): (c: nat) {
    if n == 0 then 0 else PrimesBelow(n - 1) + (if IsPrime(n - 1) then 1 else 0)
  }

  /** p is the prime that has t primes below it. */
  ghost predicate IsNth(t: nat, p: nat) {
    IsPrime(p) && PrimesBelow(p) == t
  }

  lemma {:induction false} PrimesGrow(a: nat, b: nat)
    requires a <= b
    ensures PrimesBelow(a) <= PrimesBelow(b)
    ensures a < b && IsPrime(a) ==> PrimesBelow(a) < PrimesBelow(b)
    decreases b - a
  {
    hide IsPrime;
    if a < b { PrimesGrow(a + 1, b); }
  }

  lemma NthUnique(t: nat, p: nat, q: nat)
    requires IsNth(t, p) && IsNth(t, q)
    ensures p == q
  {
    hide IsPrime, PrimesBelow;
    if p < q { PrimesGrow(p, q); } else { PrimesGrow(q, p); }
  }

  // ---------------------------------------------------------------------
  // The sieve with the primes up to 19
  // ---------------------------------------------------------------------

  /** No prime up to 19 other than n itself divides n. */
  predicate Sieved(n: nat) {
    && n >= 2
    && (n % 2 != 0 || n == 2) && (n % 3 != 0 || n == 3) && (n % 5 != 0 || n == 5) && (n % 7 != 0 || n == 7)
    && (n % 11 != 0 || n == 11) && (n % 13 != 0 || n == 13) && (n % 17 != 0 || n == 17) && (n % 19 != 0 || n == 19)
  }

  lemma MultipleSieved(n: nat, q: nat, y: nat)
    requires n == q * y && y >= 2 && q in {2, 3, 5, 7, 11, 13, 17, 19}
    ensures !Sieved(n)
  {
    DivModUnique(n, q, y, 0);
    assert n >= 2 * q;
  }

  lemma FactorSieved(n: nat, m: nat, x: nat)
    requires n == m * x && 2 <= m < 23 && x >= 2
    ensures !Sieved(n)
  {
    hide Sieved;
    if m % 2 == 0 {
      assert n == 2 * (m / 2 * x) by { assert m == 2 * (m / 2); }
      MulOrder(1, m / 2, x);
      MultipleSieved(n, 2, m / 2 * x);
    } else if m % 3 == 0 {
      assert n == 3 * (m / 3 * x) by { assert m == 3 * (m / 3); }
      MulOrder(1, m / 3, x);
      MultipleSieved(n, 3, m / 3 * x);
    } else {
      MultipleSieved(n, m, x);
    }
  }

  lemma BothLarge(d: nat, e: nat)
    requires d >= 23 && e >= 23
    ensures d * e >= 529
  {
    MulOrder(23, d, e);
  }

  lemma AtMost(d: nat, e: int)
    ensures e <= 1 ==> d * e <= d
  {
    if e <= 1 { assert (1 - e) * d >= 0; }
  }

  lemma DivisorSieved(n: nat, d: nat)
    requires 2 <= d < n < 529 && Divides(d, n)
    ensures !Sieved(n)
  {
    hide Sieved;
    var e := n / d;
    assert n == d * e;
    AtMost(d, e);
    if d < 23 {
      FactorSieved(n, d, e);
    } else if e < 23 {
      FactorSieved(n, e, d);
    } else {
      BothLarge(d, e);
    }
  }

  /** Below 23 * 23 the sieve finds the primes. */
  lemma SieveIsPrime(n: nat)
    requires n < 529
    ensures Sieved(n) <==> IsPrime(n)
  {
    if Sieved(n) {
      forall d | 2 <= d < n ensures !Divides(d, n) {
        hide Sieved;
        if Divides(d, n) { DivisorSieved(n, d); }
      }
    } else if n >= 2 {
      assert Divides(2, n) || Divides(3, n) || Divides(5, n) || Divides(7, n)
          || Divides(11, n) || Divides(13, n) || Divides(17, n) || Divides(19, n);
    }
  }

  lemma {:induction false} NoneBetween(p: nat, q: nat)
    requires p < q < 529 && forall n :: p < n < q ==> !Sieved(n)
    ensures PrimesBelow(q) == PrimesBelow(p + 1)
  {
    hide IsPrime, Sieved;
    if q > p + 1 {
      SieveIsPrime(q - 1);
      NoneBetween(p, q - 1);
    }
  }

  lemma NextNth(t: nat, p: nat, q: nat)
    requires IsNth(t, p) && p < q < 529 && Sieved(q) && forall n :: p < n < q ==> !Sieved(n)
    ensures IsNth(t + 1, q)
  {
    hide IsPrime, Sieved;
    NoneBetween(p, q);
    SieveIsPrime(q);
  }

  lemma FirstPrime()
    ensures IsNth(0, 2)
  {
    assert PrimesBelow(1) == PrimesBelow(0) == 0;
  }

  // ---------------------------------------------------------------------
  // The first eighty primes
  // ---------------------------------------------------------------------

  lemma Batch0(n: nat)
    requires 2 < n <= 59
    ensures Sieved(n) <==> n in {3, 5, 7, 11, 13, 17, 19, 23, 29, 31, 37, 41, 43, 47, 53, 59}
  {
    hide Sieved;
    if n % 2 == 0 && n != 2 {
      MultipleSieved(n, 2, n / 2);
    } else if n in {3, 5, 7, 11, 13, 17, 19, 23, 29, 31, 37, 41, 43, 47, 53, 59} {
      Pass0();
    } else {
      Fail0();
      assert n in {9, 15, 21, 25, 27, 33, 35, 39, 45, 49, 51, 55, 57};
    }
  }

  lemma Pass0()
    ensures Sieved(3) && Sieved(5) && Sieved(7) && Sieved(11) && Sieved(13) && Sieved(17) && Sieved(19)
    ensures Sieved(23) && Sieved(29) && Sieved(31) && Sieved(37) && Sieved(41) && Sieved(43) && Sieved(47)
    ensures Sieved(53) && Sieved(59)
  {
  }

  lemma Fail0()
    ensures !Sieved(9) && !Sieved(15) && !Sieved(21) && !Sieved(25) && !Sieved(27) && !Sieved(33)
    ensures !Sieved(35) && !Sieved(39) && !Sieved(45) && !Sieved(49) && !Sieved(51) && !Sieved(55)
    ensures !Sieved(57)
  {
  }

  lemma Primes0()
    ensures IsNth(0, 2) && IsNth(1, 3) && IsNth(2, 5) && IsNth(3, 7) && IsNth(4, 11) && IsNth(5, 13)
    ensures IsNth(6, 17) && IsNth(7, 19) && IsNth(8, 23) && IsNth(9, 29) && IsNth(10, 31) && IsNth(11, 37)
    ensures IsNth(12, 41) && IsNth(13, 43) && IsNth(14, 47) && IsNth(15, 53) && IsNth(16, 59)
  {
    hide *;
    FirstPrime();
    forall n: nat | 2 < n <= 59
      ensures Sieved(n) <==> n in {3, 5, 7, 11, 13, 17, 19, 23, 29, 31, 37, 41, 43, 47, 53, 59}
    {
      Batch0(n);
    }
    NextNth(0, 2, 3);
    NextNth(1, 3, 5);
    NextNth(2, 5, 7);
    NextNth(3, 7, 11);
    NextNth(4, 11, 13);
    NextNth(5, 13, 17);
    NextNth(6, 17, 19);
    NextNth(7, 19, 23);
    NextNth(8, 23, 29);
    NextNth(9, 29, 31);
    NextNth(10, 31, 37);
    NextNth(11, 37, 41);
    NextNth(12, 41, 43);
    NextNth(13, 43, 47);
    NextNth(14, 47, 53);
    NextNth(15, 53, 59);
  }

  lemma Batch1(n: nat)
    requires 59 < n <= 137
    ensures Sieved(n) <==> n in {61, 67, 71, 73, 79, 83, 89, 97, 101, 103, 107, 109, 113, 127, 131, 137}
  {
    hide Sieved;
    if n % 2 == 0 && n != 2 {
      MultipleSieved(n, 2, n / 2);
    } else if n in {61, 67, 71, 73, 79, 83, 89, 97, 101, 103, 107, 109, 113, 127, 131, 137} {
      Pass1();
    } else {
      Fail1();
      assert n in {63, 65, 69, 75, 77, 81, 85, 87, 91, 93, 95, 99, 105, 111, 115, 117, 119, 121, 123, 125, 129,
                   133, 135};
    }
  }

  lemma Pass1()
    ensures Sieved(61) && Sieved(67) && Sieved(71) && Sieved(73) && Sieved(79) && Sieved(83) && Sieved(89)
    ensures Sieved(97) && Sieved(101) && Sieved(103) && Sieved(107) && Sieved(109) && Sieved(113)
    ensures Sieved(127) && Sieved(131) && Sieved(137)
  {
  }

  lemma Fail1()
    ensures !Sieved(63) && !Sieved(65) && !Sieved(69) && !Sieved(75) && !Sieved(77) && !Sieved(81)
    ensures !Sieved(85) && !Sieved(87) && !Sieved(91) && !Sieved(93) && !Sieved(95) && !Sieved(99)
    ensures !Sieved(105) && !Sieved(111) && !Sieved(115) && !Sieved(117) && !Sieved(119) && !Sieved(121)
    ensures !Sieved(123) && !Sieved(125) && !Sieved(129) && !Sieved(133) && !Sieved(135)
  {
  }

  lemma Primes1()
    ensures IsNth(16, 59) && IsNth(17, 61) && IsNth(18, 67) && IsNth(19, 71) && IsNth(20, 73)
    ensures IsNth(21, 79) && IsNth(22, 83) && IsNth(23, 89) && IsNth(24, 97) && IsNth(25, 101)
    ensures IsNth(26, 103) && IsNth(27, 107) && IsNth(28, 109) && IsNth(29, 113) && IsNth(30, 127)
    ensures IsNth(31, 131) && IsNth(32, 137)
  {
    hide *;
    Primes0();
    forall n: nat | 59 < n <= 137
      ensures Sieved(n) <==> n in {61, 67, 71, 73, 79, 83, 89, 97, 101, 103, 107, 109, 113, 127, 131, 137}
    {
      Batch1(n);
    }
    NextNth(16, 59, 61);
    NextNth(17, 61, 67);
    NextNth(18, 67, 71);
    NextNth(19, 71, 73);
    NextNth(20, 73, 79);
    NextNth(21, 79, 83);
    NextNth(22, 83, 89);
    NextNth(23, 89, 97);
    NextNth(24, 97, 101);
    NextNth(25, 101, 103);
    NextNth(26, 103, 107);
    NextNth(27, 107, 109);
    NextNth(28, 109, 113);
    NextNth(29, 113, 127);
    NextNth(30, 127, 131);
    NextNth(31, 131, 137);
  }

  lemma Batch2(n: nat)
    requires 137 < n <= 227
    ensures Sieved(n) <==> n in {139, 149, 151, 157, 163, 167, 173, 179, 181, 191, 193, 197, 199, 211, 223, 227}
  {
    hide Sieved;
    if n % 2 == 0 && n != 2 {
      MultipleSieved(n, 2, n / 2);
    } else if n in {139, 149, 151, 157, 163, 167, 173, 179, 181, 191, 193, 197, 199, 211, 223, 227} {
      Pass2();
    } else {
      Fail2();
      assert n in {141, 143, 145, 147, 153, 155, 159, 161, 165, 169, 171, 175, 177, 183, 185, 187, 189, 195,
                   201, 203, 205, 207, 209, 213, 215, 217, 219, 221, 225};
    }
  }

  lemma Pass2()
    ensures Sieved(139) && Sieved(149) && Sieved(151) && Sieved(157) && Sieved(163) && Sieved(167)
    ensures Sieved(173) && Sieved(179) && Sieved(181) && Sieved(191) && Sieved(193) && Sieved(197)
    ensures Sieved(199) && Sieved(211) && Sieved(223) && Sieved(227)
  {
  }

  lemma Fail2()
    ensures !Sieved(141) && !Sieved(143) && !Sieved(145) && !Sieved(147) && !Sieved(153) && !Sieved(155)
    ensures !Sieved(159) && !Sieved(161) && !Sieved(165) && !Sieved(169) && !Sieved(171) && !Sieved(175)
    ensures !Sieved(177) && !Sieved(183) && !Sieved(185) && !Sieved(187) && !Sieved(189) && !Sieved(195)
    ensures !Sieved(201) && !Sieved(203) && !Sieved(205) && !Sieved(207) && !Sieved(209) && !Sieved(213)
    ensures !Sieved(215) && !Sieved(217) && !Sieved(219) && !Sieved(221) && !Sieved(225)
  {
  }

  lemma Primes2()
    ensures IsNth(32, 137) && IsNth(33, 139) && IsNth(34, 149) && IsNth(35, 151) && IsNth(36, 157)
    ensures IsNth(37, 163) && IsNth(38, 167) && IsNth(39, 173) && IsNth(40, 179) && IsNth(41, 181)
    ensures IsNth(42, 191) && IsNth(43, 193) && IsNth(44, 197) && IsNth(45, 199) && IsNth(46, 211)
    ensures IsNth(47, 223) && IsNth(48, 227)
  {
    hide *;
    Primes1();
    forall n: nat | 137 < n <= 227
      ensures Sieved(n) <==> n in {139, 149, 151, 157, 163, 167, 173, 179, 181, 191, 193, 197, 199, 211, 223,
                                   227}
    {
      Batch2(n);
    }
    NextNth(32, 137, 139);
    NextNth(33, 139, 149);
    NextNth(34, 149, 151);
    NextNth(35, 151, 157);
    NextNth(36, 157, 163);
    NextNth(37, 163, 167);
    NextNth(38, 167, 173);
    NextNth(39, 173, 179);
    NextNth(40, 179, 181);
    NextNth(41, 181, 191);
    NextNth(42, 191, 193);
    NextNth(43, 193, 197);
    NextNth(44, 197, 199);
    NextNth(45, 199, 211);
    NextNth(46, 211, 223);
    NextNth(47, 223, 227);
  }

  lemma Batch3(n: nat)
    requires 227 < n <= 313
    ensures Sieved(n) <==> n in {229, 233, 239, 241, 251, 257, 263, 269, 271, 277, 281, 283, 293, 307, 311, 313}
  {
    hide Sieved;
    if n % 2 == 0 && n != 2 {
      MultipleSieved(n, 2, n / 2);
    } else if n in {229, 233, 239, 241, 251, 257, 263, 269, 271, 277, 281, 283, 293, 307, 311, 313} {
      Pass3();
    } else {
      Fail3();
      assert n in {231, 235, 237, 243, 245, 247, 249, 253, 255, 259, 261, 265, 267, 273, 275, 279, 285, 287,
                   289, 291, 295, 297, 299, 301, 303, 305, 309};
    }
  }

  lemma Pass3()
    ensures Sieved(229) && Sieved(233) && Sieved(239) && Sieved(241) && Sieved(251) && Sieved(257)
    ensures Sieved(263) && Sieved(269) && Sieved(271) && Sieved(277) && Sieved(281) && Sieved(283)
    ensures Sieved(293) && Sieved(307) && Sieved(311) && Sieved(313)
  {
  }

  lemma Fail3()
    ensures !Sieved(231) && !Sieved(235) && !Sieved(237) && !Sieved(243) && !Sieved(245) && !Sieved(247)
    ensures !Sieved(249) && !Sieved(253) && !Sieved(255) && !Sieved(259) && !Sieved(261) && !Sieved(265)
    ensures !Sieved(267) && !Sieved(273) && !Sieved(275) && !Sieved(279) && !Sieved(285) && !Sieved(287)
    ensures !Sieved(289) && !Sieved(291) && !Sieved(295) && !Sieved(297) && !Sieved(299) && !Sieved(301)
    ensures !Sieved(303) && !Sieved(305) && !Sieved(309)
  {
  }

  lemma Primes3()
    ensures IsNth(48, 227) && IsNth(49, 229) && IsNth(50, 233) && IsNth(51, 239) && IsNth(52, 241)
    ensures IsNth(53, 251) && IsNth(54, 257) && IsNth(55, 263) && IsNth(56, 269) && IsNth(57, 271)
    ensures IsNth(58, 277) && IsNth(59, 281) && IsNth(60, 283) && IsNth(61, 293) && IsNth(62, 307)
    ensures IsNth(63, 311) && IsNth(64, 313)
  {
    hide *;
    Primes2();
    forall n: nat | 227 < n <= 313
      ensures Sieved(n) <==> n in {229, 233, 239, 241, 251, 257, 263, 269, 271, 277, 281, 283, 293, 307, 311,
                                   313}
    {
      Batch3(n);
    }
    NextNth(48, 227, 229);
    NextNth(49, 229, 233);
    NextNth(50, 233, 239);
    NextNth(51, 239, 241);
    NextNth(52, 241, 251);
    NextNth(53, 251, 257);
    NextNth(54, 257, 263);
    NextNth(55, 263, 269);
    NextNth(56, 269, 271);
    NextNth(57, 271, 277);
    NextNth(58, 277, 281);
    NextNth(59, 281, 283);
    NextNth(60, 283, 293);
    NextNth(61, 293, 307);
    NextNth(62, 307, 311);
    NextNth(63, 311, 313);
  }

  lemma Batch4(n: nat)
    requires 313 < n <= 409
    ensures Sieved(n) <==> n in {317, 331, 337, 347, 349, 353, 359, 367, 373, 379, 383, 389, 397, 401, 409}
  {
    hide Sieved;
    if n % 2 == 0 && n != 2 {
      MultipleSieved(n, 2, n / 2);
    } else if n in {317, 331, 337, 347, 349, 353, 359, 367, 373, 379, 383, 389, 397, 401, 409} {
      Pass4();
    } else {
      Fail4();
      assert n in {315, 319, 321, 323, 325, 327, 329, 333, 335, 339, 341, 343, 345, 351, 355, 357, 361, 363,
                   365, 369, 371, 375, 377, 381, 385, 387, 391, 393, 395, 399, 403, 405, 407};
    }
  }

  lemma Pass4()
    ensures Sieved(317) && Sieved(331) && Sieved(337) && Sieved(347) && Sieved(349) && Sieved(353)
    ensures Sieved(359) && Sieved(367) && Sieved(373) && Sieved(379) && Sieved(383) && Sieved(389)
    ensures Sieved(397) && Sieved(401) && Sieved(409)
  {
  }

  lemma Fail4()
    ensures !Sieved(315) && !Sieved(319) && !Sieved(321) && !Sieved(323) && !Sieved(325) && !Sieved(327)
    ensures !Sieved(329) && !Sieved(333) && !Sieved(335) && !Sieved(339) && !Sieved(341) && !Sieved(343)
    ensures !Sieved(345) && !Sieved(351) && !Sieved(355) && !Sieved(357) && !Sieved(361) && !Sieved(363)
    ensures !Sieved(365) && !Sieved(369) && !Sieved(371) && !Sieved(375) && !Sieved(377) && !Sieved(381)
    ensures !Sieved(385) && !Sieved(387) && !Sieved(391) && !Sieved(393) && !Sieved(395) && !Sieved(399)
    ensures !Sieved(403) && !Sieved(405) && !Sieved(407)
  {
  }

  lemma Primes4()
    ensures IsNth(64, 313) && IsNth(65, 317) && IsNth(66, 331) && IsNth(67, 337) && IsNth(68, 347)
    ensures IsNth(69, 349) && IsNth(70, 353) && IsNth(71, 359) && IsNth(72, 367) && IsNth(73, 373)
    ensures IsNth(74, 379) && IsNth(75, 383) && IsNth(76, 389) && IsNth(77, 397) && IsNth(78, 401)
    ensures IsNth(79, 409)
  {
    hide *;
    Primes3();
    forall n: nat | 313 < n <= 409
      ensures Sieved(n) <==> n in {317, 331, 337, 347, 349, 353, 359, 367, 373, 379, 383, 389, 397, 401, 409}
    {
      Batch4(n);
    }
    NextNth(64, 313, 317);
    NextNth(65, 317, 331);
    NextNth(66, 331, 337);
    NextNth(67, 337, 347);
    NextNth(68, 347, 349);
    NextNth(69, 349, 353);
    NextNth(70, 353, 359);
    NextNth(71, 359, 367);
    NextNth(72, 367, 373);
    NextNth(73, 373, 379);
    NextNth(74, 379, 383);
    NextNth(75, 383, 389);
    NextNth(76, 389, 397);
    NextNth(77, 397, 401);
    NextNth(78, 401, 409);
  }
}
