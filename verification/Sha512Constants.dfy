/** The constants of SHA-512: the first 64 bits of the fractional parts of the cube roots of the first eighty primes,
    and of the square roots of the first eight, as sections 4.2.3 and 5.3.5 of FIPS 180-4 define them. */
module Sha512Constants {
  import opened Words
  import opened Primes
  import opened Blocks
  import opened Sha512Compress

  const TWO192: int := TWO64 * TWO64 * TWO64

  /** c + k / 2^64 is the cube root of p, cut off after 64 bits. */
  ghost predicate CubeRoot(c: nat, k: nat, p: nat) {
    var r := c * TWO64 + k;
    k < TWO64 && r * r * r <= p * TWO192 < (r + 1) * (r + 1) * (r + 1)
  }

  /** c + k / 2^64 is the square root of p, cut off after 64 bits. */
  ghost predicate SquareRoot(c: nat, k: nat, p: nat) {
    var r := c * TWO64 + k;
    k < TWO64 && r * r <= p * TWO128 < (r + 1) * (r + 1)
  }

  function WholeRoot(p: nat): (c: nat) {
    if p < 8 then 1 else if p < 27 then 2 else if p < 64 then 3 else if p < 125 then 4
    else if p < 216 then 5 else if p < 343 then 6 else 7
  }

  lemma Roots0()
    ensures CubeRoot(1, K(0), 2) && WholeRoot(2) == 1
    ensures CubeRoot(1, K(1), 3) && WholeRoot(3) == 1
    ensures CubeRoot(1, K(2), 5) && WholeRoot(5) == 1
    ensures CubeRoot(1, K(3), 7) && WholeRoot(7) == 1
    ensures CubeRoot(2, K(4), 11) && WholeRoot(11) == 2
    ensures CubeRoot(2, K(5), 13) && WholeRoot(13) == 2
    ensures CubeRoot(2, K(6), 17) && WholeRoot(17) == 2
    ensures CubeRoot(2, K(7), 19) && WholeRoot(19) == 2
  {
  }

  lemma Roots1()
    ensures CubeRoot(2, K(8), 23) && WholeRoot(23) == 2
    ensures CubeRoot(3, K(9), 29) && WholeRoot(29) == 3
    ensures CubeRoot(3, K(10), 31) && WholeRoot(31) == 3
    ensures CubeRoot(3, K(11), 37) && WholeRoot(37) == 3
    ensures CubeRoot(3, K(12), 41) && WholeRoot(41) == 3
    ensures CubeRoot(3, K(13), 43) && WholeRoot(43) == 3
    ensures CubeRoot(3, K(14), 47) && WholeRoot(47) == 3
    ensures CubeRoot(3, K(15), 53) && WholeRoot(53) == 3
  {
  }

  lemma Roots2()
    ensures CubeRoot(3, K(16), 59) && WholeRoot(59) == 3
    ensures CubeRoot(3, K(17), 61) && WholeRoot(61) == 3
    ensures CubeRoot(4, K(18), 67) && WholeRoot(67) == 4
    ensures CubeRoot(4, K(19), 71) && WholeRoot(71) == 4
    ensures CubeRoot(4, K(20), 73) && WholeRoot(73) == 4
    ensures CubeRoot(4, K(21), 79) && WholeRoot(79) == 4
    ensures CubeRoot(4, K(22), 83) && WholeRoot(83) == 4
    ensures CubeRoot(4, K(23), 89) && WholeRoot(89) == 4
  {
  }

  lemma Roots3()
    ensures CubeRoot(4, K(24), 97) && WholeRoot(97) == 4
    ensures CubeRoot(4, K(25), 101) && WholeRoot(101) == 4
    ensures CubeRoot(4, K(26), 103) && WholeRoot(103) == 4
    ensures CubeRoot(4, K(27), 107) && WholeRoot(107) == 4
    ensures CubeRoot(4, K(28), 109) && WholeRoot(109) == 4
    ensures CubeRoot(4, K(29), 113) && WholeRoot(113) == 4
    ensures CubeRoot(5, K(30), 127) && WholeRoot(127) == 5
    ensures CubeRoot(5, K(31), 131) && WholeRoot(131) == 5
  {
  }

  lemma Roots4()
    ensures CubeRoot(5, K(32), 137) && WholeRoot(137) == 5
    ensures CubeRoot(5, K(33), 139) && WholeRoot(139) == 5
    ensures CubeRoot(5, K(34), 149) && WholeRoot(149) == 5
    ensures CubeRoot(5, K(35), 151) && WholeRoot(151) == 5
    ensures CubeRoot(5, K(36), 157) && WholeRoot(157) == 5
    ensures CubeRoot(5, K(37), 163) && WholeRoot(163) == 5
    ensures CubeRoot(5, K(38), 167) && WholeRoot(167) == 5
    ensures CubeRoot(5, K(39), 173) && WholeRoot(173) == 5
  {
  }

  lemma Roots5()
    ensures CubeRoot(5, K(40), 179) && WholeRoot(179) == 5
    ensures CubeRoot(5, K(41), 181) && WholeRoot(181) == 5
    ensures CubeRoot(5, K(42), 191) && WholeRoot(191) == 5
    ensures CubeRoot(5, K(43), 193) && WholeRoot(193) == 5
    ensures CubeRoot(5, K(44), 197) && WholeRoot(197) == 5
    ensures CubeRoot(5, K(45), 199) && WholeRoot(199) == 5
    ensures CubeRoot(5, K(46), 211) && WholeRoot(211) == 5
    ensures CubeRoot(6, K(47), 223) && WholeRoot(223) == 6
  {
  }

  lemma Roots6()
    ensures CubeRoot(6, K(48), 227) && WholeRoot(227) == 6
    ensures CubeRoot(6, K(49), 229) && WholeRoot(229) == 6
    ensures CubeRoot(6, K(50), 233) && WholeRoot(233) == 6
    ensures CubeRoot(6, K(51), 239) && WholeRoot(239) == 6
    ensures CubeRoot(6, K(52), 241) && WholeRoot(241) == 6
    ensures CubeRoot(6, K(53), 251) && WholeRoot(251) == 6
    ensures CubeRoot(6, K(54), 257) && WholeRoot(257) == 6
    ensures CubeRoot(6, K(55), 263) && WholeRoot(263) == 6
  {
  }

  lemma Roots7()
    ensures CubeRoot(6, K(56), 269) && WholeRoot(269) == 6
    ensures CubeRoot(6, K(57), 271) && WholeRoot(271) == 6
    ensures CubeRoot(6, K(58), 277) && WholeRoot(277) == 6
    ensures CubeRoot(6, K(59), 281) && WholeRoot(281) == 6
    ensures CubeRoot(6, K(60), 283) && WholeRoot(283) == 6
    ensures CubeRoot(6, K(61), 293) && WholeRoot(293) == 6
    ensures CubeRoot(6, K(62), 307) && WholeRoot(307) == 6
    ensures CubeRoot(6, K(63), 311) && WholeRoot(311) == 6
  {
  }

  lemma Roots8()
    ensures CubeRoot(6, K(64), 313) && WholeRoot(313) == 6
    ensures CubeRoot(6, K(65), 317) && WholeRoot(317) == 6
    ensures CubeRoot(6, K(66), 331) && WholeRoot(331) == 6
    ensures CubeRoot(6, K(67), 337) && WholeRoot(337) == 6
    ensures CubeRoot(7, K(68), 347) && WholeRoot(347) == 7
    ensures CubeRoot(7, K(69), 349) && WholeRoot(349) == 7
    ensures CubeRoot(7, K(70), 353) && WholeRoot(353) == 7
    ensures CubeRoot(7, K(71), 359) && WholeRoot(359) == 7
  {
  }

  lemma Roots9()
    ensures CubeRoot(7, K(72), 367) && WholeRoot(367) == 7
    ensures CubeRoot(7, K(73), 373) && WholeRoot(373) == 7
    ensures CubeRoot(7, K(74), 379) && WholeRoot(379) == 7
    ensures CubeRoot(7, K(75), 383) && WholeRoot(383) == 7
    ensures CubeRoot(7, K(76), 389) && WholeRoot(389) == 7
    ensures CubeRoot(7, K(77), 397) && WholeRoot(397) == 7
    ensures CubeRoot(7, K(78), 401) && WholeRoot(401) == 7
    ensures CubeRoot(7, K(79), 409) && WholeRoot(409) == 7
  {
  }

  lemma Batch0(t: nat, p: nat)
    requires 0 <= t < 8 && IsNth(t, p)
    ensures CubeRoot(WholeRoot(p), K(t), p)
  {
    hide *;
    Primes0();
    Roots0();
    forall q | IsNth(t, q) ensures q == p { NthUnique(t, p, q); }
  }

  lemma Batch1(t: nat, p: nat)
    requires 8 <= t < 16 && IsNth(t, p)
    ensures CubeRoot(WholeRoot(p), K(t), p)
  {
    hide *;
    Primes0();
    Roots1();
    forall q | IsNth(t, q) ensures q == p { NthUnique(t, p, q); }
  }

  lemma Batch2(t: nat, p: nat)
    requires 16 <= t < 24 && IsNth(t, p)
    ensures CubeRoot(WholeRoot(p), K(t), p)
  {
    hide *;
    Primes1();
    Roots2();
    forall q | IsNth(t, q) ensures q == p { NthUnique(t, p, q); }
  }

  lemma Batch3(t: nat, p: nat)
    requires 24 <= t < 32 && IsNth(t, p)
    ensures CubeRoot(WholeRoot(p), K(t), p)
  {
    hide *;
    Primes1();
    Roots3();
    forall q | IsNth(t, q) ensures q == p { NthUnique(t, p, q); }
  }

  lemma Batch4(t: nat, p: nat)
    requires 32 <= t < 40 && IsNth(t, p)
    ensures CubeRoot(WholeRoot(p), K(t), p)
  {
    hide *;
    Primes2();
    Roots4();
    forall q | IsNth(t, q) ensures q == p { NthUnique(t, p, q); }
  }

  lemma Batch5(t: nat, p: nat)
    requires 40 <= t < 48 && IsNth(t, p)
    ensures CubeRoot(WholeRoot(p), K(t), p)
  {
    hide *;
    Primes2();
    Roots5();
    forall q | IsNth(t, q) ensures q == p { NthUnique(t, p, q); }
  }

  lemma Batch6(t: nat, p: nat)
    requires 48 <= t < 56 && IsNth(t, p)
    ensures CubeRoot(WholeRoot(p), K(t), p)
  {
    hide *;
    Primes3();
    Roots6();
    forall q | IsNth(t, q) ensures q == p { NthUnique(t, p, q); }
  }

  lemma Batch7(t: nat, p: nat)
    requires 56 <= t < 64 && IsNth(t, p)
    ensures CubeRoot(WholeRoot(p), K(t), p)
  {
    hide *;
    Primes3();
    Roots7();
    forall q | IsNth(t, q) ensures q == p { NthUnique(t, p, q); }
  }

  lemma Batch8(t: nat, p: nat)
    requires 64 <= t < 72 && IsNth(t, p)
    ensures CubeRoot(WholeRoot(p), K(t), p)
  {
    hide *;
    Primes4();
    Roots8();
    forall q | IsNth(t, q) ensures q == p { NthUnique(t, p, q); }
  }

  lemma Batch9(t: nat, p: nat)
    requires 72 <= t < 80 && IsNth(t, p)
    ensures CubeRoot(WholeRoot(p), K(t), p)
  {
    hide *;
    Primes4();
    Roots9();
    forall q | IsNth(t, q) ensures q == p { NthUnique(t, p, q); }
  }

  /** Section 4.2.3 of FIPS 180-4: for the prime p that has t primes below it, the constant of round t. */
  lemma KIsCubeRoot(t: nat, p: nat) returns (c: nat)
    requires t < 80 && IsNth(t, p)
    ensures var r := c * 0x1_0000_0000_0000_0000 + K(t);
            && r * r * r <= p * 0x1_0000_0000_0000_0000_0000_0000_0000_0000_0000_0000_0000_0000
            && p * 0x1_0000_0000_0000_0000_0000_0000_0000_0000_0000_0000_0000_0000 < (r + 1) * (r + 1) * (r + 1)
  {
    hide IsNth, K, CubeRoot, WholeRoot;
    c := WholeRoot(p);
    if t < 8 {
      Batch0(t, p);
    } else if t < 16 {
      Batch1(t, p);
    } else if t < 24 {
      Batch2(t, p);
    } else if t < 32 {
      Batch3(t, p);
    } else if t < 40 {
      Batch4(t, p);
    } else if t < 48 {
      Batch5(t, p);
    } else if t < 56 {
      Batch6(t, p);
    } else if t < 64 {
      Batch7(t, p);
    } else if t < 72 {
      Batch8(t, p);
    } else {
      Batch9(t, p);
    }
    RootIs(c, K(t), p);
  }

  lemma RootIs(c: nat, k: nat, p: nat)
    requires CubeRoot(c, k, p)
    ensures var r := c * 0x1_0000_0000_0000_0000 + k;
            && r * r * r <= p * 0x1_0000_0000_0000_0000_0000_0000_0000_0000_0000_0000_0000_0000
            && p * 0x1_0000_0000_0000_0000_0000_0000_0000_0000_0000_0000_0000_0000 < (r + 1) * (r + 1) * (r + 1)
  {
  }

  lemma SquareRoots()
    ensures SquareRoot(1, IV[0], 2)
    ensures SquareRoot(1, IV[1], 3)
    ensures SquareRoot(2, IV[2], 5)
    ensures SquareRoot(2, IV[3], 7)
    ensures SquareRoot(3, IV[4], 11)
    ensures SquareRoot(3, IV[5], 13)
    ensures SquareRoot(4, IV[6], 17)
    ensures SquareRoot(4, IV[7], 19)
  {
  }

  /** Section 5.3.5 of FIPS 180-4. */
  lemma IVIsSquareRoot(t: nat, p: nat) returns (c: nat)
    requires t < 8 && IsNth(t, p)
    ensures var r := c * 0x1_0000_0000_0000_0000 + IV[t];
            r * r <= p * 0x1_0000_0000_0000_0000_0000_0000_0000_0000 < (r + 1) * (r + 1)
  {
    hide IsNth, SquareRoot;
    Primes0();
    SquareRoots();
    forall q | IsNth(t, q) ensures q == p { NthUnique(t, p, q); }
    c := if p < 4 then 1 else if p < 9 then 2 else if p < 16 then 3 else 4;
    SquareRootIs(c, IV[t], p);
  }

  lemma SquareRootIs(c: nat, k: nat, p: nat)
    requires SquareRoot(c, k, p)
    ensures var r := c * 0x1_0000_0000_0000_0000 + k;
            r * r <= p * 0x1_0000_0000_0000_0000_0000_0000_0000_0000 < (r + 1) * (r + 1)
  {
  }
}
