/** The constants of the hash are those that sections 4.2.2 and 5.3.3 of FIPS 180-4 describe:
    the first 32 bits behind the point of the cube roots of the first 64 primes, and of the
    square roots of the first eight. */
module Sha256Constants {
  import opened Arithmetic
  import opened Sha256Spec

  // ----- the first primes

  predicate IsPrime(n: nat) {
    n >= 2 && forall d :: 2 <= d < n ==> n % d != 0
  }

  /** The primes below `n`, in order. */
  function PrimesBelow(n: nat): seq<nat> {
    if n == 0 then [] else PrimesBelow(n - 1) + if IsPrime(n - 1) then [n - 1] else []
  }

  predicate Rough(n: nat) {
    && n % 2 != 0 && n % 3 != 0 && n % 5 != 0 && n % 7 != 0
    && n % 11 != 0 && n % 13 != 0 && n % 17 != 0
  }

  lemma SmallDivisor(n: nat, d: nat)
    requires 2 <= d <= 17 && n % d == 0
    ensures !Rough(n)
  {
    var q := n / d;
    assert n == d * q;
    if d % 2 == 0 {
      DivModIs(n, 2, d / 2 * q, 0);
    } else if d == 9 || d == 15 {
      DivModIs(n, 3, d / 3 * q, 0);
    }
  }

  /** Below 18 squared only the primes up to 17 need to be looked at. */
  lemma PrimeIffRough(n: nat)
    requires 17 < n < 324
    ensures IsPrime(n) <==> Rough(n)
  {
    if Rough(n) {
      forall d | 2 <= d < n
        ensures n % d != 0
      {
        if n % d == 0 {
          Cofactor(n, d);
          SmallDivisor(n, if d <= 17 then d else n / d);
        }
      }
    }
  }

  lemma Cofactor(n: nat, d: nat)
    requires 2 <= d < n < 324 && n % d == 0
    ensures n / d >= 2 && n % (n / d) == 0 && (d >= 18 ==> n / d <= 17)
  {
    var q := n / d;
    assert n == d * q;
    assert q >= 2 by { assert q <= 1 ==> d * q <= d; }
    assert d >= 18 && q >= 18 ==> d * q >= 18 * 18;
    DivModIs(n, q, d, 0);
  }

  lemma Composite(n: nat, a: nat, b: nat)
    requires 2 <= a && 2 <= b && n == a * b
    ensures !IsPrime(n)
  {
    DivModIs(n, a, b, 0);
    assert a < n by { assert a * b >= a * 2; }
  }

  lemma SmallPrimes(n: nat)
    requires n <= 17
    ensures IsPrime(n) <==> n in {2, 3, 5, 7, 11, 13, 17}
  {
    assert 4 % 2 == 0 && 6 % 2 == 0 && 8 % 2 == 0 && 9 % 3 == 0 && 10 % 2 == 0;
    assert 12 % 2 == 0 && 14 % 2 == 0 && 15 % 3 == 0 && 16 % 2 == 0;
  }

  /** No prime lies between two that follow each other. */
  lemma {:induction false} NextPrime(a: nat, b: nat, n: nat)
    requires a < n <= b && forall k :: a < k < b ==> !IsPrime(k)
    ensures PrimesBelow(n) == PrimesBelow(a + 1)
    ensures IsPrime(b) ==> PrimesBelow(b + 1) == PrimesBelow(b) + [b]
  {
    hide IsPrime;
    if a + 1 < n {
      NextPrime(a, b, n - 1);
    }
  }

  const PRIMES_0: seq<nat> := [2, 3, 5, 7, 11, 13, 17, 19]

  lemma Low0(n: nat)
    requires 1 < n <= 7
    ensures IsPrime(n) <==> n in {2, 3, 5, 7}
  {
    SmallPrimes(n);
  }

  lemma High0(n: nat)
    requires 7 < n <= 19
    ensures IsPrime(n) <==> n in {11, 13, 17, 19}
  {
    if n <= 17 {
      SmallPrimes(n);
    } else {
      PrimeIffRough(n);
    }
  }

  lemma Batch0()
    ensures PrimesBelow(20) == PrimesBelow(2) + PRIMES_0
  {
    hide IsPrime, PrimesBelow;
    forall n | 1 < n <= 19
      ensures IsPrime(n) <==> n in {2, 3, 5, 7, 11, 13, 17, 19}
    {
      if n <= 7 {
        Low0(n);
      } else {
        High0(n);
      }
    }
    NextPrime(1, 2, 2);
    NextPrime(2, 3, 3);
    NextPrime(3, 5, 5);
    NextPrime(5, 7, 7);
    NextPrime(7, 11, 11);
    NextPrime(11, 13, 13);
    NextPrime(13, 17, 17);
    NextPrime(17, 19, 19);
  }

  const PRIMES_1: seq<nat> := [23, 29, 31, 37, 41, 43, 47, 53]

  lemma Low1(n: nat)
    requires 19 < n <= 37
    ensures IsPrime(n) <==> n in {23, 29, 31, 37}
  {
    if n % 2 == 0 {
      Composite(n, 2, n / 2);
    }
    Composite(21, 3, 7);
    Composite(25, 5, 5);
    Composite(27, 3, 9);
    Composite(33, 3, 11);
    Composite(35, 5, 7);
    PrimeIffRough(23);
    PrimeIffRough(29);
    PrimeIffRough(31);
    PrimeIffRough(37);
    hide Rough, IsPrime;
  }

  lemma High1(n: nat)
    requires 37 < n <= 53
    ensures IsPrime(n) <==> n in {41, 43, 47, 53}
  {
    if n % 2 == 0 {
      Composite(n, 2, n / 2);
    }
    Composite(39, 3, 13);
    Composite(45, 3, 15);
    Composite(49, 7, 7);
    Composite(51, 3, 17);
    PrimeIffRough(41);
    PrimeIffRough(43);
    PrimeIffRough(47);
    PrimeIffRough(53);
    hide Rough, IsPrime;
  }

  lemma Batch1()
    ensures PrimesBelow(54) == PrimesBelow(20) + PRIMES_1
  {
    hide IsPrime, PrimesBelow;
    forall n | 19 < n <= 53
      ensures IsPrime(n) <==> n in {23, 29, 31, 37, 41, 43, 47, 53}
    {
      if n <= 37 {
        Low1(n);
      } else {
        High1(n);
      }
    }
    NextPrime(19, 23, 23);
    NextPrime(23, 29, 29);
    NextPrime(29, 31, 31);
    NextPrime(31, 37, 37);
    NextPrime(37, 41, 41);
    NextPrime(41, 43, 43);
    NextPrime(43, 47, 47);
    NextPrime(47, 53, 53);
  }

  const PRIMES_2: seq<nat> := [59, 61, 67, 71, 73, 79, 83, 89]

  lemma Low2(n: nat)
    requires 53 < n <= 71
    ensures IsPrime(n) <==> n in {59, 61, 67, 71}
  {
    if n % 2 == 0 {
      Composite(n, 2, n / 2);
    }
    Composite(55, 5, 11);
    Composite(57, 3, 19);
    Composite(63, 3, 21);
    Composite(65, 5, 13);
    Composite(69, 3, 23);
    PrimeIffRough(59);
    PrimeIffRough(61);
    PrimeIffRough(67);
    PrimeIffRough(71);
    hide Rough, IsPrime;
  }

  lemma High2(n: nat)
    requires 71 < n <= 89
    ensures IsPrime(n) <==> n in {73, 79, 83, 89}
  {
    if n % 2 == 0 {
      Composite(n, 2, n / 2);
    }
    Composite(75, 3, 25);
    Composite(77, 7, 11);
    Composite(81, 3, 27);
    Composite(85, 5, 17);
    Composite(87, 3, 29);
    PrimeIffRough(73);
    PrimeIffRough(79);
    PrimeIffRough(83);
    PrimeIffRough(89);
    hide Rough, IsPrime;
  }

  lemma Batch2()
    ensures PrimesBelow(90) == PrimesBelow(54) + PRIMES_2
  {
    hide IsPrime, PrimesBelow;
    forall n | 53 < n <= 89
      ensures IsPrime(n) <==> n in {59, 61, 67, 71, 73, 79, 83, 89}
    {
      if n <= 71 {
        Low2(n);
      } else {
        High2(n);
      }
    }
    NextPrime(53, 59, 59);
    NextPrime(59, 61, 61);
    NextPrime(61, 67, 67);
    NextPrime(67, 71, 71);
    NextPrime(71, 73, 73);
    NextPrime(73, 79, 79);
    NextPrime(79, 83, 83);
    NextPrime(83, 89, 89);
  }

  const PRIMES_3: seq<nat> := [97, 101, 103, 107, 109, 113, 127, 131]

  lemma Low3(n: nat)
    requires 89 < n <= 107
    ensures IsPrime(n) <==> n in {97, 101, 103, 107}
  {
    if n % 2 == 0 {
      Composite(n, 2, n / 2);
    }
    Composite(91, 7, 13);
    Composite(93, 3, 31);
    Composite(95, 5, 19);
    Composite(99, 3, 33);
    Composite(105, 3, 35);
    PrimeIffRough(97);
    PrimeIffRough(101);
    PrimeIffRough(103);
    PrimeIffRough(107);
    hide Rough, IsPrime;
  }

  lemma High3(n: nat)
    requires 107 < n <= 131
    ensures IsPrime(n) <==> n in {109, 113, 127, 131}
  {
    if n % 2 == 0 {
      Composite(n, 2, n / 2);
    }
    Composite(111, 3, 37);
    Composite(115, 5, 23);
    Composite(117, 3, 39);
    Composite(119, 7, 17);
    Composite(121, 11, 11);
    Composite(123, 3, 41);
    Composite(125, 5, 25);
    Composite(129, 3, 43);
    PrimeIffRough(109);
    PrimeIffRough(113);
    PrimeIffRough(127);
    PrimeIffRough(131);
    hide Rough, IsPrime;
  }

  lemma Batch3()
    ensures PrimesBelow(132) == PrimesBelow(90) + PRIMES_3
  {
    hide IsPrime, PrimesBelow;
    forall n | 89 < n <= 131
      ensures IsPrime(n) <==> n in {97, 101, 103, 107, 109, 113, 127, 131}
    {
      if n <= 107 {
        Low3(n);
      } else {
        High3(n);
      }
    }
    NextPrime(89, 97, 97);
    NextPrime(97, 101, 101);
    NextPrime(101, 103, 103);
    NextPrime(103, 107, 107);
    NextPrime(107, 109, 109);
    NextPrime(109, 113, 113);
    NextPrime(113, 127, 127);
    NextPrime(127, 131, 131);
  }

  const PRIMES_4: seq<nat> := [137, 139, 149, 151, 157, 163, 167, 173]

  lemma Low4(n: nat)
    requires 131 < n <= 151
    ensures IsPrime(n) <==> n in {137, 139, 149, 151}
  {
    if n % 2 == 0 {
      Composite(n, 2, n / 2);
    }
    Composite(133, 7, 19);
    Composite(135, 3, 45);
    Composite(141, 3, 47);
    Composite(143, 11, 13);
    Composite(145, 5, 29);
    Composite(147, 3, 49);
    PrimeIffRough(137);
    PrimeIffRough(139);
    PrimeIffRough(149);
    PrimeIffRough(151);
    hide Rough, IsPrime;
  }

  lemma High4(n: nat)
    requires 151 < n <= 173
    ensures IsPrime(n) <==> n in {157, 163, 167, 173}
  {
    if n % 2 == 0 {
      Composite(n, 2, n / 2);
    }
    Composite(153, 3, 51);
    Composite(155, 5, 31);
    Composite(159, 3, 53);
    Composite(161, 7, 23);
    Composite(165, 3, 55);
    Composite(169, 13, 13);
    Composite(171, 3, 57);
    PrimeIffRough(157);
    PrimeIffRough(163);
    PrimeIffRough(167);
    PrimeIffRough(173);
    hide Rough, IsPrime;
  }

  lemma Batch4()
    ensures PrimesBelow(174) == PrimesBelow(132) + PRIMES_4
  {
    hide IsPrime, PrimesBelow;
    forall n | 131 < n <= 173
      ensures IsPrime(n) <==> n in {137, 139, 149, 151, 157, 163, 167, 173}
    {
      if n <= 151 {
        Low4(n);
      } else {
        High4(n);
      }
    }
    NextPrime(131, 137, 137);
    NextPrime(137, 139, 139);
    NextPrime(139, 149, 149);
    NextPrime(149, 151, 151);
    NextPrime(151, 157, 157);
    NextPrime(157, 163, 163);
    NextPrime(163, 167, 167);
    NextPrime(167, 173, 173);
  }

  const PRIMES_5: seq<nat> := [179, 181, 191, 193, 197, 199, 211, 223]

  lemma Low5(n: nat)
    requires 173 < n <= 193
    ensures IsPrime(n) <==> n in {179, 181, 191, 193}
  {
    if n % 2 == 0 {
      Composite(n, 2, n / 2);
    }
    Composite(175, 5, 35);
    Composite(177, 3, 59);
    Composite(183, 3, 61);
    Composite(185, 5, 37);
    Composite(187, 11, 17);
    Composite(189, 3, 63);
    PrimeIffRough(179);
    PrimeIffRough(181);
    PrimeIffRough(191);
    PrimeIffRough(193);
    hide Rough, IsPrime;
  }

  lemma High5(n: nat)
    requires 193 < n <= 223
    ensures IsPrime(n) <==> n in {197, 199, 211, 223}
  {
    if n % 2 == 0 {
      Composite(n, 2, n / 2);
    }
    Composite(195, 3, 65);
    Composite(201, 3, 67);
    Composite(203, 7, 29);
    Composite(205, 5, 41);
    Composite(207, 3, 69);
    Composite(209, 11, 19);
    Composite(213, 3, 71);
    Composite(215, 5, 43);
    Composite(217, 7, 31);
    Composite(219, 3, 73);
    Composite(221, 13, 17);
    PrimeIffRough(197);
    PrimeIffRough(199);
    PrimeIffRough(211);
    PrimeIffRough(223);
    hide Rough, IsPrime;
  }

  lemma Batch5()
    ensures PrimesBelow(224) == PrimesBelow(174) + PRIMES_5
  {
    hide IsPrime, PrimesBelow;
    forall n | 173 < n <= 223
      ensures IsPrime(n) <==> n in {179, 181, 191, 193, 197, 199, 211, 223}
    {
      if n <= 193 {
        Low5(n);
      } else {
        High5(n);
      }
    }
    NextPrime(173, 179, 179);
    NextPrime(179, 181, 181);
    NextPrime(181, 191, 191);
    NextPrime(191, 193, 193);
    NextPrime(193, 197, 197);
    NextPrime(197, 199, 199);
    NextPrime(199, 211, 211);
    NextPrime(211, 223, 223);
  }

  const PRIMES_6: seq<nat> := [227, 229, 233, 239, 241, 251, 257, 263]

  lemma Low6(n: nat)
    requires 223 < n <= 239
    ensures IsPrime(n) <==> n in {227, 229, 233, 239}
  {
    if n % 2 == 0 {
      Composite(n, 2, n / 2);
    }
    Composite(225, 3, 75);
    Composite(231, 3, 77);
    Composite(235, 5, 47);
    Composite(237, 3, 79);
    PrimeIffRough(227);
    PrimeIffRough(229);
    PrimeIffRough(233);
    PrimeIffRough(239);
    hide Rough, IsPrime;
  }

  lemma High6(n: nat)
    requires 239 < n <= 263
    ensures IsPrime(n) <==> n in {241, 251, 257, 263}
  {
    if n % 2 == 0 {
      Composite(n, 2, n / 2);
    }
    Composite(243, 3, 81);
    Composite(245, 5, 49);
    Composite(247, 13, 19);
    Composite(249, 3, 83);
    Composite(253, 11, 23);
    Composite(255, 3, 85);
    Composite(259, 7, 37);
    Composite(261, 3, 87);
    PrimeIffRough(241);
    PrimeIffRough(251);
    PrimeIffRough(257);
    PrimeIffRough(263);
    hide Rough, IsPrime;
  }

  lemma Batch6()
    ensures PrimesBelow(264) == PrimesBelow(224) + PRIMES_6
  {
    hide IsPrime, PrimesBelow;
    forall n | 223 < n <= 263
      ensures IsPrime(n) <==> n in {227, 229, 233, 239, 241, 251, 257, 263}
    {
      if n <= 239 {
        Low6(n);
      } else {
        High6(n);
      }
    }
    NextPrime(223, 227, 227);
    NextPrime(227, 229, 229);
    NextPrime(229, 233, 233);
    NextPrime(233, 239, 239);
    NextPrime(239, 241, 241);
    NextPrime(241, 251, 251);
    NextPrime(251, 257, 257);
    NextPrime(257, 263, 263);
  }

  const PRIMES_7: seq<nat> := [269, 271, 277, 281, 283, 293, 307, 311]

  lemma Low7(n: nat)
    requires 263 < n <= 281
    ensures IsPrime(n) <==> n in {269, 271, 277, 281}
  {
    if n % 2 == 0 {
      Composite(n, 2, n / 2);
    }
    Composite(265, 5, 53);
    Composite(267, 3, 89);
    Composite(273, 3, 91);
    Composite(275, 5, 55);
    Composite(279, 3, 93);
    PrimeIffRough(269);
    PrimeIffRough(271);
    PrimeIffRough(277);
    PrimeIffRough(281);
    hide Rough, IsPrime;
  }

  lemma High7(n: nat)
    requires 281 < n <= 311
    ensures IsPrime(n) <==> n in {283, 293, 307, 311}
  {
    if n % 2 == 0 {
      Composite(n, 2, n / 2);
    }
    Composite(285, 3, 95);
    Composite(287, 7, 41);
    Composite(289, 17, 17);
    Composite(291, 3, 97);
    Composite(295, 5, 59);
    Composite(297, 3, 99);
    Composite(299, 13, 23);
    Composite(301, 7, 43);
    Composite(303, 3, 101);
    Composite(305, 5, 61);
    Composite(309, 3, 103);
    PrimeIffRough(283);
    PrimeIffRough(293);
    PrimeIffRough(307);
    PrimeIffRough(311);
    hide Rough, IsPrime;
  }

  lemma Batch7()
    ensures PrimesBelow(312) == PrimesBelow(264) + PRIMES_7
  {
    hide IsPrime, PrimesBelow;
    forall n | 263 < n <= 311
      ensures IsPrime(n) <==> n in {269, 271, 277, 281, 283, 293, 307, 311}
    {
      if n <= 281 {
        Low7(n);
      } else {
        High7(n);
      }
    }
    NextPrime(263, 269, 269);
    NextPrime(269, 271, 271);
    NextPrime(271, 277, 277);
    NextPrime(277, 281, 281);
    NextPrime(281, 283, 283);
    NextPrime(283, 293, 293);
    NextPrime(293, 307, 307);
    NextPrime(307, 311, 311);
  }

  const PRIMES: seq<nat> :=
    PRIMES_0 + PRIMES_1 + PRIMES_2 + PRIMES_3 + PRIMES_4 + PRIMES_5 + PRIMES_6 + PRIMES_7

  /** These are the first 64 primes. */
  lemma FirstPrimes()
    ensures PrimesBelow(312) == PRIMES && |PRIMES| == 64 && PrimesBelow(20) == PRIMES_0
  {
    hide PrimesBelow;
    NoneBelowTwo();
    Batch0();
    Batch1();
    Batch2();
    Batch3();
    Batch4();
    Batch5();
    Batch6();
    Batch7();
  }

  lemma NoneBelowTwo()
    ensures PrimesBelow(2) == []
  {
    assert PrimesBelow(0) == [];
    assert PrimesBelow(1) == [];
  }

  // ----- roots

  /** `n` and the 32 bits `v` behind the point are the cube root of `p`, cut off. */
  predicate CubeWithin(n: nat, p: nat, v: nat) {
    v < 0x1_0000_0000 && IsCubeRoot(n * 0x1_0000_0000 + v, p * 0x1_0000_0000_0000_0000_0000_0000)
  }

  /** `x` is the cube root of `a`, rounded down. */
  predicate IsCubeRoot(x: nat, a: nat) {
    x * x * x <= a < (x + 1) * (x + 1) * (x + 1)
  }

  ghost predicate IsCubeFraction(p: nat, v: nat) {
    exists n: nat :: CubeWithin(n, p, v)
  }

  predicate SquareWithin(n: nat, p: nat, v: nat) {
    v < 0x1_0000_0000 && IsSquareRoot(n * 0x1_0000_0000 + v, p * 0x1_0000_0000_0000_0000)
  }

  /** `x` is the square root of `a`, rounded down. */
  predicate IsSquareRoot(x: nat, a: nat) {
    x * x <= a < (x + 1) * (x + 1)
  }

  ghost predicate IsSquareFraction(p: nat, v: nat) {
    exists n: nat :: SquareWithin(n, p, v)
  }

  lemma CubeRoots0()
    ensures forall i :: 0 <= i < 8 ==> IsCubeFraction(PRIMES_0[i], K_0[i] as nat)
  {
    assert CubeWithin(1, 2, 0x428a2f98);
    assert CubeWithin(1, 3, 0x71374491);
    assert CubeWithin(1, 5, 0xb5c0fbcf);
    assert CubeWithin(1, 7, 0xe9b5dba5);
    assert CubeWithin(2, 11, 0x3956c25b);
    assert CubeWithin(2, 13, 0x59f111f1);
    assert CubeWithin(2, 17, 0x923f82a4);
    assert CubeWithin(2, 19, 0xab1c5ed5);
    hide CubeWithin;
  }

  lemma CubeRoots1()
    ensures forall i :: 0 <= i < 8 ==> IsCubeFraction(PRIMES_1[i], K_1[i] as nat)
  {
    assert CubeWithin(2, 23, 0xd807aa98);
    assert CubeWithin(3, 29, 0x12835b01);
    assert CubeWithin(3, 31, 0x243185be);
    assert CubeWithin(3, 37, 0x550c7dc3);
    assert CubeWithin(3, 41, 0x72be5d74);
    assert CubeWithin(3, 43, 0x80deb1fe);
    assert CubeWithin(3, 47, 0x9bdc06a7);
    assert CubeWithin(3, 53, 0xc19bf174);
    hide CubeWithin;
  }

  lemma CubeRoots2()
    ensures forall i :: 0 <= i < 8 ==> IsCubeFraction(PRIMES_2[i], K_2[i] as nat)
  {
    assert CubeWithin(3, 59, 0xe49b69c1);
    assert CubeWithin(3, 61, 0xefbe4786);
    assert CubeWithin(4, 67, 0x0fc19dc6);
    assert CubeWithin(4, 71, 0x240ca1cc);
    assert CubeWithin(4, 73, 0x2de92c6f);
    assert CubeWithin(4, 79, 0x4a7484aa);
    assert CubeWithin(4, 83, 0x5cb0a9dc);
    assert CubeWithin(4, 89, 0x76f988da);
    hide CubeWithin;
  }

  lemma CubeRoots3()
    ensures forall i :: 0 <= i < 8 ==> IsCubeFraction(PRIMES_3[i], K_3[i] as nat)
  {
    assert CubeWithin(4, 97, 0x983e5152);
    assert CubeWithin(4, 101, 0xa831c66d);
    assert CubeWithin(4, 103, 0xb00327c8);
    assert CubeWithin(4, 107, 0xbf597fc7);
    assert CubeWithin(4, 109, 0xc6e00bf3);
    assert CubeWithin(4, 113, 0xd5a79147);
    assert CubeWithin(5, 127, 0x06ca6351);
    assert CubeWithin(5, 131, 0x14292967);
    hide CubeWithin;
  }

  lemma CubeRoots4()
    ensures forall i :: 0 <= i < 8 ==> IsCubeFraction(PRIMES_4[i], K_4[i] as nat)
  {
    assert CubeWithin(5, 137, 0x27b70a85);
    assert CubeWithin(5, 139, 0x2e1b2138);
    assert CubeWithin(5, 149, 0x4d2c6dfc);
    assert CubeWithin(5, 151, 0x53380d13);
    assert CubeWithin(5, 157, 0x650a7354);
    assert CubeWithin(5, 163, 0x766a0abb);
    assert CubeWithin(5, 167, 0x81c2c92e);
    assert CubeWithin(5, 173, 0x92722c85);
    hide CubeWithin;
  }

  lemma CubeRoots5()
    ensures forall i :: 0 <= i < 8 ==> IsCubeFraction(PRIMES_5[i], K_5[i] as nat)
  {
    assert CubeWithin(5, 179, 0xa2bfe8a1);
    assert CubeWithin(5, 181, 0xa81a664b);
    assert CubeWithin(5, 191, 0xc24b8b70);
    assert CubeWithin(5, 193, 0xc76c51a3);
    assert CubeWithin(5, 197, 0xd192e819);
    assert CubeWithin(5, 199, 0xd6990624);
    assert CubeWithin(5, 211, 0xf40e3585);
    assert CubeWithin(6, 223, 0x106aa070);
    hide CubeWithin;
  }

  lemma CubeRoots6()
    ensures forall i :: 0 <= i < 8 ==> IsCubeFraction(PRIMES_6[i], K_6[i] as nat)
  {
    assert CubeWithin(6, 227, 0x19a4c116);
    assert CubeWithin(6, 229, 0x1e376c08);
    assert CubeWithin(6, 233, 0x2748774c);
    assert CubeWithin(6, 239, 0x34b0bcb5);
    assert CubeWithin(6, 241, 0x391c0cb3);
    assert CubeWithin(6, 251, 0x4ed8aa4a);
    assert CubeWithin(6, 257, 0x5b9cca4f);
    assert CubeWithin(6, 263, 0x682e6ff3);
    hide CubeWithin;
  }

  lemma CubeRoots7()
    ensures forall i :: 0 <= i < 8 ==> IsCubeFraction(PRIMES_7[i], K_7[i] as nat)
  {
    assert CubeWithin(6, 269, 0x748f82ee);
    assert CubeWithin(6, 271, 0x78a5636f);
    assert CubeWithin(6, 277, 0x84c87814);
    assert CubeWithin(6, 281, 0x8cc70208);
    assert CubeWithin(6, 283, 0x90befffa);
    assert CubeWithin(6, 293, 0xa4506ceb);
    assert CubeWithin(6, 307, 0xbef9a3f7);
    assert CubeWithin(6, 311, 0xc67178f2);
    hide CubeWithin;
  }

  lemma SquareRoots()
    ensures forall i :: 0 <= i < 8 ==> IsSquareFraction(PRIMES_0[i], IV[i] as nat)
  {
    assert SquareWithin(1, 2, 0x6A09E667);
    assert SquareWithin(1, 3, 0xBB67AE85);
    assert SquareWithin(2, 5, 0x3C6EF372);
    assert SquareWithin(2, 7, 0xA54FF53A);
    assert SquareWithin(3, 11, 0x510E527F);
    assert SquareWithin(3, 13, 0x9B05688C);
    assert SquareWithin(4, 17, 0x1F83D9AB);
    assert SquareWithin(4, 19, 0x5BE0CD19);
    hide SquareWithin;
  }

  // products under a name, so that only the order matters

  function Times(a: nat, b: nat): nat {
    a * b
  }

  lemma TimesMonotone(a: nat, b: nat, c: nat, d: nat)
    requires a <= b && c <= d
    ensures Times(a, c) <= Times(b, d)
  {
    assert a * c <= b * c <= b * d;
  }

  lemma PowersGrow(x: nat, y: nat)
    requires x < y
    ensures (x + 1) * (x + 1) <= y * y
    ensures (x + 1) * (x + 1) * (x + 1) <= y * y * y
  {
    var a := x + 1;
    TimesMonotone(a, y, a, y);
    TimesMonotone(Times(a, a), Times(y, y), a, y);
  }

  lemma DigitsBehind(n: nat, v: nat, m: nat, w: nat)
    requires v < 0x1_0000_0000 && w < 0x1_0000_0000
    requires n * 0x1_0000_0000 + v == m * 0x1_0000_0000 + w
    ensures v == w
  {
  }

  /** There is one root. */
  lemma OneRoot(x: nat, y: nat, a: nat)
    ensures IsCubeRoot(x, a) && IsCubeRoot(y, a) ==> x == y
    ensures IsSquareRoot(x, a) && IsSquareRoot(y, a) ==> x == y
  {
    if x < y {
      PowersGrow(x, y);
    } else if y < x {
      PowersGrow(y, x);
    }
  }

  /** The bits are unique: no other 32 bits follow the point of the root. */
  lemma FractionsUnique(p: nat, v: nat, w: nat)
    ensures IsCubeFraction(p, v) && IsCubeFraction(p, w) ==> v == w
    ensures IsSquareFraction(p, v) && IsSquareFraction(p, w) ==> v == w
  {
    hide IsCubeRoot, IsSquareRoot;
    if IsCubeFraction(p, v) && IsCubeFraction(p, w) {
      var n: nat :| CubeWithin(n, p, v);
      var m: nat :| CubeWithin(m, p, w);
      OneRoot(n * 0x1_0000_0000 + v, m * 0x1_0000_0000 + w, p * 0x1_0000_0000_0000_0000_0000_0000);
      DigitsBehind(n, v, m, w);
    }
    if IsSquareFraction(p, v) && IsSquareFraction(p, w) {
      var n: nat :| SquareWithin(n, p, v);
      var m: nat :| SquareWithin(m, p, w);
      OneRoot(n * 0x1_0000_0000 + v, m * 0x1_0000_0000 + w, p * 0x1_0000_0000_0000_0000);
      DigitsBehind(n, v, m, w);
    }
  }

  /** Entry `i` of both tables stands in the batch `i / 8`. */
  lemma LowerConstant(i: nat)
    requires i < 32
    ensures IsCubeFraction(PRIMES[i], K[i] as nat)
  {
    hide IsCubeFraction;
    if i < 8 {
      CubeRoots0();
    } else if i < 16 {
      CubeRoots1();
    } else if i < 24 {
      CubeRoots2();
    } else {
      CubeRoots3();
    }
  }

  lemma UpperConstant(i: nat)
    requires 32 <= i < 64
    ensures IsCubeFraction(PRIMES[i], K[i] as nat)
  {
    hide IsCubeFraction;
    if i < 40 {
      CubeRoots4();
    } else if i < 48 {
      CubeRoots5();
    } else if i < 56 {
      CubeRoots6();
    } else {
      CubeRoots7();
    }
  }

  /** The round constants, in order, come from the cube roots of the first 64 primes. */
  lemma RoundConstants()
    ensures |K| == 64 && |PrimesBelow(312)| == 64
    ensures forall i :: 0 <= i < 64 ==> IsCubeFraction(PrimesBelow(312)[i], K[i] as nat)
  {
    FirstPrimes();
    hide IsCubeFraction, PrimesBelow, PRIMES;
    forall i | 0 <= i < 64
      ensures IsCubeFraction(PRIMES[i], K[i] as nat)
    {
      if i < 32 {
        LowerConstant(i);
      } else {
        UpperConstant(i);
      }
    }
  }

  /** The initial hash value, in order, comes from the square roots of the first eight. */
  lemma InitialValue()
    ensures |IV| == 8 && |PrimesBelow(20)| == 8
    ensures forall i :: 0 <= i < 8 ==> IsSquareFraction(PrimesBelow(20)[i], IV[i] as nat)
  {
    hide IsSquareFraction, PrimesBelow;
    FirstPrimes();
    SquareRoots();
  }
}
