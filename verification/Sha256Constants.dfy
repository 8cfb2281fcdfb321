/**
 The constants of sections 4.2.2 and 5.3.3 of FIPS 180-4: the first 32 bits of the fractional
 parts of the cube roots of the first 64 prime numbers, and of the square roots of the first eight.
 */
module Sha256Constants {
  import opened Sha256
  import opened Words

  // ----- prime numbers -----

  predicate IsPrime(n: nat) {
    n >= 2 && forall d :: 2 <= d < n ==> n % d != 0
  }

  function PrimesBelow(n: nat): nat {
    if n == 0 then 0 else PrimesBelow(n - 1) + if IsPrime(n - 1) then 1 else 0
  }

  predicate HasSmallFactor(n: nat) {
    || (n % 2 == 0 && n > 2) || (n % 3 == 0 && n > 3) || (n % 5 == 0 && n > 5) || (n % 7 == 0 && n > 7)
    || (n % 11 == 0 && n > 11) || (n % 13 == 0 && n > 13) || (n % 17 == 0 && n > 17)
  }

  lemma TooLarge(d: nat, q: nat)
    requires d >= 18 && q >= 18
    ensures d * q >= 324
  {
    MulMonotone(18, d, q);
  }

  lemma SmallFactor(n: nat, d: nat, q: nat)
    requires n == d * q && 2 <= d < 18 && q >= 2
    ensures HasSmallFactor(n)
  {
    var f := if d % 2 == 0 then 2 else if d % 3 == 0 then 3 else d;
    var g := d / f;
    assert d == f * g;
    Associate(f, g, q);
    DivModUnique(n, f, g * q, 0);
    MulMonotone(2, q, d);
  }

  /** A number below 18 * 18 is prime unless it has a factor of at most 17. */
  lemma TrialDivision(n: nat)
    requires 2 <= n < 324
    ensures IsPrime(n) <==> !HasSmallFactor(n)
  {
    hide HasSmallFactor;
    if d :| 2 <= d < n && n % d == 0 {
      var q := n / d;
      assert n == d * q;
      if d < 18 {
        SmallFactor(n, d, q);
      } else {
        if q >= 18 { TooLarge(d, q); }
        SmallFactor(n, q, d);
      }
    }
    if HasSmallFactor(n) { FactorFound(n); }
  }

  lemma FactorFound(n: nat)
    requires n >= 2 && HasSmallFactor(n)
    ensures !IsPrime(n)
  {
  }

  /** The same count, by trial division. */
  function TrialCount(n: nat): nat {
    if n <= 2 then 0 else TrialCount(n - 1) + if HasSmallFactor(n - 1) then 0 else 1
  }

  lemma {:induction false} CountIsTrialCount(n: nat)
    requires n <= 324
    ensures PrimesBelow(n) == TrialCount(n)
  {
    hide HasSmallFactor, IsPrime;
    if n > 2 {
      CountIsTrialCount(n - 1);
      TrialDivision(n - 1);
    } else {
      NoneBelowTwo(n);
    }
  }

  lemma NoneBelowTwo(n: nat)
    requires n <= 2
    ensures PrimesBelow(n) == 0
  {
  }

  predicate NoneBetween(p: nat, q: nat)
    decreases q - p
  {
    p + 1 >= q || (HasSmallFactor(p + 1) && NoneBetween(p + 1, q))
  }

  /** From one prime number to the next. */
  lemma {:induction false} NextPrime(p: nat, q: nat)
    requires 2 <= p < q && !HasSmallFactor(p) && NoneBetween(p, q)
    ensures TrialCount(q) == TrialCount(p) + 1
  {
    hide HasSmallFactor, TrialCount;
    CountStep(p);
    CountStays(p + 1, q);
  }

  lemma CountStep(p: nat)
    requires p >= 2
    ensures TrialCount(p + 1) == TrialCount(p) + if HasSmallFactor(p) then 0 else 1
  {
  }

  lemma {:induction false} CountStays(p: nat, q: nat)
    requires 3 <= p <= q && NoneBetween(p - 1, q)
    ensures TrialCount(q) == TrialCount(p)
    decreases q - p
  {
    hide HasSmallFactor, TrialCount;
    if p < q {
      CountStep(p);
      CountStays(p + 1, q);
    }
  }

  // ----- roots -----

  function Square(c: nat): nat { c * c }

  function Cube(c: nat): nat { c * c * c }

  /** The low 32 bits of the root times 2^32 are the first 32 bits of its fractional part. */
  ghost predicate IsCubeRootWord(t: nat, w: Word) {
    exists p: nat, c: nat ::
      && IsPrime(p) && PrimesBelow(p) == t
      && Cube(c) <= p * 0x1_0000_0000_0000_0000_0000_0000 < Cube(c + 1)
      && w as nat == c % 0x1_0000_0000
  }

  ghost predicate IsSquareRootWord(t: nat, w: Word) {
    exists p: nat, c: nat ::
      && IsPrime(p) && PrimesBelow(p) == t
      && Square(c) <= p * 0x1_0000_0000_0000_0000 < Square(c + 1)
      && w as nat == c % 0x1_0000_0000
  }

  lemma CubeRoot(t: nat, p: nat, c: nat)
    requires t < 64 && 2 <= p < 324 && TrialCount(p) == t && !HasSmallFactor(p)
    requires Cube(c) <= p * 0x1_0000_0000_0000_0000_0000_0000 < Cube(c + 1) && K(t) as nat == c % 0x1_0000_0000
    ensures IsCubeRootWord(t, K(t))
  {
    hide K, Cube, TrialCount, HasSmallFactor, IsPrime, PrimesBelow;
    TrialDivision(p);
    CountIsTrialCount(p);
  }

  lemma SquareRoot(t: nat, p: nat, c: nat)
    requires t < 8 && 2 <= p < 324 && TrialCount(p) == t && !HasSmallFactor(p)
    requires Square(c) <= p * 0x1_0000_0000_0000_0000 < Square(c + 1) && Initial()[t] as nat == c % 0x1_0000_0000
    ensures IsSquareRootWord(t, Initial()[t])
  {
    hide Initial, Square, TrialCount, HasSmallFactor, IsPrime, PrimesBelow;
    TrialDivision(p);
    CountIsTrialCount(p);
  }

  lemma FirstPrime()
    ensures TrialCount(2) == 0
  {
  }

  lemma Constants0()
    ensures IsCubeRootWord(0, K(0)) && IsCubeRootWord(1, K(1))
    ensures IsCubeRootWord(2, K(2)) && IsCubeRootWord(3, K(3))
    ensures TrialCount(7) == 3
  {
    hide TrialCount, IsCubeRootWord;
    FirstPrime();
    CubeRoot(0, 2, 0x1428a2f98);
    NextPrime(2, 3);
    CubeRoot(1, 3, 0x171374491);
    NextPrime(3, 5);
    CubeRoot(2, 5, 0x1b5c0fbcf);
    NextPrime(5, 7);
    CubeRoot(3, 7, 0x1e9b5dba5);
  }

  lemma Constants4()
    ensures IsCubeRootWord(4, K(4)) && IsCubeRootWord(5, K(5))
    ensures IsCubeRootWord(6, K(6)) && IsCubeRootWord(7, K(7))
    ensures TrialCount(19) == 7
  {
    hide TrialCount, IsCubeRootWord;
    Constants0();
    NextPrime(7, 11);
    CubeRoot(4, 11, 0x23956c25b);
    NextPrime(11, 13);
    CubeRoot(5, 13, 0x259f111f1);
    NextPrime(13, 17);
    CubeRoot(6, 17, 0x2923f82a4);
    NextPrime(17, 19);
    CubeRoot(7, 19, 0x2ab1c5ed5);
  }

  lemma Constants8()
    ensures IsCubeRootWord(8, K(8)) && IsCubeRootWord(9, K(9))
    ensures IsCubeRootWord(10, K(10)) && IsCubeRootWord(11, K(11))
    ensures TrialCount(37) == 11
  {
    hide TrialCount, IsCubeRootWord;
    Constants4();
    NextPrime(19, 23);
    CubeRoot(8, 23, 0x2d807aa98);
    NextPrime(23, 29);
    CubeRoot(9, 29, 0x312835b01);
    NextPrime(29, 31);
    CubeRoot(10, 31, 0x3243185be);
    NextPrime(31, 37);
    CubeRoot(11, 37, 0x3550c7dc3);
  }

  lemma Constants12()
    ensures IsCubeRootWord(12, K(12)) && IsCubeRootWord(13, K(13))
    ensures IsCubeRootWord(14, K(14)) && IsCubeRootWord(15, K(15))
    ensures TrialCount(53) == 15
  {
    hide TrialCount, IsCubeRootWord;
    Constants8();
    NextPrime(37, 41);
    CubeRoot(12, 41, 0x372be5d74);
    NextPrime(41, 43);
    CubeRoot(13, 43, 0x380deb1fe);
    NextPrime(43, 47);
    CubeRoot(14, 47, 0x39bdc06a7);
    NextPrime(47, 53);
    CubeRoot(15, 53, 0x3c19bf174);
  }

  lemma Constants16()
    ensures IsCubeRootWord(16, K(16)) && IsCubeRootWord(17, K(17))
    ensures IsCubeRootWord(18, K(18)) && IsCubeRootWord(19, K(19))
    ensures TrialCount(71) == 19
  {
    hide TrialCount, IsCubeRootWord;
    Constants12();
    NextPrime(53, 59);
    CubeRoot(16, 59, 0x3e49b69c1);
    NextPrime(59, 61);
    CubeRoot(17, 61, 0x3efbe4786);
    NextPrime(61, 67);
    CubeRoot(18, 67, 0x40fc19dc6);
    NextPrime(67, 71);
    CubeRoot(19, 71, 0x4240ca1cc);
  }

  lemma Constants20()
    ensures IsCubeRootWord(20, K(20)) && IsCubeRootWord(21, K(21))
    ensures IsCubeRootWord(22, K(22)) && IsCubeRootWord(23, K(23))
    ensures TrialCount(89) == 23
  {
    hide TrialCount, IsCubeRootWord;
    Constants16();
    NextPrime(71, 73);
    CubeRoot(20, 73, 0x42de92c6f);
    NextPrime(73, 79);
    CubeRoot(21, 79, 0x44a7484aa);
    NextPrime(79, 83);
    CubeRoot(22, 83, 0x45cb0a9dc);
    NextPrime(83, 89);
    CubeRoot(23, 89, 0x476f988da);
  }

  lemma Constants24()
    ensures IsCubeRootWord(24, K(24)) && IsCubeRootWord(25, K(25))
    ensures IsCubeRootWord(26, K(26)) && IsCubeRootWord(27, K(27))
    ensures TrialCount(107) == 27
  {
    hide TrialCount, IsCubeRootWord;
    Constants20();
    NextPrime(89, 97);
    CubeRoot(24, 97, 0x4983e5152);
    NextPrime(97, 101);
    CubeRoot(25, 101, 0x4a831c66d);
    NextPrime(101, 103);
    CubeRoot(26, 103, 0x4b00327c8);
    NextPrime(103, 107);
    CubeRoot(27, 107, 0x4bf597fc7);
  }

  lemma Constants28()
    ensures IsCubeRootWord(28, K(28)) && IsCubeRootWord(29, K(29))
    ensures IsCubeRootWord(30, K(30)) && IsCubeRootWord(31, K(31))
    ensures TrialCount(131) == 31
  {
    hide TrialCount, IsCubeRootWord;
    Constants24();
    NextPrime(107, 109);
    CubeRoot(28, 109, 0x4c6e00bf3);
    NextPrime(109, 113);
    CubeRoot(29, 113, 0x4d5a79147);
    NextPrime(113, 127);
    CubeRoot(30, 127, 0x506ca6351);
    NextPrime(127, 131);
    CubeRoot(31, 131, 0x514292967);
  }

  lemma Constants32()
    ensures IsCubeRootWord(32, K(32)) && IsCubeRootWord(33, K(33))
    ensures IsCubeRootWord(34, K(34)) && IsCubeRootWord(35, K(35))
    ensures TrialCount(151) == 35
  {
    hide TrialCount, IsCubeRootWord;
    Constants28();
    NextPrime(131, 137);
    CubeRoot(32, 137, 0x527b70a85);
    NextPrime(137, 139);
    CubeRoot(33, 139, 0x52e1b2138);
    NextPrime(139, 149);
    CubeRoot(34, 149, 0x54d2c6dfc);
    NextPrime(149, 151);
    CubeRoot(35, 151, 0x553380d13);
  }

  lemma Constants36()
    ensures IsCubeRootWord(36, K(36)) && IsCubeRootWord(37, K(37))
    ensures IsCubeRootWord(38, K(38)) && IsCubeRootWord(39, K(39))
    ensures TrialCount(173) == 39
  {
    hide TrialCount, IsCubeRootWord;
    Constants32();
    NextPrime(151, 157);
    CubeRoot(36, 157, 0x5650a7354);
    NextPrime(157, 163);
    CubeRoot(37, 163, 0x5766a0abb);
    NextPrime(163, 167);
    CubeRoot(38, 167, 0x581c2c92e);
    NextPrime(167, 173);
    CubeRoot(39, 173, 0x592722c85);
  }

  lemma Constants40()
    ensures IsCubeRootWord(40, K(40)) && IsCubeRootWord(41, K(41))
    ensures IsCubeRootWord(42, K(42)) && IsCubeRootWord(43, K(43))
    ensures TrialCount(193) == 43
  {
    hide TrialCount, IsCubeRootWord;
    Constants36();
    NextPrime(173, 179);
    CubeRoot(40, 179, 0x5a2bfe8a1);
    NextPrime(179, 181);
    CubeRoot(41, 181, 0x5a81a664b);
    NextPrime(181, 191);
    CubeRoot(42, 191, 0x5c24b8b70);
    NextPrime(191, 193);
    CubeRoot(43, 193, 0x5c76c51a3);
  }

  lemma Constants44()
    ensures IsCubeRootWord(44, K(44)) && IsCubeRootWord(45, K(45))
    ensures IsCubeRootWord(46, K(46)) && IsCubeRootWord(47, K(47))
    ensures TrialCount(223) == 47
  {
    hide TrialCount, IsCubeRootWord;
    Constants40();
    NextPrime(193, 197);
    CubeRoot(44, 197, 0x5d192e819);
    NextPrime(197, 199);
    CubeRoot(45, 199, 0x5d6990624);
    NextPrime(199, 211);
    CubeRoot(46, 211, 0x5f40e3585);
    NextPrime(211, 223);
    CubeRoot(47, 223, 0x6106aa070);
  }

  lemma Constants48()
    ensures IsCubeRootWord(48, K(48)) && IsCubeRootWord(49, K(49))
    ensures IsCubeRootWord(50, K(50)) && IsCubeRootWord(51, K(51))
    ensures TrialCount(239) == 51
  {
    hide TrialCount, IsCubeRootWord;
    Constants44();
    NextPrime(223, 227);
    CubeRoot(48, 227, 0x619a4c116);
    NextPrime(227, 229);
    CubeRoot(49, 229, 0x61e376c08);
    NextPrime(229, 233);
    CubeRoot(50, 233, 0x62748774c);
    NextPrime(233, 239);
    CubeRoot(51, 239, 0x634b0bcb5);
  }

  lemma Constants52()
    ensures IsCubeRootWord(52, K(52)) && IsCubeRootWord(53, K(53))
    ensures IsCubeRootWord(54, K(54)) && IsCubeRootWord(55, K(55))
    ensures TrialCount(263) == 55
  {
    hide TrialCount, IsCubeRootWord;
    Constants48();
    NextPrime(239, 241);
    CubeRoot(52, 241, 0x6391c0cb3);
    NextPrime(241, 251);
    CubeRoot(53, 251, 0x64ed8aa4a);
    NextPrime(251, 257);
    CubeRoot(54, 257, 0x65b9cca4f);
    NextPrime(257, 263);
    CubeRoot(55, 263, 0x6682e6ff3);
  }

  lemma Constants56()
    ensures IsCubeRootWord(56, K(56)) && IsCubeRootWord(57, K(57))
    ensures IsCubeRootWord(58, K(58)) && IsCubeRootWord(59, K(59))
    ensures TrialCount(281) == 59
  {
    hide TrialCount, IsCubeRootWord;
    Constants52();
    NextPrime(263, 269);
    CubeRoot(56, 269, 0x6748f82ee);
    NextPrime(269, 271);
    CubeRoot(57, 271, 0x678a5636f);
    NextPrime(271, 277);
    CubeRoot(58, 277, 0x684c87814);
    NextPrime(277, 281);
    CubeRoot(59, 281, 0x68cc70208);
  }

  lemma Constants60()
    ensures IsCubeRootWord(60, K(60)) && IsCubeRootWord(61, K(61))
    ensures IsCubeRootWord(62, K(62)) && IsCubeRootWord(63, K(63))
    ensures TrialCount(311) == 63
  {
    hide TrialCount, IsCubeRootWord;
    Constants56();
    NextPrime(281, 283);
    CubeRoot(60, 283, 0x690befffa);
    NextPrime(283, 293);
    CubeRoot(61, 293, 0x6a4506ceb);
    NextPrime(293, 307);
    CubeRoot(62, 307, 0x6bef9a3f7);
    NextPrime(307, 311);
    CubeRoot(63, 311, 0x6c67178f2);
  }

  /** Section 4.2.2: constant t comes from the cube root of the prime number with t primes below it. */
  lemma ConstantsAreCubeRoots(t: nat)
    requires t < 64
    ensures IsCubeRootWord(t, K(t))
  {
    hide IsCubeRootWord, K, TrialCount;
    match t / 4
    case 0 => Constants0();
    case 1 => Constants4();
    case 2 => Constants8();
    case 3 => Constants12();
    case 4 => Constants16();
    case 5 => Constants20();
    case 6 => Constants24();
    case 7 => Constants28();
    case 8 => Constants32();
    case 9 => Constants36();
    case 10 => Constants40();
    case 11 => Constants44();
    case 12 => Constants48();
    case 13 => Constants52();
    case 14 => Constants56();
    case _ => Constants60();
  }

  /** Section 5.3.3: word t of the initial hash value comes from the square root of that prime number. */
  lemma InitialIsSquareRoots(t: nat)
    requires t < 8
    ensures IsSquareRootWord(t, Initial()[t])
  {
    hide TrialCount, IsSquareRootWord;
    FirstPrime();
    SquareRoot(0, 2, 0x16a09e667);
    NextPrime(2, 3);
    SquareRoot(1, 3, 0x1bb67ae85);
    NextPrime(3, 5);
    SquareRoot(2, 5, 0x23c6ef372);
    NextPrime(5, 7);
    SquareRoot(3, 7, 0x2a54ff53a);
    NextPrime(7, 11);
    SquareRoot(4, 11, 0x3510e527f);
    NextPrime(11, 13);
    SquareRoot(5, 13, 0x39b05688c);
    NextPrime(13, 17);
    SquareRoot(6, 17, 0x41f83d9ab);
    NextPrime(17, 19);
    SquareRoot(7, 19, 0x45be0cd19);
  }
}
