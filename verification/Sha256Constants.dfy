/** Where the constants of the Secure Hash Standard come from: sections 4.2.2 and 5.3.3 of FIPS 180-4. */
module Sha256Constants {
  import opened Common
  import opened Sha256Spec

  ghost predicate Prime(p: nat) {
    p >= 2 && forall d | 2 <= d < p :: p % d != 0
  }

  /** q is the next prime after p. */
  ghost predicate NextPrime(p: nat, q: nat) {
    p < q && Prime(q) && forall m | p < m < q :: !Prime(m)
  }

  /** The first 32 bits of the fractional part of the cube root of p: n is the root of p * 2^96, rounded down. */
  ghost predicate CubeRootBits(p: nat, n: nat, w: Word) {
    n * n * n <= p * 0x1_0000_0000_0000_0000_0000_0000 < (n + 1) * (n + 1) * (n + 1) && w as nat == n % 0x1_0000_0000
  }

  /** The same of the square root. */
  ghost predicate SquareRootBits(p: nat, n: nat, w: Word) {
    n * n <= p * 0x1_0000_0000_0000_0000 < (n + 1) * (n + 1) && w as nat == n % 0x1_0000_0000
  }

  // ---- The first 64 primes ----

  function PrimeRow(r: nat): (row: seq<nat>)
    requires r < 8
    ensures |row| == 8
  {
    match r
    case 0 => [2, 3, 5, 7, 11, 13, 17, 19]
    case 1 => [23, 29, 31, 37, 41, 43, 47, 53]
    case 2 => [59, 61, 67, 71, 73, 79, 83, 89]
    case 3 => [97, 101, 103, 107, 109, 113, 127, 131]
    case 4 => [137, 139, 149, 151, 157, 163, 167, 173]
    case 5 => [179, 181, 191, 193, 197, 199, 211, 223]
    case 6 => [227, 229, 233, 239, 241, 251, 257, 263]
    case _ => [269, 271, 277, 281, 283, 293, 307, 311]
  }

  /** The t-th prime, counted from 0. */
  function PrimeAt(t: nat): nat
    requires t < 64
  {
    PrimeRow(t / 8)[t % 8]
  }

  /** The one before it, or 1. */
  function PrimeBefore(t: nat): nat
    requires t < 64
  {
    if t == 0 then 1 else PrimeAt(t - 1)
  }

  // ---- Primes below 361, by crossing out multiples ----

  predicate Sieved(p: nat) {
    && p >= 2
    && (p % 2 != 0 || p == 2) && (p % 3 != 0 || p == 3) && (p % 5 != 0 || p == 5) && (p % 7 != 0 || p == 7)
    && (p % 11 != 0 || p == 11) && (p % 13 != 0 || p == 13) && (p % 17 != 0 || p == 17)
  }

  lemma SieveIff(p: nat)
    requires p < 361
    ensures Prime(p) <==> Sieved(p)
  {
    if p >= 2 && !Prime(p) {
      var d :| 2 <= d < p && p % d == 0;
      Cofactor(p, d);
      if d < 19 {
        SmallFactor(p, d, p / d);
      } else {
        SmallFactor(p, p / d, d);
      }
    }
  }

  lemma Cofactor(p: nat, d: nat)
    requires 2 <= d < p && p % d == 0
    ensures p == d * (p / d) && 2 <= p / d && (p < 361 && d >= 19 ==> p / d < 19)
  {
    var e := p / d;
    assert p == d * e;
    if e >= 19 && d >= 19 {
      assert (d - 19) * e >= 0;
    }
  }

  lemma SmallFactor(p: nat, d: nat, e: nat)
    requires p == d * e && 2 <= d < 19 && 2 <= e
    ensures !Sieved(p)
  {
    hide Sieved;
    if
    case d % 2 == 0 => CrossedOut(p, 2, d / 2 * e);
    case d % 3 == 0 => CrossedOut(p, 3, d / 3 * e);
    case d % 5 == 0 => CrossedOut(p, 5, d / 5 * e);
    case d in {7, 11, 13, 17} => CrossedOut(p, d, e);
  }

  lemma CrossedOut(p: nat, q: nat, k: nat)
    requires q in {2, 3, 5, 7, 11, 13, 17} && p == q * k && k >= 2
    ensures !Sieved(p)
  {
    MulDiv(k, 0, q);
    assert k * q == p && p % q == 0;
    Product(k - 1, q);
  }

  /** Nothing strictly between p and q is left by the sieve: the numbers looked at one by one. */
  predicate NoneBetween(p: nat, q: nat)
    decreases q - p
  {
    q <= p + 1 || (!Sieved(p + 1) && NoneBetween(p + 1, q))
  }

  lemma {:induction false} NoneIs(p: nat, q: nat, m: nat)
    requires NoneBetween(p, q) && p < m < q
    ensures !Sieved(m)
    decreases q - p
  {
    hide Sieved;
    if p + 1 < m {
      NoneIs(p + 1, q, m);
    }
  }

  predicate NextSieved(p: nat, q: nat) {
    p < q && Sieved(q) && NoneBetween(p, q)
  }

  lemma NextIs(p: nat, q: nat)
    requires q < 361 && NextSieved(p, q)
    ensures NextPrime(p, q)
  {
    hide Prime, Sieved, NoneBetween;
    SieveIff(q);
    forall m: nat | p < m < q
      ensures !Prime(m)
    {
      NoneIs(p, q, m);
      SieveIff(m);
    }
  }

  lemma Gaps0()
    ensures NextSieved(1, 2) && NextSieved(2, 3) && NextSieved(3, 5) && NextSieved(5, 7)
    ensures NextSieved(7, 11) && NextSieved(11, 13) && NextSieved(13, 17) && NextSieved(17, 19)
  {}

  lemma Row0(t: nat) returns (n: nat)
    requires t / 8 == 0
    ensures NextSieved(PrimeBefore(t), PrimeAt(t)) && CubeRootBits(PrimeAt(t), n, RoundConstant(t))
  {
    hide NextSieved;
    Gaps0();
    match t {
      case 0 => n := 0x1428a2f98; assert CubeRootBits(2, n, 0x428a2f98);
      case 1 => n := 0x171374491; assert CubeRootBits(3, n, 0x71374491);
      case 2 => n := 0x1b5c0fbcf; assert CubeRootBits(5, n, 0xb5c0fbcf);
      case 3 => n := 0x1e9b5dba5; assert CubeRootBits(7, n, 0xe9b5dba5);
      case 4 => n := 0x23956c25b; assert CubeRootBits(11, n, 0x3956c25b);
      case 5 => n := 0x259f111f1; assert CubeRootBits(13, n, 0x59f111f1);
      case 6 => n := 0x2923f82a4; assert CubeRootBits(17, n, 0x923f82a4);
      case 7 => n := 0x2ab1c5ed5; assert CubeRootBits(19, n, 0xab1c5ed5);
    }
  }

  lemma Gaps1()
    ensures NextSieved(19, 23) && NextSieved(23, 29) && NextSieved(29, 31) && NextSieved(31, 37)
    ensures NextSieved(37, 41) && NextSieved(41, 43) && NextSieved(43, 47) && NextSieved(47, 53)
  {}

  lemma Row1(t: nat) returns (n: nat)
    requires t / 8 == 1
    ensures NextSieved(PrimeBefore(t), PrimeAt(t)) && CubeRootBits(PrimeAt(t), n, RoundConstant(t))
  {
    hide NextSieved;
    Gaps1();
    match t {
      case 8 => n := 0x2d807aa98; assert CubeRootBits(23, n, 0xd807aa98);
      case 9 => n := 0x312835b01; assert CubeRootBits(29, n, 0x12835b01);
      case 10 => n := 0x3243185be; assert CubeRootBits(31, n, 0x243185be);
      case 11 => n := 0x3550c7dc3; assert CubeRootBits(37, n, 0x550c7dc3);
      case 12 => n := 0x372be5d74; assert CubeRootBits(41, n, 0x72be5d74);
      case 13 => n := 0x380deb1fe; assert CubeRootBits(43, n, 0x80deb1fe);
      case 14 => n := 0x39bdc06a7; assert CubeRootBits(47, n, 0x9bdc06a7);
      case 15 => n := 0x3c19bf174; assert CubeRootBits(53, n, 0xc19bf174);
    }
  }

  lemma Gaps2()
    ensures NextSieved(53, 59) && NextSieved(59, 61) && NextSieved(61, 67) && NextSieved(67, 71)
    ensures NextSieved(71, 73) && NextSieved(73, 79) && NextSieved(79, 83) && NextSieved(83, 89)
  {}

  lemma Row2(t: nat) returns (n: nat)
    requires t / 8 == 2
    ensures NextSieved(PrimeBefore(t), PrimeAt(t)) && CubeRootBits(PrimeAt(t), n, RoundConstant(t))
  {
    hide NextSieved;
    Gaps2();
    match t {
      case 16 => n := 0x3e49b69c1; assert CubeRootBits(59, n, 0xe49b69c1);
      case 17 => n := 0x3efbe4786; assert CubeRootBits(61, n, 0xefbe4786);
      case 18 => n := 0x40fc19dc6; assert CubeRootBits(67, n, 0x0fc19dc6);
      case 19 => n := 0x4240ca1cc; assert CubeRootBits(71, n, 0x240ca1cc);
      case 20 => n := 0x42de92c6f; assert CubeRootBits(73, n, 0x2de92c6f);
      case 21 => n := 0x44a7484aa; assert CubeRootBits(79, n, 0x4a7484aa);
      case 22 => n := 0x45cb0a9dc; assert CubeRootBits(83, n, 0x5cb0a9dc);
      case 23 => n := 0x476f988da; assert CubeRootBits(89, n, 0x76f988da);
    }
  }

  lemma Gaps3()
    ensures NextSieved(89, 97) && NextSieved(97, 101) && NextSieved(101, 103) && NextSieved(103, 107)
    ensures NextSieved(107, 109) && NextSieved(109, 113) && NextSieved(113, 127) && NextSieved(127, 131)
  {}

  lemma Row3(t: nat) returns (n: nat)
    requires t / 8 == 3
    ensures NextSieved(PrimeBefore(t), PrimeAt(t)) && CubeRootBits(PrimeAt(t), n, RoundConstant(t))
  {
    hide NextSieved;
    Gaps3();
    match t {
      case 24 => n := 0x4983e5152; assert CubeRootBits(97, n, 0x983e5152);
      case 25 => n := 0x4a831c66d; assert CubeRootBits(101, n, 0xa831c66d);
      case 26 => n := 0x4b00327c8; assert CubeRootBits(103, n, 0xb00327c8);
      case 27 => n := 0x4bf597fc7; assert CubeRootBits(107, n, 0xbf597fc7);
      case 28 => n := 0x4c6e00bf3; assert CubeRootBits(109, n, 0xc6e00bf3);
      case 29 => n := 0x4d5a79147; assert CubeRootBits(113, n, 0xd5a79147);
      case 30 => n := 0x506ca6351; assert CubeRootBits(127, n, 0x06ca6351);
      case 31 => n := 0x514292967; assert CubeRootBits(131, n, 0x14292967);
    }
  }

  lemma Gaps4()
    ensures NextSieved(131, 137) && NextSieved(137, 139) && NextSieved(139, 149) && NextSieved(149, 151)
    ensures NextSieved(151, 157) && NextSieved(157, 163) && NextSieved(163, 167) && NextSieved(167, 173)
  {}

  lemma Row4(t: nat) returns (n: nat)
    requires t / 8 == 4
    ensures NextSieved(PrimeBefore(t), PrimeAt(t)) && CubeRootBits(PrimeAt(t), n, RoundConstant(t))
  {
    hide NextSieved;
    Gaps4();
    match t {
      case 32 => n := 0x527b70a85; assert CubeRootBits(137, n, 0x27b70a85);
      case 33 => n := 0x52e1b2138; assert CubeRootBits(139, n, 0x2e1b2138);
      case 34 => n := 0x54d2c6dfc; assert CubeRootBits(149, n, 0x4d2c6dfc);
      case 35 => n := 0x553380d13; assert CubeRootBits(151, n, 0x53380d13);
      case 36 => n := 0x5650a7354; assert CubeRootBits(157, n, 0x650a7354);
      case 37 => n := 0x5766a0abb; assert CubeRootBits(163, n, 0x766a0abb);
      case 38 => n := 0x581c2c92e; assert CubeRootBits(167, n, 0x81c2c92e);
      case 39 => n := 0x592722c85; assert CubeRootBits(173, n, 0x92722c85);
    }
  }

  lemma Gaps5()
    ensures NextSieved(173, 179) && NextSieved(179, 181) && NextSieved(181, 191) && NextSieved(191, 193)
    ensures NextSieved(193, 197) && NextSieved(197, 199) && NextSieved(199, 211) && NextSieved(211, 223)
  {}

  lemma Row5(t: nat) returns (n: nat)
    requires t / 8 == 5
    ensures NextSieved(PrimeBefore(t), PrimeAt(t)) && CubeRootBits(PrimeAt(t), n, RoundConstant(t))
  {
    hide NextSieved;
    Gaps5();
    match t {
      case 40 => n := 0x5a2bfe8a1; assert CubeRootBits(179, n, 0xa2bfe8a1);
      case 41 => n := 0x5a81a664b; assert CubeRootBits(181, n, 0xa81a664b);
      case 42 => n := 0x5c24b8b70; assert CubeRootBits(191, n, 0xc24b8b70);
      case 43 => n := 0x5c76c51a3; assert CubeRootBits(193, n, 0xc76c51a3);
      case 44 => n := 0x5d192e819; assert CubeRootBits(197, n, 0xd192e819);
      case 45 => n := 0x5d6990624; assert CubeRootBits(199, n, 0xd6990624);
      case 46 => n := 0x5f40e3585; assert CubeRootBits(211, n, 0xf40e3585);
      case 47 => n := 0x6106aa070; assert CubeRootBits(223, n, 0x106aa070);
    }
  }

  lemma Gaps6()
    ensures NextSieved(223, 227) && NextSieved(227, 229) && NextSieved(229, 233) && NextSieved(233, 239)
    ensures NextSieved(239, 241) && NextSieved(241, 251) && NextSieved(251, 257) && NextSieved(257, 263)
  {}

  lemma Row6(t: nat) returns (n: nat)
    requires t / 8 == 6
    ensures NextSieved(PrimeBefore(t), PrimeAt(t)) && CubeRootBits(PrimeAt(t), n, RoundConstant(t))
  {
    hide NextSieved;
    Gaps6();
    match t {
      case 48 => n := 0x619a4c116; assert CubeRootBits(227, n, 0x19a4c116);
      case 49 => n := 0x61e376c08; assert CubeRootBits(229, n, 0x1e376c08);
      case 50 => n := 0x62748774c; assert CubeRootBits(233, n, 0x2748774c);
      case 51 => n := 0x634b0bcb5; assert CubeRootBits(239, n, 0x34b0bcb5);
      case 52 => n := 0x6391c0cb3; assert CubeRootBits(241, n, 0x391c0cb3);
      case 53 => n := 0x64ed8aa4a; assert CubeRootBits(251, n, 0x4ed8aa4a);
      case 54 => n := 0x65b9cca4f; assert CubeRootBits(257, n, 0x5b9cca4f);
      case 55 => n := 0x6682e6ff3; assert CubeRootBits(263, n, 0x682e6ff3);
    }
  }

  lemma Gaps7()
    ensures NextSieved(263, 269) && NextSieved(269, 271) && NextSieved(271, 277) && NextSieved(277, 281)
    ensures NextSieved(281, 283) && NextSieved(283, 293) && NextSieved(293, 307) && NextSieved(307, 311)
  {}

  lemma Row7(t: nat) returns (n: nat)
    requires t / 8 == 7
    ensures NextSieved(PrimeBefore(t), PrimeAt(t)) && CubeRootBits(PrimeAt(t), n, RoundConstant(t))
  {
    hide NextSieved;
    Gaps7();
    match t {
      case 56 => n := 0x6748f82ee; assert CubeRootBits(269, n, 0x748f82ee);
      case 57 => n := 0x678a5636f; assert CubeRootBits(271, n, 0x78a5636f);
      case 58 => n := 0x684c87814; assert CubeRootBits(277, n, 0x84c87814);
      case 59 => n := 0x68cc70208; assert CubeRootBits(281, n, 0x8cc70208);
      case 60 => n := 0x690befffa; assert CubeRootBits(283, n, 0x90befffa);
      case 61 => n := 0x6a4506ceb; assert CubeRootBits(293, n, 0xa4506ceb);
      case 62 => n := 0x6bef9a3f7; assert CubeRootBits(307, n, 0xbef9a3f7);
      case 63 => n := 0x6c67178f2; assert CubeRootBits(311, n, 0xc67178f2);
    }
  }

  /** Section 4.2.2: the t-th round constant is the first 32 bits of the fraction of the t-th prime's cube root. */
  lemma RoundConstantIs(t: nat) returns (n: nat)
    requires t < 64
    ensures NextPrime(PrimeBefore(t), PrimeAt(t)) && CubeRootBits(PrimeAt(t), n, RoundConstants()[t])
  {
    hide NextSieved, NextPrime, CubeRootBits, RoundConstant, PrimeAt, PrimeBefore;
    match t / 8 {
      case 0 => n := Row0(t);
      case 1 => n := Row1(t);
      case 2 => n := Row2(t);
      case 3 => n := Row3(t);
      case 4 => n := Row4(t);
      case 5 => n := Row5(t);
      case 6 => n := Row6(t);
      case _ => n := Row7(t);
    }
    Small(t);
    NextIs(PrimeBefore(t), PrimeAt(t));
  }

  lemma Small(t: nat)
    requires t < 64
    ensures PrimeAt(t) < 361
  {}

  /** Section 5.3.3: the initial hash value is made of the fractions of the square roots of the first eight primes. */
  lemma InitialHashIs(t: nat) returns (n: nat)
    requires t < 8
    ensures SquareRootBits(PrimeAt(t), n, InitialHash()[t])
  {
    match t {
      case 0 => n := 0x16a09e667; assert SquareRootBits(2, n, 0x6a09e667);
      case 1 => n := 0x1bb67ae85; assert SquareRootBits(3, n, 0xbb67ae85);
      case 2 => n := 0x23c6ef372; assert SquareRootBits(5, n, 0x3c6ef372);
      case 3 => n := 0x2a54ff53a; assert SquareRootBits(7, n, 0xa54ff53a);
      case 4 => n := 0x3510e527f; assert SquareRootBits(11, n, 0x510e527f);
      case 5 => n := 0x39b05688c; assert SquareRootBits(13, n, 0x9b05688c);
      case 6 => n := 0x41f83d9ab; assert SquareRootBits(17, n, 0x1f83d9ab);
      case 7 => n := 0x45be0cd19; assert SquareRootBits(19, n, 0x5be0cd19);
    }
  }
}
