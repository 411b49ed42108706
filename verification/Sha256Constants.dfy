/**
 Where the constants of SHA-256 come from, by FIPS 180-4: the roots of the first primes.

 The primes are sifted out of the numbers below 312; each constant of the tables in src/smoltar/sha256.c
 is then bounded between the cubes or squares of two neighbours.
 */
module Sha256Constants {
  import opened Bytes
  import opened Sha256
  import opened WordBits

  // ---------------------------------------------------------------- the first primes

  const PRIMES: seq<nat> :=
      [2, 3, 5, 7, 11, 13, 17, 19]
    + [23, 29, 31, 37, 41, 43, 47, 53]
    + [59, 61, 67, 71, 73, 79, 83, 89]
    + [97, 101, 103, 107, 109, 113, 127, 131]
    + [137, 139, 149, 151, 157, 163, 167, 173]
    + [179, 181, 191, 193, 197, 199, 211, 223]
    + [227, 229, 233, 239, 241, 251, 257, 263]
    + [269, 271, 277, 281, 283, 293, 307, 311]

  predicate Factors(n: nat, d: nat, q: nat) { n == d * q }

  ghost predicate IsPrime(n: nat) {
    n >= 2 && forall d: nat, q: nat {:trigger Factors(n, d, q)} :: 2 <= d < n ==> !Factors(n, d, q)
  }

  /** Divisible by one of the primes up to 17, other than itself. */
  predicate Sifted(n: nat) {
    || (n > 2 && n % 2 == 0) || (n > 3 && n % 3 == 0) || (n > 5 && n % 5 == 0) || (n > 7 && n % 7 == 0)
    || (n > 11 && n % 11 == 0) || (n > 13 && n % 13 == 0) || (n > 17 && n % 17 == 0)
  }

  lemma SiftedHasFactor(n: nat)
    requires Sifted(n)
    ensures !IsPrime(n)
  {
    var p := if n % 2 == 0 && n > 2 then 2 else if n % 3 == 0 && n > 3 then 3 else if n % 5 == 0 && n > 5 then 5
      else if n % 7 == 0 && n > 7 then 7 else if n % 11 == 0 && n > 11 then 11 else if n % 13 == 0 && n > 13 then 13 else 17;
    assert Factors(n, p, n / p);
  }

  lemma Mod2(n: nat, q: nat)
    requires n == 2 * q
    ensures n % 2 == 0
  {
  }

  lemma Times2(n: nat, q: nat)
    requires n == 2 * q && n > 2
    ensures Sifted(n)
  {
    Mod2(n, q);
  }

  lemma Mod3(n: nat, q: nat)
    requires n == 3 * q
    ensures n % 3 == 0
  {
  }

  lemma Times3(n: nat, q: nat)
    requires n == 3 * q && n > 3
    ensures Sifted(n)
  {
    Mod3(n, q);
  }

  lemma Mod5(n: nat, q: nat)
    requires n == 5 * q
    ensures n % 5 == 0
  {
  }

  lemma Times5(n: nat, q: nat)
    requires n == 5 * q && n > 5
    ensures Sifted(n)
  {
    Mod5(n, q);
  }

  lemma Mod7(n: nat, q: nat)
    requires n == 7 * q
    ensures n % 7 == 0
  {
  }

  lemma Times7(n: nat, q: nat)
    requires n == 7 * q && n > 7
    ensures Sifted(n)
  {
    Mod7(n, q);
  }

  lemma Mod11(n: nat, q: nat)
    requires n == 11 * q
    ensures n % 11 == 0
  {
  }

  lemma Times11(n: nat, q: nat)
    requires n == 11 * q && n > 11
    ensures Sifted(n)
  {
    Mod11(n, q);
  }

  lemma Mod13(n: nat, q: nat)
    requires n == 13 * q
    ensures n % 13 == 0
  {
  }

  lemma Times13(n: nat, q: nat)
    requires n == 13 * q && n > 13
    ensures Sifted(n)
  {
    Mod13(n, q);
  }

  lemma Mod17(n: nat, q: nat)
    requires n == 17 * q
    ensures n % 17 == 0
  {
  }

  lemma Times17(n: nat, q: nat)
    requires n == 17 * q && n > 17
    ensures Sifted(n)
  {
    Mod17(n, q);
  }

  lemma Reassociate(p: nat, r: nat, q: nat)
    ensures (p * r) * q == p * (r * q)
  {
  }

  lemma SmallFactorSifts(n: nat, m: nat, q: nat)
    requires n == m * q && 2 <= m <= 17 && m < n
    ensures Sifted(n)
  {
    hide Sifted;
    if m % 2 == 0 {
      Reassociate(2, m / 2, q);
      Times2(n, m / 2 * q);
    } else if m % 3 == 0 {
      Reassociate(3, m / 3, q);
      Times3(n, m / 3 * q);
    } else if m % 5 == 0 {
      Reassociate(5, m / 5, q);
      Times5(n, m / 5 * q);
    } else if m == 7 {
      Times7(n, q);
    } else if m == 11 {
      Times11(n, q);
    } else if m == 13 {
      Times13(n, q);
    } else {
      Times17(n, q);
    }
  }

  /** Of two factors of a number below 18 * 18 one is at most 17. */
  lemma FactorSifts(n: nat, d: nat, q: nat)
    requires 2 <= d < n < 324 && n == d * q
    ensures Sifted(n)
  {
    OtherFactor(n, d, q);
    if d <= 17 {
      SmallFactorSifts(n, d, q);
    } else {
      SmallFactorSifts(n, q, d);
    }
  }

  lemma OtherFactor(n: nat, d: nat, q: nat)
    requires 2 <= d < n < 324 && n == d * q
    ensures 2 <= q < n && (d <= 17 || q <= 17)
  {
    if d >= 18 {
      FactorBound(d, q, 18);
    }
  }

  lemma FactorBound(d: nat, q: nat, b: nat)
    requires d >= b
    ensures q >= b ==> d * q >= b * b
  {
    if q >= b {
      assert d * q >= b * q >= b * b;
    }
  }

  /** Below 324 the numbers that are not sifted out are the primes. */
  lemma SiftIsExact(n: nat)
    requires 2 <= n < 324
    ensures IsPrime(n) <==> !Sifted(n)
  {
    if Sifted(n) {
      SiftedHasFactor(n);
    } else {
      forall d: nat, q: nat | 2 <= d < n ensures !Factors(n, d, q) {
        if Factors(n, d, q) {
          FactorSifts(n, d, q);
        }
      }
    }
  }

  /** From `n` on, the numbers that are not sifted out are the entries of `PRIMES` from `k` on, in order. */
  predicate Lists(n: nat, k: nat)
    decreases 312 - n
  {
    if n >= 312 then k == 64
    else if Sifted(n) then Lists(n + 1, k)
    else k < 64 && PRIMES[k] == n && Lists(n + 1, k + 1)
  }

  lemma ListedFrom2()
    ensures Lists(2, 0)
  {
    ListedFrom26();
    assert Lists(18, 7);
    assert Lists(10, 4);
    assert Lists(2, 0);
  }

  lemma ListedFrom26()
    ensures Lists(26, 9)
  {
    ListedFrom50();
    assert Lists(42, 13);
    assert Lists(34, 11);
    assert Lists(26, 9);
  }

  lemma ListedFrom50()
    ensures Lists(50, 15)
  {
    ListedFrom74();
    assert Lists(66, 18);
    assert Lists(58, 16);
    assert Lists(50, 15);
  }

  lemma ListedFrom74()
    ensures Lists(74, 21)
  {
    ListedFrom98();
    assert Lists(90, 24);
    assert Lists(82, 22);
    assert Lists(74, 21);
  }

  lemma ListedFrom98()
    ensures Lists(98, 25)
  {
    ListedFrom122();
    assert Lists(114, 30);
    assert Lists(106, 27);
    assert Lists(98, 25);
  }

  lemma ListedFrom122()
    ensures Lists(122, 30)
  {
    ListedFrom146();
    assert Lists(138, 33);
    assert Lists(130, 31);
    assert Lists(122, 30);
  }

  lemma ListedFrom146()
    ensures Lists(146, 34)
  {
    ListedFrom170();
    assert Lists(162, 37);
    assert Lists(154, 36);
    assert Lists(146, 34);
  }

  lemma ListedFrom170()
    ensures Lists(170, 39)
  {
    ListedFrom194();
    assert Lists(186, 42);
    assert Lists(178, 40);
    assert Lists(170, 39);
  }

  lemma ListedFrom194()
    ensures Lists(194, 44)
  {
    ListedFrom218();
    assert Lists(210, 46);
    assert Lists(202, 46);
    assert Lists(194, 44);
  }

  lemma ListedFrom218()
    ensures Lists(218, 47)
  {
    ListedFrom242();
    assert Lists(234, 51);
    assert Lists(226, 48);
    assert Lists(218, 47);
  }

  lemma ListedFrom242()
    ensures Lists(242, 53)
  {
    ListedFrom266();
    assert Lists(258, 55);
    assert Lists(250, 53);
    assert Lists(242, 53);
  }

  lemma ListedFrom266()
    ensures Lists(266, 56)
  {
    ListedFrom290();
    assert Lists(282, 60);
    assert Lists(274, 58);
    assert Lists(266, 56);
  }

  lemma ListedFrom290()
    ensures Lists(290, 61)
  {
    assert Lists(312, 64);
    assert Lists(306, 62);
    assert Lists(298, 62);
    assert Lists(290, 61);
  }


  ghost predicate Listed(x: nat, k: nat) {
    exists i :: k <= i < 64 && PRIMES[i] == x
  }

  lemma {:induction false} ListedInOrder(n: nat, k: nat)
    requires Lists(n, k) && k <= 64 && n <= 312
    ensures forall i :: k <= i < 64 ==> n <= PRIMES[i] < 312 && !Sifted(PRIMES[i])
    ensures forall i, j :: k <= i < j < 64 ==> PRIMES[i] < PRIMES[j]
    decreases 312 - n
  {
    hide Sifted;
    if n < 312 {
      ListedInOrder(n + 1, if Sifted(n) then k else k + 1);
    }
  }

  lemma {:induction false} AllAreListed(n: nat, k: nat, x: nat)
    requires Lists(n, k) && k <= 64 && n <= x < 312 && !Sifted(x)
    ensures Listed(x, k)
    decreases 312 - n
  {
    hide Sifted;
    if n < x {
      AllAreListed(n + 1, if Sifted(n) then k else k + 1, x);
    }
  }

  /** The table holds exactly the primes below 312, in order: the first 64 primes. */
  lemma FirstPrimes()
    ensures forall x :: 2 <= x < 312 ==> (IsPrime(x) <==> Listed(x, 0))
    ensures forall i, j :: 0 <= i < j < 64 ==> 2 <= PRIMES[i] < PRIMES[j] < 312
  {
    hide Sifted, IsPrime, Lists;
    ListedFrom2();
    ListedInOrder(2, 0);
    forall x | 2 <= x < 312 ensures IsPrime(x) <==> Listed(x, 0) {
      SiftIsExact(x);
      if !Sifted(x) {
        AllAreListed(2, 0, x);
      }
    }
  }

  // ---------------------------------------------------------------- the constants, sections 4.2.2 and 5.3.3

  /** `k` is the first 32 bits of the fractional part of the cube root of `p`, and `c` its integer part. */
  predicate FractionOfCubeRoot(p: nat, c: nat, k: nat) {
    var r := c * 0x1_0000_0000 + k;
    && c * c * c <= p < (c + 1) * (c + 1) * (c + 1)
    && r * r * r <= p * 0x1_00000000_00000000_00000000 < (r + 1) * (r + 1) * (r + 1)
  }

  predicate FractionOfSquareRoot(p: nat, c: nat, k: nat) {
    var r := c * 0x1_0000_0000 + k;
    && c * c <= p < (c + 1) * (c + 1)
    && r * r <= p * 0x1_00000000_00000000 < (r + 1) * (r + 1)
  }

  /** The integer part of the cube root, below 343. */
  function CubeRoot(p: nat): nat {
    if p < 8 then 1 else if p < 27 then 2 else if p < 64 then 3 else if p < 125 then 4 else if p < 216 then 5 else 6
  }

  predicate IsCubeConstant(t: nat) {
    t < 64 && FractionOfCubeRoot(PRIMES[t], CubeRoot(PRIMES[t]), K[t] as nat)
  }

  lemma Cubes0()
    ensures FractionOfCubeRoot(2, 1, 0x428a2f98) && FractionOfCubeRoot(3, 1, 0x71374491)
    ensures FractionOfCubeRoot(5, 1, 0xb5c0fbcf) && FractionOfCubeRoot(7, 1, 0xe9b5dba5)
  {
  }

  lemma Row0()
    ensures IsCubeConstant(0) && IsCubeConstant(1) && IsCubeConstant(2) && IsCubeConstant(3)
  {
    hide FractionOfCubeRoot;
    Cubes0();
    assert PRIMES[0] == 2 && K[0] as nat == 0x428a2f98;
    assert PRIMES[1] == 3 && K[1] as nat == 0x71374491;
    assert PRIMES[2] == 5 && K[2] as nat == 0xb5c0fbcf;
    assert PRIMES[3] == 7 && K[3] as nat == 0xe9b5dba5;
  }

  lemma Cubes1()
    ensures FractionOfCubeRoot(11, 2, 0x3956c25b) && FractionOfCubeRoot(13, 2, 0x59f111f1)
    ensures FractionOfCubeRoot(17, 2, 0x923f82a4) && FractionOfCubeRoot(19, 2, 0xab1c5ed5)
  {
  }

  lemma Row1()
    ensures IsCubeConstant(4) && IsCubeConstant(5) && IsCubeConstant(6) && IsCubeConstant(7)
  {
    hide FractionOfCubeRoot;
    Cubes1();
    assert PRIMES[4] == 11 && K[4] as nat == 0x3956c25b;
    assert PRIMES[5] == 13 && K[5] as nat == 0x59f111f1;
    assert PRIMES[6] == 17 && K[6] as nat == 0x923f82a4;
    assert PRIMES[7] == 19 && K[7] as nat == 0xab1c5ed5;
  }

  lemma Cubes2()
    ensures FractionOfCubeRoot(23, 2, 0xd807aa98) && FractionOfCubeRoot(29, 3, 0x12835b01)
    ensures FractionOfCubeRoot(31, 3, 0x243185be) && FractionOfCubeRoot(37, 3, 0x550c7dc3)
  {
  }

  lemma Row2()
    ensures IsCubeConstant(8) && IsCubeConstant(9) && IsCubeConstant(10) && IsCubeConstant(11)
  {
    hide FractionOfCubeRoot;
    Cubes2();
    assert PRIMES[8] == 23 && K[8] as nat == 0xd807aa98;
    assert PRIMES[9] == 29 && K[9] as nat == 0x12835b01;
    assert PRIMES[10] == 31 && K[10] as nat == 0x243185be;
    assert PRIMES[11] == 37 && K[11] as nat == 0x550c7dc3;
  }

  lemma Cubes3()
    ensures FractionOfCubeRoot(41, 3, 0x72be5d74) && FractionOfCubeRoot(43, 3, 0x80deb1fe)
    ensures FractionOfCubeRoot(47, 3, 0x9bdc06a7) && FractionOfCubeRoot(53, 3, 0xc19bf174)
  {
  }

  lemma Row3()
    ensures IsCubeConstant(12) && IsCubeConstant(13) && IsCubeConstant(14) && IsCubeConstant(15)
  {
    hide FractionOfCubeRoot;
    Cubes3();
    assert PRIMES[12] == 41 && K[12] as nat == 0x72be5d74;
    assert PRIMES[13] == 43 && K[13] as nat == 0x80deb1fe;
    assert PRIMES[14] == 47 && K[14] as nat == 0x9bdc06a7;
    assert PRIMES[15] == 53 && K[15] as nat == 0xc19bf174;
  }

  lemma Cubes4()
    ensures FractionOfCubeRoot(59, 3, 0xe49b69c1) && FractionOfCubeRoot(61, 3, 0xefbe4786)
    ensures FractionOfCubeRoot(67, 4, 0x0fc19dc6) && FractionOfCubeRoot(71, 4, 0x240ca1cc)
  {
  }

  lemma Row4()
    ensures IsCubeConstant(16) && IsCubeConstant(17) && IsCubeConstant(18) && IsCubeConstant(19)
  {
    hide FractionOfCubeRoot;
    Cubes4();
    assert PRIMES[16] == 59 && K[16] as nat == 0xe49b69c1;
    assert PRIMES[17] == 61 && K[17] as nat == 0xefbe4786;
    assert PRIMES[18] == 67 && K[18] as nat == 0x0fc19dc6;
    assert PRIMES[19] == 71 && K[19] as nat == 0x240ca1cc;
  }

  lemma Cubes5()
    ensures FractionOfCubeRoot(73, 4, 0x2de92c6f) && FractionOfCubeRoot(79, 4, 0x4a7484aa)
    ensures FractionOfCubeRoot(83, 4, 0x5cb0a9dc) && FractionOfCubeRoot(89, 4, 0x76f988da)
  {
  }

  lemma Row5()
    ensures IsCubeConstant(20) && IsCubeConstant(21) && IsCubeConstant(22) && IsCubeConstant(23)
  {
    hide FractionOfCubeRoot;
    Cubes5();
    assert PRIMES[20] == 73 && K[20] as nat == 0x2de92c6f;
    assert PRIMES[21] == 79 && K[21] as nat == 0x4a7484aa;
    assert PRIMES[22] == 83 && K[22] as nat == 0x5cb0a9dc;
    assert PRIMES[23] == 89 && K[23] as nat == 0x76f988da;
  }

  lemma Cubes6()
    ensures FractionOfCubeRoot(97, 4, 0x983e5152) && FractionOfCubeRoot(101, 4, 0xa831c66d)
    ensures FractionOfCubeRoot(103, 4, 0xb00327c8) && FractionOfCubeRoot(107, 4, 0xbf597fc7)
  {
  }

  lemma Row6()
    ensures IsCubeConstant(24) && IsCubeConstant(25) && IsCubeConstant(26) && IsCubeConstant(27)
  {
    hide FractionOfCubeRoot;
    Cubes6();
    assert PRIMES[24] == 97 && K[24] as nat == 0x983e5152;
    assert PRIMES[25] == 101 && K[25] as nat == 0xa831c66d;
    assert PRIMES[26] == 103 && K[26] as nat == 0xb00327c8;
    assert PRIMES[27] == 107 && K[27] as nat == 0xbf597fc7;
  }

  lemma Cubes7()
    ensures FractionOfCubeRoot(109, 4, 0xc6e00bf3) && FractionOfCubeRoot(113, 4, 0xd5a79147)
    ensures FractionOfCubeRoot(127, 5, 0x06ca6351) && FractionOfCubeRoot(131, 5, 0x14292967)
  {
  }

  lemma Row7()
    ensures IsCubeConstant(28) && IsCubeConstant(29) && IsCubeConstant(30) && IsCubeConstant(31)
  {
    hide FractionOfCubeRoot;
    Cubes7();
    assert PRIMES[28] == 109 && K[28] as nat == 0xc6e00bf3;
    assert PRIMES[29] == 113 && K[29] as nat == 0xd5a79147;
    assert PRIMES[30] == 127 && K[30] as nat == 0x06ca6351;
    assert PRIMES[31] == 131 && K[31] as nat == 0x14292967;
  }

  lemma Cubes8()
    ensures FractionOfCubeRoot(137, 5, 0x27b70a85) && FractionOfCubeRoot(139, 5, 0x2e1b2138)
    ensures FractionOfCubeRoot(149, 5, 0x4d2c6dfc) && FractionOfCubeRoot(151, 5, 0x53380d13)
  {
  }

  lemma Row8()
    ensures IsCubeConstant(32) && IsCubeConstant(33) && IsCubeConstant(34) && IsCubeConstant(35)
  {
    hide FractionOfCubeRoot;
    Cubes8();
    assert PRIMES[32] == 137 && K[32] as nat == 0x27b70a85;
    assert PRIMES[33] == 139 && K[33] as nat == 0x2e1b2138;
    assert PRIMES[34] == 149 && K[34] as nat == 0x4d2c6dfc;
    assert PRIMES[35] == 151 && K[35] as nat == 0x53380d13;
  }

  lemma Cubes9()
    ensures FractionOfCubeRoot(157, 5, 0x650a7354) && FractionOfCubeRoot(163, 5, 0x766a0abb)
    ensures FractionOfCubeRoot(167, 5, 0x81c2c92e) && FractionOfCubeRoot(173, 5, 0x92722c85)
  {
  }

  lemma Row9()
    ensures IsCubeConstant(36) && IsCubeConstant(37) && IsCubeConstant(38) && IsCubeConstant(39)
  {
    hide FractionOfCubeRoot;
    Cubes9();
    assert PRIMES[36] == 157 && K[36] as nat == 0x650a7354;
    assert PRIMES[37] == 163 && K[37] as nat == 0x766a0abb;
    assert PRIMES[38] == 167 && K[38] as nat == 0x81c2c92e;
    assert PRIMES[39] == 173 && K[39] as nat == 0x92722c85;
  }

  lemma Cubes10()
    ensures FractionOfCubeRoot(179, 5, 0xa2bfe8a1) && FractionOfCubeRoot(181, 5, 0xa81a664b)
    ensures FractionOfCubeRoot(191, 5, 0xc24b8b70) && FractionOfCubeRoot(193, 5, 0xc76c51a3)
  {
  }

  lemma Row10()
    ensures IsCubeConstant(40) && IsCubeConstant(41) && IsCubeConstant(42) && IsCubeConstant(43)
  {
    hide FractionOfCubeRoot;
    Cubes10();
    assert PRIMES[40] == 179 && K[40] as nat == 0xa2bfe8a1;
    assert PRIMES[41] == 181 && K[41] as nat == 0xa81a664b;
    assert PRIMES[42] == 191 && K[42] as nat == 0xc24b8b70;
    assert PRIMES[43] == 193 && K[43] as nat == 0xc76c51a3;
  }

  lemma Cubes11()
    ensures FractionOfCubeRoot(197, 5, 0xd192e819) && FractionOfCubeRoot(199, 5, 0xd6990624)
    ensures FractionOfCubeRoot(211, 5, 0xf40e3585) && FractionOfCubeRoot(223, 6, 0x106aa070)
  {
  }

  lemma Row11()
    ensures IsCubeConstant(44) && IsCubeConstant(45) && IsCubeConstant(46) && IsCubeConstant(47)
  {
    hide FractionOfCubeRoot;
    Cubes11();
    assert PRIMES[44] == 197 && K[44] as nat == 0xd192e819;
    assert PRIMES[45] == 199 && K[45] as nat == 0xd6990624;
    assert PRIMES[46] == 211 && K[46] as nat == 0xf40e3585;
    assert PRIMES[47] == 223 && K[47] as nat == 0x106aa070;
  }

  lemma Cubes12()
    ensures FractionOfCubeRoot(227, 6, 0x19a4c116) && FractionOfCubeRoot(229, 6, 0x1e376c08)
    ensures FractionOfCubeRoot(233, 6, 0x2748774c) && FractionOfCubeRoot(239, 6, 0x34b0bcb5)
  {
  }

  lemma Row12()
    ensures IsCubeConstant(48) && IsCubeConstant(49) && IsCubeConstant(50) && IsCubeConstant(51)
  {
    hide FractionOfCubeRoot;
    Cubes12();
    assert PRIMES[48] == 227 && K[48] as nat == 0x19a4c116;
    assert PRIMES[49] == 229 && K[49] as nat == 0x1e376c08;
    assert PRIMES[50] == 233 && K[50] as nat == 0x2748774c;
    assert PRIMES[51] == 239 && K[51] as nat == 0x34b0bcb5;
  }

  lemma Cubes13()
    ensures FractionOfCubeRoot(241, 6, 0x391c0cb3) && FractionOfCubeRoot(251, 6, 0x4ed8aa4a)
    ensures FractionOfCubeRoot(257, 6, 0x5b9cca4f) && FractionOfCubeRoot(263, 6, 0x682e6ff3)
  {
  }

  lemma Row13()
    ensures IsCubeConstant(52) && IsCubeConstant(53) && IsCubeConstant(54) && IsCubeConstant(55)
  {
    hide FractionOfCubeRoot;
    Cubes13();
    assert PRIMES[52] == 241 && K[52] as nat == 0x391c0cb3;
    assert PRIMES[53] == 251 && K[53] as nat == 0x4ed8aa4a;
    assert PRIMES[54] == 257 && K[54] as nat == 0x5b9cca4f;
    assert PRIMES[55] == 263 && K[55] as nat == 0x682e6ff3;
  }

  lemma Cubes14()
    ensures FractionOfCubeRoot(269, 6, 0x748f82ee) && FractionOfCubeRoot(271, 6, 0x78a5636f)
    ensures FractionOfCubeRoot(277, 6, 0x84c87814) && FractionOfCubeRoot(281, 6, 0x8cc70208)
  {
  }

  lemma Row14()
    ensures IsCubeConstant(56) && IsCubeConstant(57) && IsCubeConstant(58) && IsCubeConstant(59)
  {
    hide FractionOfCubeRoot;
    Cubes14();
    assert PRIMES[56] == 269 && K[56] as nat == 0x748f82ee;
    assert PRIMES[57] == 271 && K[57] as nat == 0x78a5636f;
    assert PRIMES[58] == 277 && K[58] as nat == 0x84c87814;
    assert PRIMES[59] == 281 && K[59] as nat == 0x8cc70208;
  }

  lemma Cubes15()
    ensures FractionOfCubeRoot(283, 6, 0x90befffa) && FractionOfCubeRoot(293, 6, 0xa4506ceb)
    ensures FractionOfCubeRoot(307, 6, 0xbef9a3f7) && FractionOfCubeRoot(311, 6, 0xc67178f2)
  {
  }

  lemma Row15()
    ensures IsCubeConstant(60) && IsCubeConstant(61) && IsCubeConstant(62) && IsCubeConstant(63)
  {
    hide FractionOfCubeRoot;
    Cubes15();
    assert PRIMES[60] == 283 && K[60] as nat == 0x90befffa;
    assert PRIMES[61] == 293 && K[61] as nat == 0xa4506ceb;
    assert PRIMES[62] == 307 && K[62] as nat == 0xbef9a3f7;
    assert PRIMES[63] == 311 && K[63] as nat == 0xc67178f2;
  }

  lemma LowerHalf(t: nat)
    requires 0 <= t < 32
    ensures IsCubeConstant(t)
  {
    hide IsCubeConstant;
    if t < 4 {
      Row0();
    } else if t < 8 {
      Row1();
    } else if t < 12 {
      Row2();
    } else if t < 16 {
      Row3();
    } else if t < 20 {
      Row4();
    } else if t < 24 {
      Row5();
    } else if t < 28 {
      Row6();
    } else {
      Row7();
    }
  }

  lemma UpperHalf(t: nat)
    requires 32 <= t < 64
    ensures IsCubeConstant(t)
  {
    hide IsCubeConstant;
    if t < 36 {
      Row8();
    } else if t < 40 {
      Row9();
    } else if t < 44 {
      Row10();
    } else if t < 48 {
      Row11();
    } else if t < 52 {
      Row12();
    } else if t < 56 {
      Row13();
    } else if t < 60 {
      Row14();
    } else {
      Row15();
    }
  }

  /** Section 4.2.2: round constant `t` is the fraction of the cube root of the `t`-th prime. */
  lemma RoundConstants(t: nat)
    requires t < 64
    ensures IsCubeConstant(t)
  {
    hide IsCubeConstant;
    if t < 32 {
      LowerHalf(t);
    } else {
      UpperHalf(t);
    }
  }

  /** Section 5.3.3: the initial hash value holds the fractions of the square roots of the first eight primes. */
  lemma InitialValue()
    ensures FractionOfSquareRoot(PRIMES[0], 1, INITIAL.a as nat) && FractionOfSquareRoot(PRIMES[1], 1, INITIAL.b as nat)
    ensures FractionOfSquareRoot(PRIMES[2], 2, INITIAL.c as nat) && FractionOfSquareRoot(PRIMES[3], 2, INITIAL.d as nat)
    ensures FractionOfSquareRoot(PRIMES[4], 3, INITIAL.e as nat) && FractionOfSquareRoot(PRIMES[5], 3, INITIAL.f as nat)
    ensures FractionOfSquareRoot(PRIMES[6], 4, INITIAL.g as nat) && FractionOfSquareRoot(PRIMES[7], 4, INITIAL.h as nat)
  {
  }
}
