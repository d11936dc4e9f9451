/**
 The constants of drivers/hal_sha2.c, and what they are: fractions of the square and cube roots of the first
 primes (sections 4.2.2, 4.2.3 and 5.3 of FIPS 180-2).
 */
module Sha2Constants {
  import opened Words

  const SHA224_H0: seq<bv32> := [
    0xc1059ed8, 0x367cd507, 0x3070dd17, 0xf70e5939, 0xffc00b31, 0x68581511, 0x64f98fa7, 0xbefa4fa4]

  const SHA256_H0: seq<bv32> := [
    0x6a09e667, 0xbb67ae85, 0x3c6ef372, 0xa54ff53a, 0x510e527f, 0x9b05688c, 0x1f83d9ab, 0x5be0cd19]

  const SHA384_H0: seq<bv64> := [
    0xcbbb9d5dc1059ed8, 0x629a292a367cd507, 0x9159015a3070dd17, 0x152fecd8f70e5939,
    0x67332667ffc00b31, 0x8eb44a8768581511, 0xdb0c2e0d64f98fa7, 0x47b5481dbefa4fa4]

  const SHA512_H0: seq<bv64> := [
    0x6a09e667f3bcc908, 0xbb67ae8584caa73b, 0x3c6ef372fe94f82b, 0xa54ff53a5f1d36f1,
    0x510e527fade682d1, 0x9b05688c2b3e6c1f, 0x1f83d9abfb41bd6b, 0x5be0cd19137e2179]

  const SHA256_K_ROWS: seq<seq<bv32>> := [
    [0x428a2f98, 0x71374491, 0xb5c0fbcf, 0xe9b5dba5, 0x3956c25b, 0x59f111f1, 0x923f82a4, 0xab1c5ed5],
    [0xd807aa98, 0x12835b01, 0x243185be, 0x550c7dc3, 0x72be5d74, 0x80deb1fe, 0x9bdc06a7, 0xc19bf174],
    [0xe49b69c1, 0xefbe4786, 0x0fc19dc6, 0x240ca1cc, 0x2de92c6f, 0x4a7484aa, 0x5cb0a9dc, 0x76f988da],
    [0x983e5152, 0xa831c66d, 0xb00327c8, 0xbf597fc7, 0xc6e00bf3, 0xd5a79147, 0x06ca6351, 0x14292967],
    [0x27b70a85, 0x2e1b2138, 0x4d2c6dfc, 0x53380d13, 0x650a7354, 0x766a0abb, 0x81c2c92e, 0x92722c85],
    [0xa2bfe8a1, 0xa81a664b, 0xc24b8b70, 0xc76c51a3, 0xd192e819, 0xd6990624, 0xf40e3585, 0x106aa070],
    [0x19a4c116, 0x1e376c08, 0x2748774c, 0x34b0bcb5, 0x391c0cb3, 0x4ed8aa4a, 0x5b9cca4f, 0x682e6ff3],
    [0x748f82ee, 0x78a5636f, 0x84c87814, 0x8cc70208, 0x90befffa, 0xa4506ceb, 0xbef9a3f7, 0xc67178f2]]

  const SHA512_K_ROWS: seq<seq<bv64>> := [
    [0x428a2f98d728ae22, 0x7137449123ef65cd, 0xb5c0fbcfec4d3b2f, 0xe9b5dba58189dbbc,
     0x3956c25bf348b538, 0x59f111f1b605d019, 0x923f82a4af194f9b, 0xab1c5ed5da6d8118],
    [0xd807aa98a3030242, 0x12835b0145706fbe, 0x243185be4ee4b28c, 0x550c7dc3d5ffb4e2,
     0x72be5d74f27b896f, 0x80deb1fe3b1696b1, 0x9bdc06a725c71235, 0xc19bf174cf692694],
    [0xe49b69c19ef14ad2, 0xefbe4786384f25e3, 0x0fc19dc68b8cd5b5, 0x240ca1cc77ac9c65,
     0x2de92c6f592b0275, 0x4a7484aa6ea6e483, 0x5cb0a9dcbd41fbd4, 0x76f988da831153b5],
    [0x983e5152ee66dfab, 0xa831c66d2db43210, 0xb00327c898fb213f, 0xbf597fc7beef0ee4,
     0xc6e00bf33da88fc2, 0xd5a79147930aa725, 0x06ca6351e003826f, 0x142929670a0e6e70],
    [0x27b70a8546d22ffc, 0x2e1b21385c26c926, 0x4d2c6dfc5ac42aed, 0x53380d139d95b3df,
     0x650a73548baf63de, 0x766a0abb3c77b2a8, 0x81c2c92e47edaee6, 0x92722c851482353b],
    [0xa2bfe8a14cf10364, 0xa81a664bbc423001, 0xc24b8b70d0f89791, 0xc76c51a30654be30,
     0xd192e819d6ef5218, 0xd69906245565a910, 0xf40e35855771202a, 0x106aa07032bbd1b8],
    [0x19a4c116b8d2d0c8, 0x1e376c085141ab53, 0x2748774cdf8eeb99, 0x34b0bcb5e19b48a8,
     0x391c0cb3c5c95a63, 0x4ed8aa4ae3418acb, 0x5b9cca4f7763e373, 0x682e6ff3d6b2b8a3],
    [0x748f82ee5defb2fc, 0x78a5636f43172f60, 0x84c87814a1f0ab72, 0x8cc702081a6439ec,
     0x90befffa23631e28, 0xa4506cebde82bde9, 0xbef9a3f7b2c67915, 0xc67178f2e372532b],
    [0xca273eceea26619c, 0xd186b8c721c0c207, 0xeada7dd6cde0eb1e, 0xf57d4f7fee6ed178,
     0x06f067aa72176fba, 0x0a637dc5a2c898a6, 0x113f9804bef90dae, 0x1b710b35131c471b],
    [0x28db77f523047d84, 0x32caab7b40c72493, 0x3c9ebe0a15c9bebc, 0x431d67c49c100d4c,
     0x4cc5d4becb3e42b6, 0x597f299cfc657e2a, 0x5fcb6fab3ad6faec, 0x6c44198c4a475817]]

  const PRIME_ROWS: seq<seq<nat>> := [
    [2, 3, 5, 7, 11, 13, 17, 19],
    [23, 29, 31, 37, 41, 43, 47, 53],
    [59, 61, 67, 71, 73, 79, 83, 89],
    [97, 101, 103, 107, 109, 113, 127, 131],
    [137, 139, 149, 151, 157, 163, 167, 173],
    [179, 181, 191, 193, 197, 199, 211, 223],
    [227, 229, 233, 239, 241, 251, 257, 263],
    [269, 271, 277, 281, 283, 293, 307, 311],
    [313, 317, 331, 337, 347, 349, 353, 359],
    [367, 373, 379, 383, 389, 397, 401, 409]]

  /** Entry `i` of a table of rows of eight. */
  function At<T>(rows: seq<seq<T>>, i: nat): T
    requires i / 8 < |rows| && |rows[i / 8]| == 8
  {
    rows[i / 8][i % 8]
  }

  lemma {:induction false} RowsOfEight()
    ensures |SHA256_K_ROWS| == 8 && |SHA512_K_ROWS| == 10 && |PRIME_ROWS| == 10
    ensures forall r :: 0 <= r < 8 ==> |SHA256_K_ROWS[r]| == 8
    ensures forall r :: 0 <= r < 10 ==> |SHA512_K_ROWS[r]| == 8 && |PRIME_ROWS[r]| == 8
  {
  }

  function Sha256K(): (k: seq<bv32>)
    ensures |k| == 64
  {
    RowsOfEight();
    seq(64, i requires 0 <= i < 64 => At(SHA256_K_ROWS, i))
  }

  function Sha512K(): (k: seq<bv64>)
    ensures |k| == 80
  {
    RowsOfEight();
    seq(80, i requires 0 <= i < 80 => At(SHA512_K_ROWS, i))
  }

  function ListedPrime(i: nat): nat
    requires i < 80
  {
    RowsOfEight();
    At(PRIME_ROWS, i)
  }

  // ---------------------------------------------------------------------------------------------
  // The first primes
  // ---------------------------------------------------------------------------------------------

  ghost predicate Prime(n: nat) {
    n >= 2 && forall d :: 2 <= d < n ==> n % d != 0
  }

  /** A multiple of one of the first eight primes. */
  predicate Sifted(n: nat) {
    n % 2 == 0 || n % 3 == 0 || n % 5 == 0 || n % 7 == 0 || n % 11 == 0 || n % 13 == 0 || n % 17 == 0 || n % 19 == 0
  }

  /** A prime below 529: one of the first eight, or a number beyond them that is no multiple of any. */
  predicate PrimeTest(n: nat) {
    if n < 23 then n == 2 || n == 3 || n == 5 || n == 7 || n == 11 || n == 13 || n == 17 || n == 19 else !Sifted(n)
  }

  /** A number that has a divisor has one whose square does not exceed it. */
  lemma SmallDivisor(n: nat, d: nat) returns (f: nat)
    requires 2 <= d < n && n % d == 0
    ensures 2 <= f && f * f <= n && n % f == 0
  {
    var e := n / d;
    assert n == d * e;
    if d <= e {
      f := d;
      assert d * d <= d * e;
    } else {
      f := e;
      assert e * e <= d * e;
      assert e <= 1 ==> d * e <= d;
      Quotient(n, d, e, 0);
    }
  }

  lemma SquareGrows(f: nat, m: nat)
    requires f >= m
    ensures f * f >= m * m
  {
    assert f * f >= m * f;
  }

  lemma SmallTest(n: nat)
    requires n < 23
    ensures PrimeTest(n) <==> Prime(n)
  {
    if n >= 2 && !Prime(n) {
      var d :| 2 <= d < n && n % d == 0;
      var f := SmallDivisor(n, d);
      if f >= 5 {
        SquareGrows(f, 5);
      } else {
        assert f == 2 || f == 3 || f == 4;
      }
    } else if n > 3 {
      assert n % 2 != 0 && n % 3 != 0;
    }
  }

  lemma Multiple(n: nat, f: nat, p: nat)
    requires f > 0 && p > 0 && n % f == 0 && f % p == 0
    ensures n % p == 0
  {
    var a, b := n / f, f / p;
    assert n == a * f && f == b * p;
    assert a * (b * p) == (a * b) * p;
    Quotient(n, a * b, p, 0);
  }

  lemma FactorSifts(n: nat, f: nat)
    requires 2 <= f < 23 && n % f == 0
    ensures Sifted(n)
  {
    var p := if f % 2 == 0 then 2 else if f % 3 == 0 then 3 else f;
    assert p == 2 || p == 3 || p == 5 || p == 7 || p == 11 || p == 13 || p == 17 || p == 19;
    Multiple(n, f, p);
  }

  lemma PrimeTestExact(n: nat)
    requires n < 529
    ensures PrimeTest(n) <==> Prime(n)
  {
    if n < 23 {
      SmallTest(n);
    } else if !Prime(n) {
      var d :| 2 <= d < n && n % d == 0;
      var f := SmallDivisor(n, d);
      if f >= 23 {
        SquareGrows(f, 23);
      } else {
        FactorSifts(n, f);
      }
    } else {
      assert n % 2 != 0 && n % 3 != 0 && n % 5 != 0 && n % 7 != 0;
      assert n % 11 != 0 && n % 13 != 0 && n % 17 != 0 && n % 19 != 0;
    }
  }

  /** `q` is the next prime after `p`. */
  ghost predicate Follows(p: nat, q: nat) {
    p < q && Prime(q) && forall m :: p < m < q ==> !Prime(m)
  }

  predicate Gap(m: nat, q: nat)
    decreases q - m
  {
    if m >= q then PrimeTest(q) else !PrimeTest(m) && Gap(m + 1, q)
  }

  lemma {:induction false} GapIsEmpty(m: nat, q: nat)
    requires m <= q < 529 && Gap(m, q)
    ensures Prime(q) && forall n :: m <= n < q ==> !Prime(n)
    decreases q - m
  {
    hide PrimeTest, Prime;
    PrimeTestExact(m);
    if m < q {
      GapIsEmpty(m + 1, q);
    }
  }

  lemma NextPrime(i: nat, m: nat, q: nat)
    requires i < 79 && ListedPrime(i) + 1 == m && ListedPrime(i + 1) == q && m <= q < 529 && Gap(m, q)
    ensures Follows(ListedPrime(i), ListedPrime(i + 1))
  {
    hide Prime, ListedPrime;
    GapIsEmpty(m, q);
  }

  lemma Gaps0()
    ensures Gap(3, 3) && Gap(4, 5) && Gap(6, 7) && Gap(8, 11)
    ensures Gap(12, 13) && Gap(14, 17) && Gap(18, 19) && Gap(20, 23)
  {
  }

  lemma Primes0()
    ensures forall i :: 0 <= i < 8 ==> Follows(ListedPrime(i), ListedPrime(i + 1))
  {
    hide Follows, Gap;
    Gaps0();
    NextPrime(0, 3, 3);
    NextPrime(1, 4, 5);
    NextPrime(2, 6, 7);
    NextPrime(3, 8, 11);
    NextPrime(4, 12, 13);
    NextPrime(5, 14, 17);
    NextPrime(6, 18, 19);
    NextPrime(7, 20, 23);
  }

  lemma Gaps1()
    ensures Gap(24, 29) && Gap(30, 31) && Gap(32, 37) && Gap(38, 41)
    ensures Gap(42, 43) && Gap(44, 47) && Gap(48, 53) && Gap(54, 59)
  {
  }

  lemma Primes1()
    ensures forall i :: 8 <= i < 16 ==> Follows(ListedPrime(i), ListedPrime(i + 1))
  {
    hide Follows, Gap;
    Gaps1();
    NextPrime(8, 24, 29);
    NextPrime(9, 30, 31);
    NextPrime(10, 32, 37);
    NextPrime(11, 38, 41);
    NextPrime(12, 42, 43);
    NextPrime(13, 44, 47);
    NextPrime(14, 48, 53);
    NextPrime(15, 54, 59);
  }

  lemma Gaps2()
    ensures Gap(60, 61) && Gap(62, 67) && Gap(68, 71) && Gap(72, 73)
    ensures Gap(74, 79) && Gap(80, 83) && Gap(84, 89) && Gap(90, 97)
  {
  }

  lemma Primes2()
    ensures forall i :: 16 <= i < 24 ==> Follows(ListedPrime(i), ListedPrime(i + 1))
  {
    hide Follows, Gap;
    Gaps2();
    NextPrime(16, 60, 61);
    NextPrime(17, 62, 67);
    NextPrime(18, 68, 71);
    NextPrime(19, 72, 73);
    NextPrime(20, 74, 79);
    NextPrime(21, 80, 83);
    NextPrime(22, 84, 89);
    NextPrime(23, 90, 97);
  }

  lemma Gaps3()
    ensures Gap(98, 101) && Gap(102, 103) && Gap(104, 107) && Gap(108, 109)
    ensures Gap(110, 113) && Gap(114, 127) && Gap(128, 131) && Gap(132, 137)
  {
  }

  lemma Primes3()
    ensures forall i :: 24 <= i < 32 ==> Follows(ListedPrime(i), ListedPrime(i + 1))
  {
    hide Follows, Gap;
    Gaps3();
    NextPrime(24, 98, 101);
    NextPrime(25, 102, 103);
    NextPrime(26, 104, 107);
    NextPrime(27, 108, 109);
    NextPrime(28, 110, 113);
    NextPrime(29, 114, 127);
    NextPrime(30, 128, 131);
    NextPrime(31, 132, 137);
  }

  lemma Gaps4()
    ensures Gap(138, 139) && Gap(140, 149) && Gap(150, 151) && Gap(152, 157)
    ensures Gap(158, 163) && Gap(164, 167) && Gap(168, 173) && Gap(174, 179)
  {
  }

  lemma Primes4()
    ensures forall i :: 32 <= i < 40 ==> Follows(ListedPrime(i), ListedPrime(i + 1))
  {
    hide Follows, Gap;
    Gaps4();
    NextPrime(32, 138, 139);
    NextPrime(33, 140, 149);
    NextPrime(34, 150, 151);
    NextPrime(35, 152, 157);
    NextPrime(36, 158, 163);
    NextPrime(37, 164, 167);
    NextPrime(38, 168, 173);
    NextPrime(39, 174, 179);
  }

  lemma Gaps5()
    ensures Gap(180, 181) && Gap(182, 191) && Gap(192, 193) && Gap(194, 197)
    ensures Gap(198, 199) && Gap(200, 211) && Gap(212, 223) && Gap(224, 227)
  {
  }

  lemma Primes5()
    ensures forall i :: 40 <= i < 48 ==> Follows(ListedPrime(i), ListedPrime(i + 1))
  {
    hide Follows, Gap;
    Gaps5();
    NextPrime(40, 180, 181);
    NextPrime(41, 182, 191);
    NextPrime(42, 192, 193);
    NextPrime(43, 194, 197);
    NextPrime(44, 198, 199);
    NextPrime(45, 200, 211);
    NextPrime(46, 212, 223);
    NextPrime(47, 224, 227);
  }

  lemma Gaps6()
    ensures Gap(228, 229) && Gap(230, 233) && Gap(234, 239) && Gap(240, 241)
    ensures Gap(242, 251) && Gap(252, 257) && Gap(258, 263) && Gap(264, 269)
  {
  }

  lemma Primes6()
    ensures forall i :: 48 <= i < 56 ==> Follows(ListedPrime(i), ListedPrime(i + 1))
  {
    hide Follows, Gap;
    Gaps6();
    NextPrime(48, 228, 229);
    NextPrime(49, 230, 233);
    NextPrime(50, 234, 239);
    NextPrime(51, 240, 241);
    NextPrime(52, 242, 251);
    NextPrime(53, 252, 257);
    NextPrime(54, 258, 263);
    NextPrime(55, 264, 269);
  }

  lemma Gaps7()
    ensures Gap(270, 271) && Gap(272, 277) && Gap(278, 281) && Gap(282, 283)
    ensures Gap(284, 293) && Gap(294, 307) && Gap(308, 311) && Gap(312, 313)
  {
  }

  lemma Primes7()
    ensures forall i :: 56 <= i < 64 ==> Follows(ListedPrime(i), ListedPrime(i + 1))
  {
    hide Follows, Gap;
    Gaps7();
    NextPrime(56, 270, 271);
    NextPrime(57, 272, 277);
    NextPrime(58, 278, 281);
    NextPrime(59, 282, 283);
    NextPrime(60, 284, 293);
    NextPrime(61, 294, 307);
    NextPrime(62, 308, 311);
    NextPrime(63, 312, 313);
  }

  lemma Gaps8()
    ensures Gap(314, 317) && Gap(318, 331) && Gap(332, 337) && Gap(338, 347)
    ensures Gap(348, 349) && Gap(350, 353) && Gap(354, 359) && Gap(360, 367)
  {
  }

  lemma Primes8()
    ensures forall i :: 64 <= i < 72 ==> Follows(ListedPrime(i), ListedPrime(i + 1))
  {
    hide Follows, Gap;
    Gaps8();
    NextPrime(64, 314, 317);
    NextPrime(65, 318, 331);
    NextPrime(66, 332, 337);
    NextPrime(67, 338, 347);
    NextPrime(68, 348, 349);
    NextPrime(69, 350, 353);
    NextPrime(70, 354, 359);
    NextPrime(71, 360, 367);
  }

  lemma Gaps9()
    ensures Gap(368, 373) && Gap(374, 379) && Gap(380, 383) && Gap(384, 389)
    ensures Gap(390, 397) && Gap(398, 401) && Gap(402, 409)
  {
  }

  lemma Primes9()
    ensures forall i :: 72 <= i < 79 ==> Follows(ListedPrime(i), ListedPrime(i + 1))
  {
    hide Follows, Gap;
    Gaps9();
    NextPrime(72, 368, 373);
    NextPrime(73, 374, 379);
    NextPrime(74, 380, 383);
    NextPrime(75, 384, 389);
    NextPrime(76, 390, 397);
    NextPrime(77, 398, 401);
    NextPrime(78, 402, 409);
  }

  /** The table lists the first eighty primes. */
  lemma FirstPrimes()
    ensures ListedPrime(0) == 2 && Prime(2)
    ensures forall i :: 0 <= i < 79 ==> Follows(ListedPrime(i), ListedPrime(i + 1))
  {
    SmallTest(2);
    hide Follows, Prime;
    Primes0();
    Primes1();
    Primes2();
    Primes3();
    Primes4();
    Primes5();
    Primes6();
    Primes7();
    Primes8();
    Primes9();
  }

  // ---------------------------------------------------------------------------------------------
  // Fractions of roots
  // ---------------------------------------------------------------------------------------------

  /** In units of `1 / one`, the cube root of `p` lies between `a` and `k`, and one more. */
  predicate CubeRoot(p: nat, a: nat, k: nat, one: nat) {
    var c := a * one + k;
    k < one && c * c * c <= p * one * one * one < (c + 1) * (c + 1) * (c + 1)
  }

  predicate SquareRoot(p: nat, a: nat, k: nat, one: nat) {
    var c := a * one + k;
    k < one && c * c <= p * one * one < (c + 1) * (c + 1)
  }

  /** `k` is the first bits of the fraction of the cube root of `p`, as many as `one` has room for. */
  ghost predicate CubeFraction(p: nat, k: nat, one: nat) {
    exists a: nat :: CubeRoot(p, a, k, one)
  }

  ghost predicate SquareFraction(p: nat, k: nat, one: nat) {
    exists a: nat :: SquareRoot(p, a, k, one)
  }

  lemma Cube256(i: nat, p: nat, a: nat, k: nat, w: bv32)
    requires i < 64 && ListedPrime(i) == p && Sha256K()[i] == w && w as nat == k && CubeRoot(p, a, k, TWO32)
    ensures CubeFraction(ListedPrime(i), Sha256K()[i] as nat, TWO32)
  {
    hide CubeRoot, ListedPrime, Sha256K;
  }

  lemma Cube512(i: nat, p: nat, a: nat, k: nat, w: bv64)
    requires i < 80 && ListedPrime(i) == p && Sha512K()[i] == w && w as nat == k && CubeRoot(p, a, k, TWO64)
    ensures CubeFraction(ListedPrime(i), Sha512K()[i] as nat, TWO64)
  {
    hide CubeRoot, ListedPrime, Sha512K;
  }

  lemma Row256_0()
    ensures forall i :: 0 <= i < 8 ==> CubeFraction(ListedPrime(i), Sha256K()[i] as nat, TWO32)
  {
    hide CubeFraction;
    Cube256(0, 2, 1, 0x428a2f98, 0x428a2f98);
    Cube256(1, 3, 1, 0x71374491, 0x71374491);
    Cube256(2, 5, 1, 0xb5c0fbcf, 0xb5c0fbcf);
    Cube256(3, 7, 1, 0xe9b5dba5, 0xe9b5dba5);
    Cube256(4, 11, 2, 0x3956c25b, 0x3956c25b);
    Cube256(5, 13, 2, 0x59f111f1, 0x59f111f1);
    Cube256(6, 17, 2, 0x923f82a4, 0x923f82a4);
    Cube256(7, 19, 2, 0xab1c5ed5, 0xab1c5ed5);
  }

  lemma Row256_1()
    ensures forall i :: 8 <= i < 16 ==> CubeFraction(ListedPrime(i), Sha256K()[i] as nat, TWO32)
  {
    hide CubeFraction;
    Cube256(8, 23, 2, 0xd807aa98, 0xd807aa98);
    Cube256(9, 29, 3, 0x12835b01, 0x12835b01);
    Cube256(10, 31, 3, 0x243185be, 0x243185be);
    Cube256(11, 37, 3, 0x550c7dc3, 0x550c7dc3);
    Cube256(12, 41, 3, 0x72be5d74, 0x72be5d74);
    Cube256(13, 43, 3, 0x80deb1fe, 0x80deb1fe);
    Cube256(14, 47, 3, 0x9bdc06a7, 0x9bdc06a7);
    Cube256(15, 53, 3, 0xc19bf174, 0xc19bf174);
  }

  lemma Row256_2()
    ensures forall i :: 16 <= i < 24 ==> CubeFraction(ListedPrime(i), Sha256K()[i] as nat, TWO32)
  {
    hide CubeFraction;
    Cube256(16, 59, 3, 0xe49b69c1, 0xe49b69c1);
    Cube256(17, 61, 3, 0xefbe4786, 0xefbe4786);
    Cube256(18, 67, 4, 0xfc19dc6, 0xfc19dc6);
    Cube256(19, 71, 4, 0x240ca1cc, 0x240ca1cc);
    Cube256(20, 73, 4, 0x2de92c6f, 0x2de92c6f);
    Cube256(21, 79, 4, 0x4a7484aa, 0x4a7484aa);
    Cube256(22, 83, 4, 0x5cb0a9dc, 0x5cb0a9dc);
    Cube256(23, 89, 4, 0x76f988da, 0x76f988da);
  }

  lemma Row256_3()
    ensures forall i :: 24 <= i < 32 ==> CubeFraction(ListedPrime(i), Sha256K()[i] as nat, TWO32)
  {
    hide CubeFraction;
    Cube256(24, 97, 4, 0x983e5152, 0x983e5152);
    Cube256(25, 101, 4, 0xa831c66d, 0xa831c66d);
    Cube256(26, 103, 4, 0xb00327c8, 0xb00327c8);
    Cube256(27, 107, 4, 0xbf597fc7, 0xbf597fc7);
    Cube256(28, 109, 4, 0xc6e00bf3, 0xc6e00bf3);
    Cube256(29, 113, 4, 0xd5a79147, 0xd5a79147);
    Cube256(30, 127, 5, 0x6ca6351, 0x6ca6351);
    Cube256(31, 131, 5, 0x14292967, 0x14292967);
  }

  lemma Row256_4()
    ensures forall i :: 32 <= i < 40 ==> CubeFraction(ListedPrime(i), Sha256K()[i] as nat, TWO32)
  {
    hide CubeFraction;
    Cube256(32, 137, 5, 0x27b70a85, 0x27b70a85);
    Cube256(33, 139, 5, 0x2e1b2138, 0x2e1b2138);
    Cube256(34, 149, 5, 0x4d2c6dfc, 0x4d2c6dfc);
    Cube256(35, 151, 5, 0x53380d13, 0x53380d13);
    Cube256(36, 157, 5, 0x650a7354, 0x650a7354);
    Cube256(37, 163, 5, 0x766a0abb, 0x766a0abb);
    Cube256(38, 167, 5, 0x81c2c92e, 0x81c2c92e);
    Cube256(39, 173, 5, 0x92722c85, 0x92722c85);
  }

  lemma Row256_5()
    ensures forall i :: 40 <= i < 48 ==> CubeFraction(ListedPrime(i), Sha256K()[i] as nat, TWO32)
  {
    hide CubeFraction;
    Cube256(40, 179, 5, 0xa2bfe8a1, 0xa2bfe8a1);
    Cube256(41, 181, 5, 0xa81a664b, 0xa81a664b);
    Cube256(42, 191, 5, 0xc24b8b70, 0xc24b8b70);
    Cube256(43, 193, 5, 0xc76c51a3, 0xc76c51a3);
    Cube256(44, 197, 5, 0xd192e819, 0xd192e819);
    Cube256(45, 199, 5, 0xd6990624, 0xd6990624);
    Cube256(46, 211, 5, 0xf40e3585, 0xf40e3585);
    Cube256(47, 223, 6, 0x106aa070, 0x106aa070);
  }

  lemma Row256_6()
    ensures forall i :: 48 <= i < 56 ==> CubeFraction(ListedPrime(i), Sha256K()[i] as nat, TWO32)
  {
    hide CubeFraction;
    Cube256(48, 227, 6, 0x19a4c116, 0x19a4c116);
    Cube256(49, 229, 6, 0x1e376c08, 0x1e376c08);
    Cube256(50, 233, 6, 0x2748774c, 0x2748774c);
    Cube256(51, 239, 6, 0x34b0bcb5, 0x34b0bcb5);
    Cube256(52, 241, 6, 0x391c0cb3, 0x391c0cb3);
    Cube256(53, 251, 6, 0x4ed8aa4a, 0x4ed8aa4a);
    Cube256(54, 257, 6, 0x5b9cca4f, 0x5b9cca4f);
    Cube256(55, 263, 6, 0x682e6ff3, 0x682e6ff3);
  }

  lemma Row256_7()
    ensures forall i :: 56 <= i < 64 ==> CubeFraction(ListedPrime(i), Sha256K()[i] as nat, TWO32)
  {
    hide CubeFraction;
    Cube256(56, 269, 6, 0x748f82ee, 0x748f82ee);
    Cube256(57, 271, 6, 0x78a5636f, 0x78a5636f);
    Cube256(58, 277, 6, 0x84c87814, 0x84c87814);
    Cube256(59, 281, 6, 0x8cc70208, 0x8cc70208);
    Cube256(60, 283, 6, 0x90befffa, 0x90befffa);
    Cube256(61, 293, 6, 0xa4506ceb, 0xa4506ceb);
    Cube256(62, 307, 6, 0xbef9a3f7, 0xbef9a3f7);
    Cube256(63, 311, 6, 0xc67178f2, 0xc67178f2);
  }

  /** The round constants are fractions of the cube roots of the first 64 primes. */
  lemma RoundConstants256()
    ensures forall i :: 0 <= i < 64 ==> CubeFraction(ListedPrime(i), Sha256K()[i] as nat, TWO32)
  {
    hide CubeFraction, ListedPrime, Sha256K;
    Row256_0();
    Row256_1();
    Row256_2();
    Row256_3();
    Row256_4();
    Row256_5();
    Row256_6();
    Row256_7();
  }

  lemma Row512_0()
    ensures forall i :: 0 <= i < 8 ==> CubeFraction(ListedPrime(i), Sha512K()[i] as nat, TWO64)
  {
    hide CubeFraction;
    Cube512(0, 2, 1, 0x428a2f98d728ae22, 0x428a2f98d728ae22);
    Cube512(1, 3, 1, 0x7137449123ef65cd, 0x7137449123ef65cd);
    Cube512(2, 5, 1, 0xb5c0fbcfec4d3b2f, 0xb5c0fbcfec4d3b2f);
    Cube512(3, 7, 1, 0xe9b5dba58189dbbc, 0xe9b5dba58189dbbc);
    Cube512(4, 11, 2, 0x3956c25bf348b538, 0x3956c25bf348b538);
    Cube512(5, 13, 2, 0x59f111f1b605d019, 0x59f111f1b605d019);
    Cube512(6, 17, 2, 0x923f82a4af194f9b, 0x923f82a4af194f9b);
    Cube512(7, 19, 2, 0xab1c5ed5da6d8118, 0xab1c5ed5da6d8118);
  }

  lemma Row512_1()
    ensures forall i :: 8 <= i < 16 ==> CubeFraction(ListedPrime(i), Sha512K()[i] as nat, TWO64)
  {
    hide CubeFraction;
    Cube512(8, 23, 2, 0xd807aa98a3030242, 0xd807aa98a3030242);
    Cube512(9, 29, 3, 0x12835b0145706fbe, 0x12835b0145706fbe);
    Cube512(10, 31, 3, 0x243185be4ee4b28c, 0x243185be4ee4b28c);
    Cube512(11, 37, 3, 0x550c7dc3d5ffb4e2, 0x550c7dc3d5ffb4e2);
    Cube512(12, 41, 3, 0x72be5d74f27b896f, 0x72be5d74f27b896f);
    Cube512(13, 43, 3, 0x80deb1fe3b1696b1, 0x80deb1fe3b1696b1);
    Cube512(14, 47, 3, 0x9bdc06a725c71235, 0x9bdc06a725c71235);
    Cube512(15, 53, 3, 0xc19bf174cf692694, 0xc19bf174cf692694);
  }

  lemma Row512_2()
    ensures forall i :: 16 <= i < 24 ==> CubeFraction(ListedPrime(i), Sha512K()[i] as nat, TWO64)
  {
    hide CubeFraction;
    Cube512(16, 59, 3, 0xe49b69c19ef14ad2, 0xe49b69c19ef14ad2);
    Cube512(17, 61, 3, 0xefbe4786384f25e3, 0xefbe4786384f25e3);
    Cube512(18, 67, 4, 0xfc19dc68b8cd5b5, 0xfc19dc68b8cd5b5);
    Cube512(19, 71, 4, 0x240ca1cc77ac9c65, 0x240ca1cc77ac9c65);
    Cube512(20, 73, 4, 0x2de92c6f592b0275, 0x2de92c6f592b0275);
    Cube512(21, 79, 4, 0x4a7484aa6ea6e483, 0x4a7484aa6ea6e483);
    Cube512(22, 83, 4, 0x5cb0a9dcbd41fbd4, 0x5cb0a9dcbd41fbd4);
    Cube512(23, 89, 4, 0x76f988da831153b5, 0x76f988da831153b5);
  }

  lemma Row512_3()
    ensures forall i :: 24 <= i < 32 ==> CubeFraction(ListedPrime(i), Sha512K()[i] as nat, TWO64)
  {
    hide CubeFraction;
    Cube512(24, 97, 4, 0x983e5152ee66dfab, 0x983e5152ee66dfab);
    Cube512(25, 101, 4, 0xa831c66d2db43210, 0xa831c66d2db43210);
    Cube512(26, 103, 4, 0xb00327c898fb213f, 0xb00327c898fb213f);
    Cube512(27, 107, 4, 0xbf597fc7beef0ee4, 0xbf597fc7beef0ee4);
    Cube512(28, 109, 4, 0xc6e00bf33da88fc2, 0xc6e00bf33da88fc2);
    Cube512(29, 113, 4, 0xd5a79147930aa725, 0xd5a79147930aa725);
    Cube512(30, 127, 5, 0x6ca6351e003826f, 0x6ca6351e003826f);
    Cube512(31, 131, 5, 0x142929670a0e6e70, 0x142929670a0e6e70);
  }

  lemma Row512_4()
    ensures forall i :: 32 <= i < 40 ==> CubeFraction(ListedPrime(i), Sha512K()[i] as nat, TWO64)
  {
    hide CubeFraction;
    Cube512(32, 137, 5, 0x27b70a8546d22ffc, 0x27b70a8546d22ffc);
    Cube512(33, 139, 5, 0x2e1b21385c26c926, 0x2e1b21385c26c926);
    Cube512(34, 149, 5, 0x4d2c6dfc5ac42aed, 0x4d2c6dfc5ac42aed);
    Cube512(35, 151, 5, 0x53380d139d95b3df, 0x53380d139d95b3df);
    Cube512(36, 157, 5, 0x650a73548baf63de, 0x650a73548baf63de);
    Cube512(37, 163, 5, 0x766a0abb3c77b2a8, 0x766a0abb3c77b2a8);
    Cube512(38, 167, 5, 0x81c2c92e47edaee6, 0x81c2c92e47edaee6);
    Cube512(39, 173, 5, 0x92722c851482353b, 0x92722c851482353b);
  }

  lemma Row512_5()
    ensures forall i :: 40 <= i < 48 ==> CubeFraction(ListedPrime(i), Sha512K()[i] as nat, TWO64)
  {
    hide CubeFraction;
    Cube512(40, 179, 5, 0xa2bfe8a14cf10364, 0xa2bfe8a14cf10364);
    Cube512(41, 181, 5, 0xa81a664bbc423001, 0xa81a664bbc423001);
    Cube512(42, 191, 5, 0xc24b8b70d0f89791, 0xc24b8b70d0f89791);
    Cube512(43, 193, 5, 0xc76c51a30654be30, 0xc76c51a30654be30);
    Cube512(44, 197, 5, 0xd192e819d6ef5218, 0xd192e819d6ef5218);
    Cube512(45, 199, 5, 0xd69906245565a910, 0xd69906245565a910);
    Cube512(46, 211, 5, 0xf40e35855771202a, 0xf40e35855771202a);
    Cube512(47, 223, 6, 0x106aa07032bbd1b8, 0x106aa07032bbd1b8);
  }

  lemma Row512_6()
    ensures forall i :: 48 <= i < 56 ==> CubeFraction(ListedPrime(i), Sha512K()[i] as nat, TWO64)
  {
    hide CubeFraction;
    Cube512(48, 227, 6, 0x19a4c116b8d2d0c8, 0x19a4c116b8d2d0c8);
    Cube512(49, 229, 6, 0x1e376c085141ab53, 0x1e376c085141ab53);
    Cube512(50, 233, 6, 0x2748774cdf8eeb99, 0x2748774cdf8eeb99);
    Cube512(51, 239, 6, 0x34b0bcb5e19b48a8, 0x34b0bcb5e19b48a8);
    Cube512(52, 241, 6, 0x391c0cb3c5c95a63, 0x391c0cb3c5c95a63);
    Cube512(53, 251, 6, 0x4ed8aa4ae3418acb, 0x4ed8aa4ae3418acb);
    Cube512(54, 257, 6, 0x5b9cca4f7763e373, 0x5b9cca4f7763e373);
    Cube512(55, 263, 6, 0x682e6ff3d6b2b8a3, 0x682e6ff3d6b2b8a3);
  }

  lemma Row512_7()
    ensures forall i :: 56 <= i < 64 ==> CubeFraction(ListedPrime(i), Sha512K()[i] as nat, TWO64)
  {
    hide CubeFraction;
    Cube512(56, 269, 6, 0x748f82ee5defb2fc, 0x748f82ee5defb2fc);
    Cube512(57, 271, 6, 0x78a5636f43172f60, 0x78a5636f43172f60);
    Cube512(58, 277, 6, 0x84c87814a1f0ab72, 0x84c87814a1f0ab72);
    Cube512(59, 281, 6, 0x8cc702081a6439ec, 0x8cc702081a6439ec);
    Cube512(60, 283, 6, 0x90befffa23631e28, 0x90befffa23631e28);
    Cube512(61, 293, 6, 0xa4506cebde82bde9, 0xa4506cebde82bde9);
    Cube512(62, 307, 6, 0xbef9a3f7b2c67915, 0xbef9a3f7b2c67915);
    Cube512(63, 311, 6, 0xc67178f2e372532b, 0xc67178f2e372532b);
  }

  lemma Row512_8()
    ensures forall i :: 64 <= i < 72 ==> CubeFraction(ListedPrime(i), Sha512K()[i] as nat, TWO64)
  {
    hide CubeFraction;
    Cube512(64, 313, 6, 0xca273eceea26619c, 0xca273eceea26619c);
    Cube512(65, 317, 6, 0xd186b8c721c0c207, 0xd186b8c721c0c207);
    Cube512(66, 331, 6, 0xeada7dd6cde0eb1e, 0xeada7dd6cde0eb1e);
    Cube512(67, 337, 6, 0xf57d4f7fee6ed178, 0xf57d4f7fee6ed178);
    Cube512(68, 347, 7, 0x6f067aa72176fba, 0x6f067aa72176fba);
    Cube512(69, 349, 7, 0xa637dc5a2c898a6, 0xa637dc5a2c898a6);
    Cube512(70, 353, 7, 0x113f9804bef90dae, 0x113f9804bef90dae);
    Cube512(71, 359, 7, 0x1b710b35131c471b, 0x1b710b35131c471b);
  }

  lemma Row512_9()
    ensures forall i :: 72 <= i < 80 ==> CubeFraction(ListedPrime(i), Sha512K()[i] as nat, TWO64)
  {
    hide CubeFraction;
    Cube512(72, 367, 7, 0x28db77f523047d84, 0x28db77f523047d84);
    Cube512(73, 373, 7, 0x32caab7b40c72493, 0x32caab7b40c72493);
    Cube512(74, 379, 7, 0x3c9ebe0a15c9bebc, 0x3c9ebe0a15c9bebc);
    Cube512(75, 383, 7, 0x431d67c49c100d4c, 0x431d67c49c100d4c);
    Cube512(76, 389, 7, 0x4cc5d4becb3e42b6, 0x4cc5d4becb3e42b6);
    Cube512(77, 397, 7, 0x597f299cfc657e2a, 0x597f299cfc657e2a);
    Cube512(78, 401, 7, 0x5fcb6fab3ad6faec, 0x5fcb6fab3ad6faec);
    Cube512(79, 409, 7, 0x6c44198c4a475817, 0x6c44198c4a475817);
  }

  /** The round constants are fractions of the cube roots of the first 80 primes. */
  lemma RoundConstants512()
    ensures forall i :: 0 <= i < 80 ==> CubeFraction(ListedPrime(i), Sha512K()[i] as nat, TWO64)
  {
    hide CubeFraction, ListedPrime, Sha512K;
    Row512_0();
    Row512_1();
    Row512_2();
    Row512_3();
    Row512_4();
    Row512_5();
    Row512_6();
    Row512_7();
    Row512_8();
    Row512_9();
  }

  lemma Square256(i: nat, p: nat, a: nat, k: nat, w: bv32)
    requires i < 8 && ListedPrime(i) == p && SHA256_H0[i] == w && w as nat == k && SquareRoot(p, a, k, TWO32)
    ensures SquareFraction(ListedPrime(i), SHA256_H0[i] as nat, TWO32)
  {
    hide SquareRoot, ListedPrime;
  }

  /** The initial value of SHA-256: fractions of the square roots of the first eight primes. */
  lemma Initial256()
    ensures forall i :: 0 <= i < 8 ==> SquareFraction(ListedPrime(i), SHA256_H0[i] as nat, TWO32)
  {
    hide SquareFraction;
    Square256(0, 2, 1, 0x6a09e667, 0x6a09e667);
    Square256(1, 3, 1, 0xbb67ae85, 0xbb67ae85);
    Square256(2, 5, 2, 0x3c6ef372, 0x3c6ef372);
    Square256(3, 7, 2, 0xa54ff53a, 0xa54ff53a);
    Square256(4, 11, 3, 0x510e527f, 0x510e527f);
    Square256(5, 13, 3, 0x9b05688c, 0x9b05688c);
    Square256(6, 17, 4, 0x1f83d9ab, 0x1f83d9ab);
    Square256(7, 19, 4, 0x5be0cd19, 0x5be0cd19);
  }

  lemma Square512(i: nat, p: nat, a: nat, k: nat, w: bv64)
    requires i < 8 && ListedPrime(i) == p && SHA512_H0[i] == w && w as nat == k && SquareRoot(p, a, k, TWO64)
    ensures SquareFraction(ListedPrime(i), SHA512_H0[i] as nat, TWO64)
  {
    hide SquareRoot, ListedPrime;
  }

  /** The initial value of SHA-512: fractions of the square roots of the first eight primes. */
  lemma Initial512()
    ensures forall i :: 0 <= i < 8 ==> SquareFraction(ListedPrime(i), SHA512_H0[i] as nat, TWO64)
  {
    hide SquareFraction;
    Square512(0, 2, 1, 0x6a09e667f3bcc908, 0x6a09e667f3bcc908);
    Square512(1, 3, 1, 0xbb67ae8584caa73b, 0xbb67ae8584caa73b);
    Square512(2, 5, 2, 0x3c6ef372fe94f82b, 0x3c6ef372fe94f82b);
    Square512(3, 7, 2, 0xa54ff53a5f1d36f1, 0xa54ff53a5f1d36f1);
    Square512(4, 11, 3, 0x510e527fade682d1, 0x510e527fade682d1);
    Square512(5, 13, 3, 0x9b05688c2b3e6c1f, 0x9b05688c2b3e6c1f);
    Square512(6, 17, 4, 0x1f83d9abfb41bd6b, 0x1f83d9abfb41bd6b);
    Square512(7, 19, 4, 0x5be0cd19137e2179, 0x5be0cd19137e2179);
  }

  lemma Square384(i: nat, p: nat, a: nat, k: nat, w: bv64)
    requires i < 8 && ListedPrime(8 + i) == p && SHA384_H0[i] == w && w as nat == k && SquareRoot(p, a, k, TWO64)
    ensures SquareFraction(ListedPrime(8 + i), SHA384_H0[i] as nat, TWO64)
  {
    hide SquareRoot, ListedPrime;
  }

  /** The initial value of SHA-384: fractions of the square roots of the second eight primes. */
  lemma Initial384()
    ensures forall i :: 0 <= i < 8 ==> SquareFraction(ListedPrime(8 + i), SHA384_H0[i] as nat, TWO64)
  {
    hide SquareFraction;
    Square384(0, 23, 4, 0xcbbb9d5dc1059ed8, 0xcbbb9d5dc1059ed8);
    Square384(1, 29, 5, 0x629a292a367cd507, 0x629a292a367cd507);
    Square384(2, 31, 5, 0x9159015a3070dd17, 0x9159015a3070dd17);
    Square384(3, 37, 6, 0x152fecd8f70e5939, 0x152fecd8f70e5939);
    Square384(4, 41, 6, 0x67332667ffc00b31, 0x67332667ffc00b31);
    Square384(5, 43, 6, 0x8eb44a8768581511, 0x8eb44a8768581511);
    Square384(6, 47, 6, 0xdb0c2e0d64f98fa7, 0xdb0c2e0d64f98fa7);
    Square384(7, 53, 7, 0x47b5481dbefa4fa4, 0x47b5481dbefa4fa4);
  }

  /** That of SHA-224: the second 32 bits of the fractions that SHA-384 begins with. */
  lemma Initial224()
    ensures forall i :: 0 <= i < 8 ==> SHA224_H0[i] as bv64 == SHA384_H0[i] & 0xFFFF_FFFF
  {
  }
}
