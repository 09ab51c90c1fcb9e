// Where the constants of SHA-256 come from (sections 4.2.2 and 5.3.3 of FIPS 180-4): the
// fractional parts of the cube and square roots of the first primes.

module Fips180Constants {
  import opened Arithmetic
  import opened Common
  import opened Sha256

  // ------------------------------------------------------------ where the constants come from

  predicate Prime(n: nat) {
    n >= 2 && forall d :: 2 <= d < n ==> n % d != 0
  }

  // The first 64 primes.
  const PRIMES: seq<nat> :=
    [2, 3, 5, 7, 11, 13, 17, 19, 23, 29, 31, 37, 41, 43, 47, 53] +
    [59, 61, 67, 71, 73, 79, 83, 89, 97, 101, 103, 107, 109, 113, 127, 131] +
    [137, 139, 149, 151, 157, 163, 167, 173, 179, 181, 191, 193, 197, 199, 211, 223] +
    [227, 229, 233, 239, 241, 251, 257, 263, 269, 271, 277, 281, 283, 293, 307, 311]

  // A number below 19^2 without a small divisor is prime.
  predicate Sifted(n: nat) {
    && n >= 2
    && (n > 2 ==> n % 2 != 0) && (n > 3 ==> n % 3 != 0) && (n > 5 ==> n % 5 != 0) && (n > 7 ==> n % 7 != 0)
    && (n > 11 ==> n % 11 != 0) && (n > 13 ==> n % 13 != 0) && (n > 17 ==> n % 17 != 0)
  }

  lemma {:induction false} LeastDivisor(n: nat, d: nat) returns (p: nat)
    requires 2 <= d < n && n % d == 0
    ensures 2 <= p <= d && n % p == 0 && Prime(p)
    decreases d
  {
    if Prime(d) {
      p := d;
    } else {
      var e :| 2 <= e < d && d % e == 0;
      Divides(n, d, e);
      p := LeastDivisor(n, e);
    }
  }

  lemma Divides(n: nat, d: nat, e: nat)
    requires d > 0 && e > 0 && n % d == 0 && d % e == 0
    ensures n % e == 0
  {
    var q, r := n / d, d / e;
    assert n == d * q && d == e * r;
    assert n == (q * r) * e + 0;
    Divide(n, e, q * r, 0);
  }

  lemma Product(d: nat, q: nat)
    requires d >= 19 && q >= 19
    ensures d * q >= 361
  {
    assert (d - 19) * (q - 19) >= 0;
  }

  // One of two factors of a number below 19^2 is below 19.
  lemma SmallDivisor(n: nat, d: nat) returns (e: nat)
    requires 2 <= d < n < 361 && n % d == 0
    ensures 2 <= e < 19 && e < n && n % e == 0
  {
    var q := n / d;
    assert n == d * q;
    if d < 19 {
      e := d;
    } else {
      if q >= 19 {
        Product(d, q);
        assert false;
      }
      assert q >= 2;
      e := q;
      assert n == d * q + 0;
      Divide(n, q, d, 0);
      assert q < d;
    }
  }

  lemma SmallPrimes(p: nat)
    requires Prime(p) && p < 19
    ensures p in {2, 3, 5, 7, 11, 13, 17}
  {
    assert p > 2 ==> p % 2 != 0;
    assert p > 3 ==> p % 3 != 0;
  }

  lemma SiftedIsPrime(n: nat)
    requires n < 361
    ensures Prime(n) <==> Sifted(n)
  {
    if Sifted(n) && !Prime(n) {
      var d :| 2 <= d < n && n % d == 0;
      var e := SmallDivisor(n, d);
      var p := LeastDivisor(n, e);
      SmallPrimes(p);
      assert false;
    }
  }

  lemma Sieve0To13(n: nat)
    requires 0 <= n <= 13 && Sifted(n)
    ensures n in {2, 3, 5, 7, 11, 13}
  {
  }

  lemma Primes0To6(n: nat)
    ensures forall t :: 0 <= t < 6 ==> Sifted(PRIMES[t]) && PRIMES[t] <= 311 && (t < 63 ==> PRIMES[t] < PRIMES[t + 1])
    ensures n in {2, 3, 5, 7, 11, 13} ==> n in PRIMES
  {
    assert PRIMES[0] == 2 && PRIMES[1] == 3 && PRIMES[2] == 5 && PRIMES[3] == 7;
    assert PRIMES[4] == 11 && PRIMES[5] == 13;
    assert PRIMES[6] == 17;
  }

  lemma Sieve14To37(n: nat)
    requires 14 <= n <= 37 && Sifted(n)
    ensures n in {17, 19, 23, 29, 31, 37}
  {
  }

  lemma Primes6To12(n: nat)
    ensures forall t :: 6 <= t < 12 ==> Sifted(PRIMES[t]) && PRIMES[t] <= 311 && (t < 63 ==> PRIMES[t] < PRIMES[t + 1])
    ensures n in {17, 19, 23, 29, 31, 37} ==> n in PRIMES
  {
    assert PRIMES[6] == 17 && PRIMES[7] == 19 && PRIMES[8] == 23 && PRIMES[9] == 29;
    assert PRIMES[10] == 31 && PRIMES[11] == 37;
    assert PRIMES[12] == 41;
  }

  lemma Sieve38To53(n: nat)
    requires 38 <= n <= 53 && Sifted(n)
    ensures n in {41, 43, 47, 53}
  {
  }

  lemma Primes12To16(n: nat)
    ensures forall t :: 12 <= t < 16 ==> Sifted(PRIMES[t]) && PRIMES[t] <= 311 && (t < 63 ==> PRIMES[t] < PRIMES[t + 1])
    ensures n in {41, 43, 47, 53} ==> n in PRIMES
  {
    assert PRIMES[12] == 41 && PRIMES[13] == 43 && PRIMES[14] == 47 && PRIMES[15] == 53;
    assert PRIMES[16] == 59;
  }

  lemma Sieve54To71(n: nat)
    requires 54 <= n <= 71 && Sifted(n)
    ensures n in {59, 61, 67, 71}
  {
  }

  lemma Primes16To20(n: nat)
    ensures forall t :: 16 <= t < 20 ==> Sifted(PRIMES[t]) && PRIMES[t] <= 311 && (t < 63 ==> PRIMES[t] < PRIMES[t + 1])
    ensures n in {59, 61, 67, 71} ==> n in PRIMES
  {
    assert PRIMES[16] == 59 && PRIMES[17] == 61 && PRIMES[18] == 67 && PRIMES[19] == 71;
    assert PRIMES[20] == 73;
  }

  lemma Sieve72To89(n: nat)
    requires 72 <= n <= 89 && Sifted(n)
    ensures n in {73, 79, 83, 89}
  {
  }

  lemma Primes20To24(n: nat)
    ensures forall t :: 20 <= t < 24 ==> Sifted(PRIMES[t]) && PRIMES[t] <= 311 && (t < 63 ==> PRIMES[t] < PRIMES[t + 1])
    ensures n in {73, 79, 83, 89} ==> n in PRIMES
  {
    assert PRIMES[20] == 73 && PRIMES[21] == 79 && PRIMES[22] == 83 && PRIMES[23] == 89;
    assert PRIMES[24] == 97;
  }

  lemma Sieve90To107(n: nat)
    requires 90 <= n <= 107 && Sifted(n)
    ensures n in {97, 101, 103, 107}
  {
  }

  lemma Primes24To28(n: nat)
    ensures forall t :: 24 <= t < 28 ==> Sifted(PRIMES[t]) && PRIMES[t] <= 311 && (t < 63 ==> PRIMES[t] < PRIMES[t + 1])
    ensures n in {97, 101, 103, 107} ==> n in PRIMES
  {
    assert PRIMES[24] == 97 && PRIMES[25] == 101 && PRIMES[26] == 103 && PRIMES[27] == 107;
    assert PRIMES[28] == 109;
  }

  lemma Sieve108To131(n: nat)
    requires 108 <= n <= 131 && Sifted(n)
    ensures n in {109, 113, 127, 131}
  {
  }

  lemma Primes28To32(n: nat)
    ensures forall t :: 28 <= t < 32 ==> Sifted(PRIMES[t]) && PRIMES[t] <= 311 && (t < 63 ==> PRIMES[t] < PRIMES[t + 1])
    ensures n in {109, 113, 127, 131} ==> n in PRIMES
  {
    assert PRIMES[28] == 109 && PRIMES[29] == 113 && PRIMES[30] == 127 && PRIMES[31] == 131;
    assert PRIMES[32] == 137;
  }

  lemma Sieve132To151(n: nat)
    requires 132 <= n <= 151 && Sifted(n)
    ensures n in {137, 139, 149, 151}
  {
  }

  lemma Primes32To36(n: nat)
    ensures forall t :: 32 <= t < 36 ==> Sifted(PRIMES[t]) && PRIMES[t] <= 311 && (t < 63 ==> PRIMES[t] < PRIMES[t + 1])
    ensures n in {137, 139, 149, 151} ==> n in PRIMES
  {
    assert PRIMES[32] == 137 && PRIMES[33] == 139 && PRIMES[34] == 149 && PRIMES[35] == 151;
    assert PRIMES[36] == 157;
  }

  lemma Sieve152To173(n: nat)
    requires 152 <= n <= 173 && Sifted(n)
    ensures n in {157, 163, 167, 173}
  {
  }

  lemma Primes36To40(n: nat)
    ensures forall t :: 36 <= t < 40 ==> Sifted(PRIMES[t]) && PRIMES[t] <= 311 && (t < 63 ==> PRIMES[t] < PRIMES[t + 1])
    ensures n in {157, 163, 167, 173} ==> n in PRIMES
  {
    assert PRIMES[36] == 157 && PRIMES[37] == 163 && PRIMES[38] == 167 && PRIMES[39] == 173;
    assert PRIMES[40] == 179;
  }

  lemma Sieve174To193(n: nat)
    requires 174 <= n <= 193 && Sifted(n)
    ensures n in {179, 181, 191, 193}
  {
  }

  lemma Primes40To44(n: nat)
    ensures forall t :: 40 <= t < 44 ==> Sifted(PRIMES[t]) && PRIMES[t] <= 311 && (t < 63 ==> PRIMES[t] < PRIMES[t + 1])
    ensures n in {179, 181, 191, 193} ==> n in PRIMES
  {
    assert PRIMES[40] == 179 && PRIMES[41] == 181 && PRIMES[42] == 191 && PRIMES[43] == 193;
    assert PRIMES[44] == 197;
  }

  lemma Sieve194To223(n: nat)
    requires 194 <= n <= 223 && Sifted(n)
    ensures n in {197, 199, 211, 223}
  {
  }

  lemma Primes44To48(n: nat)
    ensures forall t :: 44 <= t < 48 ==> Sifted(PRIMES[t]) && PRIMES[t] <= 311 && (t < 63 ==> PRIMES[t] < PRIMES[t + 1])
    ensures n in {197, 199, 211, 223} ==> n in PRIMES
  {
    assert PRIMES[44] == 197 && PRIMES[45] == 199 && PRIMES[46] == 211 && PRIMES[47] == 223;
    assert PRIMES[48] == 227;
  }

  lemma Sieve224To239(n: nat)
    requires 224 <= n <= 239 && Sifted(n)
    ensures n in {227, 229, 233, 239}
  {
  }

  lemma Primes48To52(n: nat)
    ensures forall t :: 48 <= t < 52 ==> Sifted(PRIMES[t]) && PRIMES[t] <= 311 && (t < 63 ==> PRIMES[t] < PRIMES[t + 1])
    ensures n in {227, 229, 233, 239} ==> n in PRIMES
  {
    assert PRIMES[48] == 227 && PRIMES[49] == 229 && PRIMES[50] == 233 && PRIMES[51] == 239;
    assert PRIMES[52] == 241;
  }

  lemma Sieve240To263(n: nat)
    requires 240 <= n <= 263 && Sifted(n)
    ensures n in {241, 251, 257, 263}
  {
  }

  lemma Primes52To56(n: nat)
    ensures forall t :: 52 <= t < 56 ==> Sifted(PRIMES[t]) && PRIMES[t] <= 311 && (t < 63 ==> PRIMES[t] < PRIMES[t + 1])
    ensures n in {241, 251, 257, 263} ==> n in PRIMES
  {
    assert PRIMES[52] == 241 && PRIMES[53] == 251 && PRIMES[54] == 257 && PRIMES[55] == 263;
    assert PRIMES[56] == 269;
  }

  lemma Sieve264To281(n: nat)
    requires 264 <= n <= 281 && Sifted(n)
    ensures n in {269, 271, 277, 281}
  {
  }

  lemma Primes56To60(n: nat)
    ensures forall t :: 56 <= t < 60 ==> Sifted(PRIMES[t]) && PRIMES[t] <= 311 && (t < 63 ==> PRIMES[t] < PRIMES[t + 1])
    ensures n in {269, 271, 277, 281} ==> n in PRIMES
  {
    assert PRIMES[56] == 269 && PRIMES[57] == 271 && PRIMES[58] == 277 && PRIMES[59] == 281;
    assert PRIMES[60] == 283;
  }

  lemma Sieve282To311(n: nat)
    requires 282 <= n <= 311 && Sifted(n)
    ensures n in {283, 293, 307, 311}
  {
  }

  lemma Primes60To64(n: nat)
    ensures forall t :: 60 <= t < 64 ==> Sifted(PRIMES[t]) && PRIMES[t] <= 311 && (t < 63 ==> PRIMES[t] < PRIMES[t + 1])
    ensures n in {283, 293, 307, 311} ==> n in PRIMES
  {
    assert PRIMES[60] == 283 && PRIMES[61] == 293 && PRIMES[62] == 307 && PRIMES[63] == 311;
  }

  lemma NoneLeftOut(n: nat)
    requires n <= 311 && Sifted(n)
    ensures n in PRIMES
  {
    hide Sifted;
    if n <= 13 {
      Sieve0To13(n);
      Primes0To6(n);
    } else if n <= 37 {
      Sieve14To37(n);
      Primes6To12(n);
    } else if n <= 53 {
      Sieve38To53(n);
      Primes12To16(n);
    } else if n <= 71 {
      Sieve54To71(n);
      Primes16To20(n);
    } else if n <= 89 {
      Sieve72To89(n);
      Primes20To24(n);
    } else if n <= 107 {
      Sieve90To107(n);
      Primes24To28(n);
    } else if n <= 131 {
      Sieve108To131(n);
      Primes28To32(n);
    } else if n <= 151 {
      Sieve132To151(n);
      Primes32To36(n);
    } else if n <= 173 {
      Sieve152To173(n);
      Primes36To40(n);
    } else if n <= 193 {
      Sieve174To193(n);
      Primes40To44(n);
    } else if n <= 223 {
      Sieve194To223(n);
      Primes44To48(n);
    } else if n <= 239 {
      Sieve224To239(n);
      Primes48To52(n);
    } else if n <= 263 {
      Sieve240To263(n);
      Primes52To56(n);
    } else if n <= 281 {
      Sieve264To281(n);
      Primes56To60(n);
    } else {
      Sieve282To311(n);
      Primes60To64(n);
    }
  }

  lemma TableEntry(t: nat)
    requires t < 64
    ensures |PRIMES| == 64
    ensures Sifted(PRIMES[t]) && PRIMES[t] <= 311 && (t < 63 ==> PRIMES[t] < PRIMES[t + 1])
  {
    hide Sifted;
    if t < 6 {
      Primes0To6(0);
    } else if t < 12 {
      Primes6To12(0);
    } else if t < 16 {
      Primes12To16(0);
    } else if t < 20 {
      Primes16To20(0);
    } else if t < 24 {
      Primes20To24(0);
    } else if t < 28 {
      Primes24To28(0);
    } else if t < 32 {
      Primes28To32(0);
    } else if t < 36 {
      Primes32To36(0);
    } else if t < 40 {
      Primes36To40(0);
    } else if t < 44 {
      Primes40To44(0);
    } else if t < 48 {
      Primes44To48(0);
    } else if t < 52 {
      Primes48To52(0);
    } else if t < 56 {
      Primes52To56(0);
    } else if t < 60 {
      Primes56To60(0);
    } else {
      Primes60To64(0);
    }
  }

  // They are the first primes: in order, and none is left out.
  lemma PrimesAreTheFirst()
    ensures |PRIMES| == 64 && forall i, j :: 0 <= i < j < 64 ==> PRIMES[i] < PRIMES[j]
    ensures forall n: nat :: n <= PRIMES[63] ==> (Prime(n) <==> n in PRIMES)
  {
    hide Sifted, Prime;
    forall t: nat | t < 64
      ensures Sifted(PRIMES[t]) && PRIMES[t] <= 311 && (t < 63 ==> PRIMES[t] < PRIMES[t + 1])
    {
      TableEntry(t);
    }
    assert PRIMES[63] == 311;
    forall n: nat | n <= PRIMES[63]
      ensures Prime(n) <==> n in PRIMES
    {
      SiftedIsPrime(n);
      if Sifted(n) {
        NoneLeftOut(n);
      }
    }
    forall i, j | 0 <= i < j < 64
      ensures PRIMES[i] < PRIMES[j]
    {
      Ascends(i, j);
    }
  }

  lemma {:induction false} Ascends(i: nat, j: nat)
    requires i < j < 64 && |PRIMES| == 64 && forall t :: 0 <= t < 63 ==> PRIMES[t] < PRIMES[t + 1]
    ensures PRIMES[i] < PRIMES[j]
  {
    if i + 1 < j {
      Ascends(i, j - 1);
    }
  }

  // k is the first 32 bits of the fractional part of the cube root of p.
  ghost predicate CubeRootFraction(k: nat, p: nat) {
    k < 0x1_0000_0000 && exists c: nat :: CubeBelow(0x1_0000_0000 * c + k, p)
  }

  predicate CubeBelow(r: nat, p: nat) {
    r * r * r <= p * 0x1_0000_0000_0000_0000_0000_0000 < (r + 1) * (r + 1) * (r + 1)
  }

  // The same of the square root.
  ghost predicate SquareRootFraction(k: nat, p: nat) {
    k < 0x1_0000_0000 && exists c: nat :: SquareBelow(0x1_0000_0000 * c + k, p)
  }

  predicate SquareBelow(r: nat, p: nat) {
    r * r <= p * 0x1_0000_0000_0000_0000 < (r + 1) * (r + 1)
  }

  lemma Constants0To6()
    ensures forall t :: 0 <= t < 6 ==> CubeRootFraction(K[t], PRIMES[t])
  {
    assert K[0] == 0x428a2f98 && PRIMES[0] == 2 && CubeBelow(0x1_0000_0000 * 1 + 0x428a2f98, 2);
    assert K[1] == 0x71374491 && PRIMES[1] == 3 && CubeBelow(0x1_0000_0000 * 1 + 0x71374491, 3);
    assert K[2] == 0xb5c0fbcf && PRIMES[2] == 5 && CubeBelow(0x1_0000_0000 * 1 + 0xb5c0fbcf, 5);
    assert K[3] == 0xe9b5dba5 && PRIMES[3] == 7 && CubeBelow(0x1_0000_0000 * 1 + 0xe9b5dba5, 7);
    assert K[4] == 0x3956c25b && PRIMES[4] == 11 && CubeBelow(0x1_0000_0000 * 2 + 0x3956c25b, 11);
    assert K[5] == 0x59f111f1 && PRIMES[5] == 13 && CubeBelow(0x1_0000_0000 * 2 + 0x59f111f1, 13);
  }

  lemma Constants6To12()
    ensures forall t :: 6 <= t < 12 ==> CubeRootFraction(K[t], PRIMES[t])
  {
    assert K[6] == 0x923f82a4 && PRIMES[6] == 17 && CubeBelow(0x1_0000_0000 * 2 + 0x923f82a4, 17);
    assert K[7] == 0xab1c5ed5 && PRIMES[7] == 19 && CubeBelow(0x1_0000_0000 * 2 + 0xab1c5ed5, 19);
    assert K[8] == 0xd807aa98 && PRIMES[8] == 23 && CubeBelow(0x1_0000_0000 * 2 + 0xd807aa98, 23);
    assert K[9] == 0x12835b01 && PRIMES[9] == 29 && CubeBelow(0x1_0000_0000 * 3 + 0x12835b01, 29);
    assert K[10] == 0x243185be && PRIMES[10] == 31 && CubeBelow(0x1_0000_0000 * 3 + 0x243185be, 31);
    assert K[11] == 0x550c7dc3 && PRIMES[11] == 37 && CubeBelow(0x1_0000_0000 * 3 + 0x550c7dc3, 37);
  }

  lemma Constants12To16()
    ensures forall t :: 12 <= t < 16 ==> CubeRootFraction(K[t], PRIMES[t])
  {
    assert K[12] == 0x72be5d74 && PRIMES[12] == 41 && CubeBelow(0x1_0000_0000 * 3 + 0x72be5d74, 41);
    assert K[13] == 0x80deb1fe && PRIMES[13] == 43 && CubeBelow(0x1_0000_0000 * 3 + 0x80deb1fe, 43);
    assert K[14] == 0x9bdc06a7 && PRIMES[14] == 47 && CubeBelow(0x1_0000_0000 * 3 + 0x9bdc06a7, 47);
    assert K[15] == 0xc19bf174 && PRIMES[15] == 53 && CubeBelow(0x1_0000_0000 * 3 + 0xc19bf174, 53);
  }

  lemma Constants16To20()
    ensures forall t :: 16 <= t < 20 ==> CubeRootFraction(K[t], PRIMES[t])
  {
    assert K[16] == 0xe49b69c1 && PRIMES[16] == 59 && CubeBelow(0x1_0000_0000 * 3 + 0xe49b69c1, 59);
    assert K[17] == 0xefbe4786 && PRIMES[17] == 61 && CubeBelow(0x1_0000_0000 * 3 + 0xefbe4786, 61);
    assert K[18] == 0x0fc19dc6 && PRIMES[18] == 67 && CubeBelow(0x1_0000_0000 * 4 + 0x0fc19dc6, 67);
    assert K[19] == 0x240ca1cc && PRIMES[19] == 71 && CubeBelow(0x1_0000_0000 * 4 + 0x240ca1cc, 71);
  }

  lemma Constants20To24()
    ensures forall t :: 20 <= t < 24 ==> CubeRootFraction(K[t], PRIMES[t])
  {
    assert K[20] == 0x2de92c6f && PRIMES[20] == 73 && CubeBelow(0x1_0000_0000 * 4 + 0x2de92c6f, 73);
    assert K[21] == 0x4a7484aa && PRIMES[21] == 79 && CubeBelow(0x1_0000_0000 * 4 + 0x4a7484aa, 79);
    assert K[22] == 0x5cb0a9dc && PRIMES[22] == 83 && CubeBelow(0x1_0000_0000 * 4 + 0x5cb0a9dc, 83);
    assert K[23] == 0x76f988da && PRIMES[23] == 89 && CubeBelow(0x1_0000_0000 * 4 + 0x76f988da, 89);
  }

  lemma Constants24To28()
    ensures forall t :: 24 <= t < 28 ==> CubeRootFraction(K[t], PRIMES[t])
  {
    assert K[24] == 0x983e5152 && PRIMES[24] == 97 && CubeBelow(0x1_0000_0000 * 4 + 0x983e5152, 97);
    assert K[25] == 0xa831c66d && PRIMES[25] == 101 && CubeBelow(0x1_0000_0000 * 4 + 0xa831c66d, 101);
    assert K[26] == 0xb00327c8 && PRIMES[26] == 103 && CubeBelow(0x1_0000_0000 * 4 + 0xb00327c8, 103);
    assert K[27] == 0xbf597fc7 && PRIMES[27] == 107 && CubeBelow(0x1_0000_0000 * 4 + 0xbf597fc7, 107);
  }

  lemma Constants28To32()
    ensures forall t :: 28 <= t < 32 ==> CubeRootFraction(K[t], PRIMES[t])
  {
    assert K[28] == 0xc6e00bf3 && PRIMES[28] == 109 && CubeBelow(0x1_0000_0000 * 4 + 0xc6e00bf3, 109);
    assert K[29] == 0xd5a79147 && PRIMES[29] == 113 && CubeBelow(0x1_0000_0000 * 4 + 0xd5a79147, 113);
    assert K[30] == 0x06ca6351 && PRIMES[30] == 127 && CubeBelow(0x1_0000_0000 * 5 + 0x06ca6351, 127);
    assert K[31] == 0x14292967 && PRIMES[31] == 131 && CubeBelow(0x1_0000_0000 * 5 + 0x14292967, 131);
  }

  lemma Constants32To36()
    ensures forall t :: 32 <= t < 36 ==> CubeRootFraction(K[t], PRIMES[t])
  {
    assert K[32] == 0x27b70a85 && PRIMES[32] == 137 && CubeBelow(0x1_0000_0000 * 5 + 0x27b70a85, 137);
    assert K[33] == 0x2e1b2138 && PRIMES[33] == 139 && CubeBelow(0x1_0000_0000 * 5 + 0x2e1b2138, 139);
    assert K[34] == 0x4d2c6dfc && PRIMES[34] == 149 && CubeBelow(0x1_0000_0000 * 5 + 0x4d2c6dfc, 149);
    assert K[35] == 0x53380d13 && PRIMES[35] == 151 && CubeBelow(0x1_0000_0000 * 5 + 0x53380d13, 151);
  }

  lemma Constants36To40()
    ensures forall t :: 36 <= t < 40 ==> CubeRootFraction(K[t], PRIMES[t])
  {
    assert K[36] == 0x650a7354 && PRIMES[36] == 157 && CubeBelow(0x1_0000_0000 * 5 + 0x650a7354, 157);
    assert K[37] == 0x766a0abb && PRIMES[37] == 163 && CubeBelow(0x1_0000_0000 * 5 + 0x766a0abb, 163);
    assert K[38] == 0x81c2c92e && PRIMES[38] == 167 && CubeBelow(0x1_0000_0000 * 5 + 0x81c2c92e, 167);
    assert K[39] == 0x92722c85 && PRIMES[39] == 173 && CubeBelow(0x1_0000_0000 * 5 + 0x92722c85, 173);
  }

  lemma Constants40To44()
    ensures forall t :: 40 <= t < 44 ==> CubeRootFraction(K[t], PRIMES[t])
  {
    assert K[40] == 0xa2bfe8a1 && PRIMES[40] == 179 && CubeBelow(0x1_0000_0000 * 5 + 0xa2bfe8a1, 179);
    assert K[41] == 0xa81a664b && PRIMES[41] == 181 && CubeBelow(0x1_0000_0000 * 5 + 0xa81a664b, 181);
    assert K[42] == 0xc24b8b70 && PRIMES[42] == 191 && CubeBelow(0x1_0000_0000 * 5 + 0xc24b8b70, 191);
    assert K[43] == 0xc76c51a3 && PRIMES[43] == 193 && CubeBelow(0x1_0000_0000 * 5 + 0xc76c51a3, 193);
  }

  lemma Constants44To48()
    ensures forall t :: 44 <= t < 48 ==> CubeRootFraction(K[t], PRIMES[t])
  {
    assert K[44] == 0xd192e819 && PRIMES[44] == 197 && CubeBelow(0x1_0000_0000 * 5 + 0xd192e819, 197);
    assert K[45] == 0xd6990624 && PRIMES[45] == 199 && CubeBelow(0x1_0000_0000 * 5 + 0xd6990624, 199);
    assert K[46] == 0xf40e3585 && PRIMES[46] == 211 && CubeBelow(0x1_0000_0000 * 5 + 0xf40e3585, 211);
    assert K[47] == 0x106aa070 && PRIMES[47] == 223 && CubeBelow(0x1_0000_0000 * 6 + 0x106aa070, 223);
  }

  lemma Constants48To52()
    ensures forall t :: 48 <= t < 52 ==> CubeRootFraction(K[t], PRIMES[t])
  {
    assert K[48] == 0x19a4c116 && PRIMES[48] == 227 && CubeBelow(0x1_0000_0000 * 6 + 0x19a4c116, 227);
    assert K[49] == 0x1e376c08 && PRIMES[49] == 229 && CubeBelow(0x1_0000_0000 * 6 + 0x1e376c08, 229);
    assert K[50] == 0x2748774c && PRIMES[50] == 233 && CubeBelow(0x1_0000_0000 * 6 + 0x2748774c, 233);
    assert K[51] == 0x34b0bcb5 && PRIMES[51] == 239 && CubeBelow(0x1_0000_0000 * 6 + 0x34b0bcb5, 239);
  }

  lemma Constants52To56()
    ensures forall t :: 52 <= t < 56 ==> CubeRootFraction(K[t], PRIMES[t])
  {
    assert K[52] == 0x391c0cb3 && PRIMES[52] == 241 && CubeBelow(0x1_0000_0000 * 6 + 0x391c0cb3, 241);
    assert K[53] == 0x4ed8aa4a && PRIMES[53] == 251 && CubeBelow(0x1_0000_0000 * 6 + 0x4ed8aa4a, 251);
    assert K[54] == 0x5b9cca4f && PRIMES[54] == 257 && CubeBelow(0x1_0000_0000 * 6 + 0x5b9cca4f, 257);
    assert K[55] == 0x682e6ff3 && PRIMES[55] == 263 && CubeBelow(0x1_0000_0000 * 6 + 0x682e6ff3, 263);
  }

  lemma Constants56To60()
    ensures forall t :: 56 <= t < 60 ==> CubeRootFraction(K[t], PRIMES[t])
  {
    assert K[56] == 0x748f82ee && PRIMES[56] == 269 && CubeBelow(0x1_0000_0000 * 6 + 0x748f82ee, 269);
    assert K[57] == 0x78a5636f && PRIMES[57] == 271 && CubeBelow(0x1_0000_0000 * 6 + 0x78a5636f, 271);
    assert K[58] == 0x84c87814 && PRIMES[58] == 277 && CubeBelow(0x1_0000_0000 * 6 + 0x84c87814, 277);
    assert K[59] == 0x8cc70208 && PRIMES[59] == 281 && CubeBelow(0x1_0000_0000 * 6 + 0x8cc70208, 281);
  }

  lemma Constants60To64()
    ensures forall t :: 60 <= t < 64 ==> CubeRootFraction(K[t], PRIMES[t])
  {
    assert K[60] == 0x90befffa && PRIMES[60] == 283 && CubeBelow(0x1_0000_0000 * 6 + 0x90befffa, 283);
    assert K[61] == 0xa4506ceb && PRIMES[61] == 293 && CubeBelow(0x1_0000_0000 * 6 + 0xa4506ceb, 293);
    assert K[62] == 0xbef9a3f7 && PRIMES[62] == 307 && CubeBelow(0x1_0000_0000 * 6 + 0xbef9a3f7, 307);
    assert K[63] == 0xc67178f2 && PRIMES[63] == 311 && CubeBelow(0x1_0000_0000 * 6 + 0xc67178f2, 311);
  }

  // Section 4.2.2.
  lemma ConstantsAreCubeRoots(t: nat)
    requires t < 64
    ensures |K| == |PRIMES| == 64 && CubeRootFraction(K[t], PRIMES[t])
  {
    hide CubeRootFraction;
    if t < 6 {
      Constants0To6();
    } else if t < 12 {
      Constants6To12();
    } else if t < 16 {
      Constants12To16();
    } else if t < 20 {
      Constants16To20();
    } else if t < 24 {
      Constants20To24();
    } else if t < 28 {
      Constants24To28();
    } else if t < 32 {
      Constants28To32();
    } else if t < 36 {
      Constants32To36();
    } else if t < 40 {
      Constants36To40();
    } else if t < 44 {
      Constants40To44();
    } else if t < 48 {
      Constants44To48();
    } else if t < 52 {
      Constants48To52();
    } else if t < 56 {
      Constants52To56();
    } else if t < 60 {
      Constants56To60();
    } else {
      Constants60To64();
    }
  }

  // Section 5.3.3.
  lemma InitialValuesAreSquareRoots(i: nat)
    requires i < 8
    ensures |IV| == 8 && SquareRootFraction(IV[i], PRIMES[i])
  {
    assert IV[0] == 0x6a09e667 && PRIMES[0] == 2 && SquareBelow(0x1_0000_0000 * 1 + 0x6a09e667, 2);
    assert IV[1] == 0xbb67ae85 && PRIMES[1] == 3 && SquareBelow(0x1_0000_0000 * 1 + 0xbb67ae85, 3);
    assert IV[2] == 0x3c6ef372 && PRIMES[2] == 5 && SquareBelow(0x1_0000_0000 * 2 + 0x3c6ef372, 5);
    assert IV[3] == 0xa54ff53a && PRIMES[3] == 7 && SquareBelow(0x1_0000_0000 * 2 + 0xa54ff53a, 7);
    assert IV[4] == 0x510e527f && PRIMES[4] == 11 && SquareBelow(0x1_0000_0000 * 3 + 0x510e527f, 11);
    assert IV[5] == 0x9b05688c && PRIMES[5] == 13 && SquareBelow(0x1_0000_0000 * 3 + 0x9b05688c, 13);
    assert IV[6] == 0x1f83d9ab && PRIMES[6] == 17 && SquareBelow(0x1_0000_0000 * 4 + 0x1f83d9ab, 17);
    assert IV[7] == 0x5be0cd19 && PRIMES[7] == 19 && SquareBelow(0x1_0000_0000 * 4 + 0x5be0cd19, 19);
  }
}
