// Division with remainder, as the layouts and the packed tokens need it.

module Arithmetic {
  lemma Multiples(d: int, x: int)
    requires d > 0 && x != 0
    ensures d * x >= d || d * x <= -d
  {
    if x > 0 {
      assert d * (x - 1) >= 0;
    } else {
      assert d * (-x - 1) >= 0;
    }
  }

  // Quotient and remainder are what they have to be.
  lemma Divide(n: nat, d: nat, q: nat, r: nat)
    requires r < d && n == q * d + r
    ensures n / d == q && n % d == r
  {
    var p := n / d;
    assert n == d * p + n % d;
    assert d * (p - q) == r - n % d;
    if p != q {
      Multiples(d, p - q);
    }
  }
}
