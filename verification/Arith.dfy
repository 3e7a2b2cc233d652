/** Facts about multiplication and division by a variable. */
module Arith {

  lemma MulMonotone(a: int, b: int, d: nat)
    requires a <= b
    ensures a * d <= b * d
  {
    assert b * d - a * d == (b - a) * d;
  }

  lemma DivModUnique(n: nat, d: nat, q: int, r: int)
    requires 0 <= r < d
    requires n == q * d + r
    ensures n / d == q && n % d == r
  {
    var q', r' := n / d, n % d;
    assert n == q' * d + r' && 0 <= r' < d;
    if q' < q {
      MulMonotone(q' + 1, q, d);
      assert false;
    } else if q < q' {
      MulMonotone(q + 1, q', d);
      assert false;
    }
  }

  /** A quotient is at least q as soon as q copies of the divisor fit. */
  lemma QuotientAtLeast(n: nat, d: nat, q: int)
    requires d > 0 && q * d <= n
    ensures q <= n / d
  {
    assert n == (n / d) * d + n % d;
    if n / d < q {
      MulMonotone(n / d + 1, q, d);
      assert false;
    }
  }

  /** Rounding down is superadditive. */
  lemma QuotientsAdd(a: nat, b: nat, d: nat)
    requires d > 0
    ensures a / d + b / d <= (a + b) / d
  {
    assert (a / d) * d <= a && (b / d) * d <= b;
    assert (a / d + b / d) * d == (a / d) * d + (b / d) * d;
    QuotientAtLeast(a + b, d, a / d + b / d);
  }

  lemma QuotientMonotone(a: nat, b: nat, d: nat)
    requires d > 0 && a <= b
    ensures a / d <= b / d
  {
    assert (a / d) * d <= a;
    QuotientAtLeast(b, d, a / d);
  }

  lemma QuotientPlusOne(a: nat, d: nat)
    requires d > 0
    ensures (a + d) / d == a / d + 1
  {
    assert a == (a / d) * d + a % d;
    assert a + d == (a / d + 1) * d + a % d;
    DivModUnique(a + d, d, a / d + 1, a % d);
  }
}
