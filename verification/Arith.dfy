/** Small facts about multiplication, division and remainder. */
module Arith {

  lemma MulMonotone(n: nat, a: nat, b: nat)
    requires a <= b
    ensures n * a <= n * b
    ensures n > 0 && a < b ==> n * a < n * b
  {
    assert n * b == n * a + n * (b - a);
    if n > 0 && a < b {
      MulPositive(n, b - a);
    }
  }

  lemma MulPositive(a: nat, b: nat)
    requires a > 0 && b > 0
    ensures a * b >= a && a * b >= b
  {
    assert a * b == a + a * (b - 1) == b + (a - 1) * b;
  }

  /** The quotient is the only q with d*q <= x < d*(q+1). */
  lemma DivUnique(x: int, d: int, q: int)
    requires d > 0 && d * q <= x < d * q + d
    ensures x / d == q
  {
    var e, m := x / d, x % d;
    assert x == d * e + m && 0 <= m < d;
    if e < q {
      MulMonotone(d, 0, q - e - 1);
      assert false;
    } else if e > q {
      MulMonotone(d, 0, e - q - 1);
      assert false;
    }
  }

  lemma DivMonotone(a: nat, b: nat, d: nat)
    requires a <= b && d > 0
    ensures a / d <= b / d
  {
    var qa, qb := a / d, b / d;
    assert a == d * qa + a % d && b == d * qb + b % d;
    if qa > qb {
      MulMonotone(d, qb + 1, qa);
      assert false;
    }
  }

  lemma DivLess(x: nat, n: nat, d: nat)
    requires d > 0 && x < n * d
    ensures x / d < n
  {
    var q := x / d;
    assert x == d * q + x % d;
    if q >= n {
      MulMonotone(d, n, q);
      assert false;
    }
  }

  lemma ModSmall(x: nat, d: nat)
    requires x < d
    ensures x % d == x && x / d == 0
  {
    DivUnique(x, d, 0);
  }

  lemma ModOnce(x: nat, d: nat)
    requires d <= x < 2 * d
    ensures x % d == x - d
  {
    DivUnique(x, d, 1);
  }
}
