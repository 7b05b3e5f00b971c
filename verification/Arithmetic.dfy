/** The few facts about products and quotients the other modules need. */
module Arithmetic {

  lemma Cancel(a: int, b: int, m: int)
    requires m > 0 && a * m < b * m
    ensures a < b
  {
    assert (b - a) * m > 0;
  }

  // A quotient is pinned down by its remainder's range.
  lemma QuotientIs(x: int, m: int, q: int)
    requires m > 0 && q * m <= x < q * m + m
    ensures x / m == q
  {
    var p := x / m;
    assert x == p * m + x % m;
    assert (q + 1) * m == q * m + m && (p + 1) * m == p * m + m;
    Cancel(p, q + 1, m);
    Cancel(q, p + 1, m);
  }

  lemma Distribute(x: int, y: int, m: int)
    ensures (x + y) * m == x * m + y * m
  {
  }

  lemma Regroup(x: int, y: int, m: int)
    ensures x * y * m == x * (m * y)
  {
  }

  lemma ProductBound(x: int, b: int, m: int)
    requires 0 <= x < b && 0 < m
    ensures 0 <= x * m <= b * m - m
  {
    NotNegative(b - 1 - x, m);
    NotNegative(x, m);
    Distribute(b - 1 - x, x, m);
    Distribute(b, -1, m);
  }

  lemma NotNegative(k: int, m: int)
    requires k >= 0 && m > 0
    ensures k * m >= 0
  {
  }

  lemma DivideTwice(x: nat, a: nat, b: nat)
    requires a > 0 && b > 0
    ensures a * b > 0 && x / (a * b) == x / a / b
  {
    var y := x / a;
    var z, t := y / b, y % b;
    assert x == y * a + x % a && y == z * b + t;
    Distribute(z * b, t, a);
    Regroup(z, b, a);
    ProductBound(t, b, a);
    PositiveProduct(a, b);
    QuotientIs(x, a * b, z);
  }

  lemma PositiveProduct(a: nat, b: nat)
    requires a > 0 && b > 0
    ensures a * b > 0
  {
  }

  lemma ShiftSum(x: nat, y: nat, a: nat)
    requires a > 0
    ensures (x + y * a) / a == x / a + y
  {
    Distribute(x / a, y, a);
    QuotientIs(x + y * a, a, x / a + y);
  }

  lemma ModuloSum(x: nat, y: nat, w: nat)
    requires w > 0
    ensures (x + y * w) % w == x % w
  {
    ShiftSum(x, y, w);
    Distribute(x / w, y, w);
  }

  lemma AddModulo(a: nat, b: nat, m: nat)
    requires m > 0
    ensures (a % m + b) % m == (a + b) % m
  {
    var q, r := a / m, a % m;
    assert a == q * m + r;
    ModuloSum(r + b, q, m);
  }
}
