/** Division by a variable, which the solver does not know enough about. */
module Arith {

  lemma MulMonotone(d: nat, x: int, y: int)
    ensures x <= y ==> d * x <= d * y
    ensures d * (x + 1) == d * x + d
  {
    if x <= y {
      assert d * (y - x) >= 0;
    }
  }

  /** Quotient and remainder are the only ones. */
  lemma DivModUnique(n: nat, d: nat, q: nat, r: nat)
    requires r < d && n == d * q + r
    ensures n / d == q && n % d == r
  {
    var q', r' := n / d, n % d;
    assert n == d * q' + r';
    MulMonotone(d, q' + 1, q);
    MulMonotone(d, q + 1, q');
    MulMonotone(d, q, q);
    MulMonotone(d, q', q');
  }

  lemma DivTwice(n: nat, a: nat, b: nat)
    requires a > 0 && b > 0
    ensures a * b > 0 && n / a / b == n / (a * b)
  {
    var q, r := n / a / b, n / a % b;
    assert n / a == b * q + r;
    assert n == a * (n / a) + n % a;
    MulAssoc(a, b, q, r);
    MulMonotone(a, r + 1, b);
    MulMonotone(a, r, b);
    DivModUnique(n, a * b, q, a * r + n % a);
  }

  lemma MulAssoc(a: nat, b: nat, q: nat, r: nat)
    requires a > 0 && b > 0
    ensures a * (b * q + r) == a * b * q + a * r && a * b > 0
  {
  }
}
