/** The few facts about products and quotients that the solver is told once, here. */
module Arith {

  lemma MulLe(a: int, b: int, c: nat)
    requires a <= b
    ensures a * c <= b * c
  {
  }

  lemma MulLtCancel(a: int, b: int, c: nat)
    requires a * c < b * c
    ensures a < b
  {
    if b <= a {
      MulLe(b, a, c);
    }
  }

  lemma DivBounds(n: int, d: nat)
    requires d > 0
    ensures (n / d) * d <= n < (n / d + 1) * d
  {
  }

  /** Quotient and remainder are the only pair with a remainder below the divisor. */
  lemma DivUnique(n: int, d: nat, q: int, r: int)
    requires 0 <= r < d && n == q * d + r
    ensures n / d == q && n % d == r
  {
    DivBounds(n, d);
    MulLtCancel(q, n / d + 1, d);
    MulLtCancel(n / d, q + 1, d);
  }

  lemma Associate(a: int, b: int, c: int)
    ensures (a * b) * c == a * (b * c)
  {
  }

  lemma DistributeRight(a: int, b: int, d: int)
    ensures (a + b) * d == a * d + b * d
  {
  }

  lemma Distribute(r: int, a: int, b: int, w: int)
    ensures r * (a * w + b) == (r * a) * w + r * b
  {
  }
}
