/** Products and floor quotients: the few facts the other modules need, stated once so that no
    other proof makes the solver search through nonlinear arithmetic. */
module Nonlinear {
  lemma MulMono(a: int, b: int, c: int)
    requires a <= b && c >= 0
    ensures a * c <= b * c && c * a <= c * b
  {
    assert (b - a) * c >= 0;
  }

  lemma MulLess(a: int, b: int, c: int)
    requires a < b && c > 0
    ensures a * c < b * c && a * c + c <= b * c
  {
    MulMono(a + 1, b, c);
    assert (a + 1) * c == a * c + c;
  }

  /** Cancelling a positive factor. */
  lemma MulCancelLess(a: int, b: int, c: int)
    requires c > 0 && a * c < b * c
    ensures a < b
  {
    if a >= b { MulMono(b, a, c); }
  }

  lemma MulCancelLessEq(a: int, b: int, c: int)
    requires c > 0 && a * c <= b * c
    ensures a <= b
  {
    if a > b { MulLess(b, a, c); }
  }

  lemma MulAssoc(a: int, b: int, c: int)
    ensures a * b * c == a * (b * c)
  {
  }

  lemma MulDist(a: int, b: int, c: int)
    ensures (a + b) * c == a * c + b * c && (a - b) * c == a * c - b * c
  {
  }

  lemma DivBounds(n: int, d: int)
    requires d > 0
    ensures n / d * d <= n < n / d * d + d
    ensures n == n / d * d + n % d
  {
  }

  /** Floor division is the only quotient whose remainder fits below the divisor. */
  lemma QuotientIs(n: int, d: int, q: int)
    requires d > 0 && q * d <= n < q * d + d
    ensures n / d == q && n % d == n - q * d
  {
    var t := n / d;
    DivBounds(n, d);
    MulDist(t, 1, d);
    MulDist(q, 1, d);
    MulCancelLess(t, q + 1, d);
    MulCancelLess(q, t + 1, d);
  }

  lemma DivLess(n: int, d: int, k: int)
    requires d > 0 && n < k * d
    ensures n / d < k
  {
    DivBounds(n, d);
    MulCancelLess(n / d, k, d);
  }

  lemma DivAtLeast(n: int, d: int, k: int)
    requires d > 0 && k * d <= n
    ensures k <= n / d
  {
    DivBounds(n, d);
    MulDist(n / d, 1, d);
    MulCancelLess(k, n / d + 1, d);
  }

  lemma DivNonNeg(n: int, d: int)
    requires n >= 0 && d > 0
    ensures 0 <= n / d <= n
  {
    DivAtLeast(n, d, 0);
    MulMono(1, d, n / d);
    DivBounds(n, d);
  }

  lemma DivDiv(n: int, a: int, b: int)
    requires n >= 0 && a > 0 && b > 0
    ensures a * b > 0 && n / a / b == n / (a * b)
  {
    var m := n / a;
    var q := m / b;
    DivBounds(n, a);
    DivBounds(m, b);
    MulMono(1, b, a);
    MulMono(q * b, m, a);
    MulMono(m + 1, q * b + b, a);
    MulDist(m, 1, a);
    MulDist(q * b, b, a);
    MulAssoc(q, b, a);
    assert b * a == a * b;
    QuotientIs(n, a * b, q);
  }
}
