/** Nonlinear arithmetic, one small step at a time. */
module Arith {

  lemma MulNonNeg(a: int, b: int)
    requires a >= 0 && b >= 0
    ensures a * b >= 0
  {
  }

  lemma MulMono(a: int, b: int, c: int)
    requires a <= b && c >= 0
    ensures a * c <= b * c
  {
    MulNonNeg(b - a, c);
    assert (b - a) * c == b * c - a * c;
  }

  /** A nonzero multiple of `k` is at least `k` away from zero. */
  lemma Multiple(d: int, k: int)
    requires k >= 1 && d != 0
    ensures d * k >= k || d * k <= -k
  {
    if d >= 1 {
      MulMono(1, d, k);
    } else {
      MulMono(d, -1, k);
    }
  }

  /** Quotient and remainder are determined by their defining equation. */
  lemma DivModUnique(a: int, q: int, r: int, k: int)
    requires k >= 1 && 0 <= r < k && a == q * k + r
    ensures a / k == q && a % k == r
  {
    var d := a / k - q;
    assert d * k == (a / k) * k - q * k;
    if d != 0 {
      Multiple(d, k);
    }
  }

  lemma MulLess(a: int, b: int, c: int)
    requires a < b && c >= 1
    ensures a * c < b * c
  {
    MulMono(a + 1, b, c);
    assert (a + 1) * c == a * c + c;
  }

  /** Dividing twice is dividing by the product. */
  lemma DivDiv(a: int, b: int, c: int)
    requires a >= 0 && b >= 1 && c >= 1
    ensures b * c >= 1 && (a / b) / c == a / (b * c)
  {
    MulMono(1, b, c);
    var h := a / b;
    var q, r := h / c, h % c;
    assert a == h * b + a % b && h == q * c + r;
    assert h * b == (q * c + r) * b == q * (b * c) + r * b;
    MulMono(r, c - 1, b);
    assert (c - 1) * b == b * c - b;
    MulNonNeg(r, b);
    DivModUnique(a, q, r * b + a % b, b * c);
  }

  lemma DivLess(n: int, e: int, k: int)
    requires e >= 1 && n < k * e
    ensures n / e < k
  {
    assert n == (n / e) * e + n % e;
    if n / e >= k {
      MulMono(k, n / e, e);
    }
  }

  lemma DivAtLeast(n: int, e: int, k: int)
    requires e >= 1 && k * e <= n
    ensures k <= n / e
  {
    assert n == (n / e) * e + n % e;
    assert (n / e + 1) * e == (n / e) * e + e;
    if n / e < k {
      MulMono(n / e + 1, k, e);
    }
  }

  /** A smaller divisor never gives a smaller quotient. */
  lemma DivAntitone(n: int, d: int, e: int)
    requires n >= 0 && 1 <= e <= d
    ensures n / d <= n / e
  {
    DivAtLeast(n, d, 0);
    assert n == (n / d) * d + n % d;
    MulMono(e, d, n / d);
    DivAtLeast(n, e, n / d);
  }
}
