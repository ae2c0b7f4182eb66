/** Small facts about products and quotients that the solver needs spelled out. */
module Arithmetic {

  lemma MulMonotone(c: nat, a: int, b: int)
    requires a <= b
    ensures c * a <= c * b
  {
  }

  /** Strictly more of a positive quantity is more by at least that quantity. */
  lemma MulGap(x: int, y: int, n: nat)
    requires x > y
    ensures x * n >= y * n + n
  {
    assert x * n == y * n + n + (x - y - 1) * n;
  }

  lemma MulCancel(a: int, b: int, w: nat)
    requires w > 0 && a * w <= b * w
    ensures a <= b
  {
    if a > b {
      MulGap(a, b, w);
    }
  }

  /** Two divisions by the same number, given by quotients and remainders. */
  lemma QuotientOrder(x: int, r: int, y: int, s: int, n: nat)
    requires 0 <= r < n && 0 <= s < n && x * n + r <= y * n + s
    ensures x <= y
  {
    if x > y {
      MulGap(x, y, n);
    }
  }

  lemma QuotientMonotone(a: nat, b: nat, n: nat)
    requires n > 0 && a <= b
    ensures a / n <= b / n
  {
    QuotientOrder(a / n, a % n, b / n, b % n, n);
  }

  lemma ExactQuotient(x: nat, n: nat)
    requires n > 0
    ensures x * n / n == x
  {
    var q, r := x * n / n, x * n % n;
    assert x * n == q * n + r;
    QuotientOrder(x, 0, q, r, n);
    QuotientOrder(q, r, x, 0, n);
  }

  lemma QuotientNonNegative(a: nat, n: nat)
    requires n > 0
    ensures a / n >= 0
  {
  }

  /** Comparing a ratio with a number, without dividing. */
  lemma RatioOrder(a: real, n: real, b: real)
    requires n > 0.0
    ensures a / n <= b <==> a <= b * n
    ensures b <= a / n <==> b * n <= a
  {
  }

  lemma RatioMonotone(a: real, b: real, n: real)
    requires n > 0.0 && a <= b
    ensures a / n <= b / n
  {
  }
}
