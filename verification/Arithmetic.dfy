/** Quotients by a positive divisor, and powers of ten. */
module Arithmetic {

  function Pow10(n: nat): (p: nat)
    ensures p > 0
  {
    if n == 0 then 1 else 10 * Pow10(n - 1)
  }

  function Abs(x: int): nat {
    if x < 0 then -x else x
  }

  lemma QuotientBounds(n: int, d: int)
    requires d > 0
    ensures n / d * d <= n < n / d * d + d
    ensures n == n / d * d + n % d
  {
  }

  lemma QuotientNonnegative(n: nat, d: int)
    requires d > 0
    ensures n / d >= 0
  {
  }

  lemma QuotientUnique(n: int, d: int, q: int)
    requires d > 0
    requires q * d <= n < q * d + d
    ensures n / d == q
  {
    QuotientBounds(n, d);
    var p := n / d;
    if p < q {
      MulOrder(p + 1, q, d);
    } else if p > q {
      MulOrder(q + 1, p, d);
    }
  }

  lemma QuotientAdd(q: int, x: int, d: int)
    requires d > 0
    ensures (q * d + x) / d == q + x / d
  {
    QuotientBounds(x, d);
    assert (q + x / d) * d == q * d + x / d * d;
    QuotientUnique(q * d + x, d, q + x / d);
  }

  lemma QuotientBelow(x: nat, d: nat, p: int)
    requires 0 <= x < d * p
    ensures d > 0 && 0 <= x / d < p
  {
    QuotientBounds(x, d);
    QuotientNonnegative(x, d);
    MulCancel(x / d, p, d);
  }

  lemma MulOrder(x: int, y: int, d: int)
    requires x <= y && d >= 0
    ensures x * d <= y * d
  {
    assert (y - x) * d >= 0;
  }

  lemma MulSuccessor(x: int, d: int)
    ensures (x + 1) * d == x * d + d
  {
  }

  lemma SumTimes(x: int, y: int, d: int)
    ensures (x + y) * d == x * d + y * d
  {
  }

  lemma MulCancel(x: int, y: int, d: int)
    requires d > 0 && x * d < y * d
    ensures x < y
  {
    if x >= y {
      MulOrder(y, x, d);
    }
  }

  lemma QuotientLess(n: int, d: int, k: int)
    requires d > 0
    ensures n / d < k <==> n < k * d
  {
    QuotientBounds(n, d);
    if n / d < k {
      MulOrder(n / d + 1, k, d);
    } else {
      MulOrder(k, n / d, d);
    }
  }

  lemma QuotientOrder(m: int, n: int, d: int)
    requires d > 0 && m <= n
    ensures m / d <= n / d
  {
    QuotientBounds(m, d);
    QuotientBounds(n, d);
    MulCancel(m / d, n / d + 1, d);
  }

  lemma Pow10Sum(m: nat, n: nat)
    ensures Pow10(m + n) == Pow10(m) * Pow10(n)
  {
    if m > 0 {
      Pow10Sum(m - 1, n);
    }
  }
}
