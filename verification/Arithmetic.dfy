/** Facts about floored division that the calendar, the decimals and the aliases share. */
module Arithmetic {

  function Min(a: int, b: int): int {
    if a < b then a else b
  }

  lemma MulGrows(k: int, a: int, b: int)
    requires k > 0 && a < b
    ensures k * a + k <= k * b
  {
    MulNat(k, b - a - 1);
    assert k * b == k * a + k + k * (b - a - 1);
  }

  lemma MulNat(x: int, y: int)
    requires x >= 0 && y >= 0
    ensures x * y >= 0
  {
  }

  /** Quotient and remainder are the only pair that fits. */
  lemma DivModIs(x: int, k: int, q: int, r: int)
    requires k > 0
    requires x == k * q + r && 0 <= r < k
    ensures x / k == q && x % k == r
  {
    var q', r' := x / k, x % k;
    assert x == k * q' + r';
    if q < q' {
      MulGrows(k, q, q');
    } else if q' < q {
      MulGrows(k, q', q);
    }
  }

  lemma DivSmaller(n: int, b: int)
    requires n > 0 && b >= 2
    ensures 0 <= n / b < n
  {
    var q, r := n / b, n % b;
    assert n == b * q + r;
    if q < 0 {
      MulGrows(b, q, 0);
    }
    if q >= 1 {
      assert b * q == q + (b - 1) * q;
      MulGrows(q, 0, b - 1);
    }
  }

  /** A quotient is below p exactly when the number is below b * p. */
  lemma DivBelow(n: int, b: int, p: int)
    requires b > 0
    ensures n / b < p <==> n < b * p
  {
    var q, r := n / b, n % b;
    assert n == b * q + r;
    if q < p {
      MulGrows(b, q, p);
    } else if p < q {
      MulGrows(b, p, q);
    }
  }

  lemma QuotientNat(n: nat, k: int)
    requires k > 0
    ensures n / k >= 0
  {
    DivBelow(n, k, 0);
  }

  /** One more digit multiplies the room by the base. */
  lemma DigitFits(v: int, p: int, b: int, d: int)
    requires 0 <= v < p && 0 <= d < b
    ensures 0 <= v * b + d < b * p
  {
    MulGrows(b, v, p);
    assert v * b == b * v;
    if v > 0 {
      MulGrows(b, 0, v);
    }
  }

  lemma Horner(x: int, p: int, b: int, y: int, d: int)
    ensures (x * p + y) * b + d == x * (b * p) + (y * b + d)
  {
    assert (x * p + y) * b == x * p * b + y * b;
    assert x * p * b == x * (b * p);
  }

  lemma MulAssoc(a: int, b: int, c: int)
    ensures a * (b * c) == (a * b) * c
  {
  }

  lemma Rebuild(n: int, b: int)
    requires b > 0
    ensures n / b * b + n % b == n
  {
  }
}
