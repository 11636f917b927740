/** Facts about products and quotients that the solver needs to be shown. */
module Arithmetic {

  lemma MulBelow(a: real, b: real, c: real)
    requires a < b && c > 0.0
    ensures a * c < b * c
  {
  }

  /** A quotient lies between two numbers if the dividend lies between their products. */
  lemma QuotientBetween(a: real, b: real, low: real, high: real)
    requires b > 0.0 && low * b <= a <= high * b
    ensures low <= a / b <= high
  {
    var q := a / b;
    assert q * b == a;
    if q < low {
      MulBelow(q, low, b);
    }
    if high < q {
      MulBelow(high, q, b);
    }
  }

  lemma QuotientBelow(a: real, b: real, k: real)
    requires b > 0.0
    ensures a / b < k <==> a < k * b
  {
    var q := a / b;
    assert q * b == a;
    if q < k {
      MulBelow(q, k, b);
    } else if k < q {
      MulBelow(k, q, b);
    }
  }

  lemma QuotientPositive(a: real, b: real)
    requires a > 0.0 && b > 0.0
    ensures a / b > 0.0
  {
  }

  lemma ProductInUnit(t: real, m: real)
    requires 0.0 <= t <= 1.0 && m >= 0.0
    ensures 0.0 <= t * m <= m
  {
  }

  /** A product that callers may keep out of the solver's arithmetic. */
  function Times(a: real, b: real): real {
    a * b
  }

  lemma TimesPositive(a: real, b: real)
    requires (a > 0.0 && b > 0.0) || (a < 0.0 && b < 0.0)
    ensures Times(a, b) > 0.0
  {
  }

  lemma Square(x: real)
    ensures Times(x, x) >= 0.0 && (x != 0.0 ==> Times(x, x) > 0.0)
  {
    if x != 0.0 {
      TimesPositive(x, x);
    }
  }

  lemma OneMore(n: real, a: real)
    ensures Times(n + 1.0, a) == Times(n, a) + a
  {
  }

  lemma SquareMonotone(a: real, b: real)
    requires 0.0 <= a <= b
    ensures Times(a, a) <= Times(b, b)
  {
  }
}
