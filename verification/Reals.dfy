/** Sign and order facts about exact reals, and what is assumed of `math.sqrt`. */
module Reals {

  /** What `math.sqrt` is assumed to be. */
  ghost predicate IsSqrt(sqrt: real -> real)
  {
    forall x :: x >= 0.0 ==> sqrt(x) >= 0.0 && sqrt(x) * sqrt(x) == x
  }

  /** What `math.log` is assumed to be, at and above one. */
  ghost predicate IsLog(ln: real -> real)
  {
    && (forall x :: x >= 1.0 ==> ln(x) >= 0.0)
    && (forall x :: x > 1.0 ==> ln(x) > 0.0)
  }

  lemma Positive(a: real, b: real)
    requires a > 0.0 && b > 0.0
    ensures a * b > 0.0
  {
  }

  /** The same for a product under another name (the solver rewrites `x * x > 0` itself away). */
  lemma PositiveProduct(a: real, b: real, p: real)
    requires a > 0.0 && b > 0.0 && p == a * b
    ensures p > 0.0
  {
    Positive(a, b);
  }

  lemma NonNegative(a: real, b: real)
    requires a >= 0.0 && b >= 0.0
    ensures a * b >= 0.0
  {
  }

  lemma SquareSign(x: real, xx: real)
    requires xx == x * x
    ensures xx >= 0.0
    ensures x != 0.0 ==> xx > 0.0
  {
    if x > 0.0 {
      PositiveProduct(x, x, xx);
    } else if x < 0.0 {
      assert -x * -x == xx;
      PositiveProduct(-x, -x, xx);
    }
  }

  /** The sign of a product of three, by the signs of the last two. */
  lemma SignOfThree(d: real, u: real, v: real, p: real)
    requires d > 0.0 && p == d * u * v
    ensures (u > 0.0 && v > 0.0) || (u < 0.0 && v < 0.0) ==> p > 0.0
    ensures (u > 0.0 && v < 0.0) || (u < 0.0 && v > 0.0) ==> p < 0.0
    ensures u == 0.0 || v == 0.0 ==> p == 0.0
  {
    var w := u * v;
    assert p == d * w;
    if u > 0.0 && v > 0.0 {
      PositiveProduct(u, v, w);
      PositiveProduct(d, w, p);
    } else if u < 0.0 && v < 0.0 {
      assert w == -u * -v;
      PositiveProduct(-u, -v, w);
      PositiveProduct(d, w, p);
    } else if u > 0.0 && v < 0.0 {
      assert -w == u * -v;
      PositiveProduct(u, -v, -w);
      assert -p == d * -w;
      PositiveProduct(d, -w, -p);
    } else if u < 0.0 && v > 0.0 {
      assert -w == -u * v;
      PositiveProduct(-u, v, -w);
      assert -p == d * -w;
      PositiveProduct(d, -w, -p);
    }
  }

  /** Squaring reflects the order below a non-negative number. */
  lemma SquareOrder(a: real, b: real)
    requires b >= 0.0 && a * a <= b * b
    ensures a <= b
  {
    assert a * a - b * b == (a - b) * (a + b);
    if a > b {
      Positive(a - b, a + b);
    }
  }

  lemma QuotientSign(q: real, d: real)
    requires d > 0.0 && d * q >= 0.0
    ensures q >= 0.0
  {
    assert d * -q == -(d * q);
    if q < 0.0 {
      Positive(d, -q);
    }
  }

  lemma QuotientPositive(q: real, d: real)
    requires d > 0.0 && d * q > 0.0
    ensures q > 0.0
  {
    assert d * -q == -(d * q);
    if q <= 0.0 {
      NonNegative(d, -q);
    }
  }

  lemma CancelFactor(a: real, b: real, d: real)
    requires d > 0.0 && a * d == b * d
    ensures a == b
  {
    assert (a - b) * d == 0.0;
  }

  lemma ScaledQuotient(s: real, r: real, k: real)
    requires r > 0.0 && k > 0.0
    ensures k * r > 0.0 && s / (k * r) == s / r / k
  {
    Positive(k, r);
    var q, h := s / r, s / (k * r);
    assert q * r == s && h * (k * r) == s;
    assert q / k * (k * r) == q / k * k * r;
    assert q / k * k == q;
    CancelFactor(h, q / k, k * r);
  }

  /** Division by a positive number preserves the order. */
  lemma DivideOrder(a: real, b: real, d: real)
    requires d > 0.0 && a <= b
    ensures a / d <= b / d
  {
    assert b / d - a / d == (b - a) / d;
    assert d * ((b - a) / d) == b - a;
    QuotientSign((b - a) / d, d);
  }

  lemma RatioPositive(a: real, b: real)
    requires a > 0.0 && b > 0.0
    ensures a / b > 0.0
  {
    assert b * (a / b) == a;
    QuotientPositive(a / b, b);
  }

  lemma ReciprocalPositive(a: real)
    requires a > 0.0
    ensures 1.0 / a > 0.0
  {
    var u := 1.0 / a;
    assert a * u == 1.0;
    QuotientSign(u, a);
  }

  lemma ReciprocalDecreases(a: real, b: real)
    requires 0.0 < a < b
    ensures 1.0 / a > 1.0 / b
  {
    var u, v := 1.0 / a, 1.0 / b;
    assert a * u == 1.0 && b * v == 1.0;
    ReciprocalPositive(b);
    Positive(v, b - a);
    assert a * (u - v) == v * (b - a);
    QuotientPositive(u - v, a);
  }

  lemma NonZero(a: real, b: real)
    requires a != 0.0 && b != 0.0
    ensures a * b != 0.0
  {
    if a > 0.0 && b > 0.0 {
      Positive(a, b);
    } else if a > 0.0 {
      Positive(a, -b);
      assert a * -b == -(a * b);
    } else if b > 0.0 {
      Positive(-a, b);
      assert -a * b == -(a * b);
    } else {
      Positive(-a, -b);
      assert -a * -b == a * b;
    }
  }

  lemma QuotientIsOne(d: real, n: real)
    requires n != 0.0
    ensures d / n == 1.0 <==> d == n
  {
    assert d / n * n == d;
  }

  lemma QuotientOne(d: real, n: real)
    requires n != 0.0 && d == n
    ensures d / n == 1.0
  {
  }

  lemma ProductOrder(u: real, v: real, a: real, b: real)
    requires 0.0 <= u <= a && 0.0 <= v <= b
    ensures u * v <= a * b
  {
    NonNegative(a - u, b);
    NonNegative(u, b - v);
    assert a * b - u * v == (a - u) * b + u * (b - v);
  }
}
