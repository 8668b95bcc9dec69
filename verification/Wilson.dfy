/** The Wilson lower bound and the credit decision (chitta-mcp/outcome_ledger.py), over exact reals. */
module Wilson {

  import opened Reals

  // ---------------------------------------------------------------------------
  // The score interval: p is the observed rate, c stands for z*z/n, m for the margin
  // ---------------------------------------------------------------------------

  ghost predicate Margin(p: real, c: real, m: real)
  {
    0.0 <= p <= 1.0 && c >= 0.0 && m >= 0.0 && m * m == c * p * (1.0 - p) + c * c / 4.0
  }

  /** The score test accepts the true rate `x` exactly when this is at most zero. */
  function Score(p: real, c: real, x: real): real
  {
    (p - x) * (p - x) - c * x * (1.0 - x)
  }

  function Lower(p: real, c: real, m: real): real
    requires c >= 0.0
  {
    (p + c / 2.0 - m) / (1.0 + c)
  }

  function Upper(p: real, c: real, m: real): real
    requires c >= 0.0
  {
    (p + c / 2.0 + m) / (1.0 + c)
  }

  lemma RootSums(p: real, c: real, m: real)
    requires Margin(p, c, m)
    ensures (1.0 + c) * (Lower(p, c, m) + Upper(p, c, m)) == 2.0 * p + c
    ensures (1.0 + c) * Lower(p, c, m) * Upper(p, c, m) == p * p
  {
    var d, lo, hi := 1.0 + c, Lower(p, c, m), Upper(p, c, m);
    assert d * lo == p + c / 2.0 - m;
    assert d * hi == p + c / 2.0 + m;
    calc {
      d * lo * (d * hi);
      (p + c / 2.0 - m) * (p + c / 2.0 + m);
      (p + c / 2.0) * (p + c / 2.0) - m * m;
      p * p + p * c - c * p * (1.0 - p);
      p * p * d;
    }
    assert d * lo * (d * hi) == (d * lo * hi) * d;
    CancelFactor(d * lo * hi, p * p, d);
  }

  lemma Expand(d: real, lo: real, hi: real, x: real)
    ensures d * (x - lo) * (x - hi) == d * x * x - d * (lo + hi) * x + d * lo * hi
  {
    var u, v := d * x, d * lo;
    assert d * (x - lo) == u - v;
    assert (u - v) * (x - hi) == u * x - u * hi - v * x + v * hi;
    assert u * hi == d * hi * x;
    assert d * (lo + hi) * x == v * x + d * hi * x;
  }

  lemma ExpandScore(p: real, c: real, x: real)
    ensures Score(p, c, x) == (1.0 + c) * x * x - (2.0 * p + c) * x + p * p
  {
    assert (p - x) * (p - x) == p * p - 2.0 * p * x + x * x;
    assert c * x * (1.0 - x) == c * x - c * x * x;
  }

  /** The bounds are the two roots of the score. */
  lemma ScoreFactors(p: real, c: real, m: real, x: real)
    requires Margin(p, c, m)
    ensures Score(p, c, x) == (1.0 + c) * (x - Lower(p, c, m)) * (x - Upper(p, c, m))
  {
    RootSums(p, c, m);
    Expand(1.0 + c, Lower(p, c, m), Upper(p, c, m), x);
    ExpandScore(p, c, x);
  }

  lemma LowerNonNegative(p: real, c: real, m: real)
    requires Margin(p, c, m)
    ensures 0.0 <= Lower(p, c, m)
  {
    var d, lo := 1.0 + c, Lower(p, c, m);
    assert (p + c / 2.0) * (p + c / 2.0) - m * m == p * p * d;
    NonNegative(p, p);
    NonNegative(p * p, d);
    SquareOrder(m, p + c / 2.0);
    assert d * lo == p + c / 2.0 - m;
    QuotientSign(lo, d);
  }

  lemma LowerAtMostRate(p: real, c: real, m: real)
    requires Margin(p, c, m)
    ensures Lower(p, c, m) <= p
  {
    var d, lo, gap := 1.0 + c, Lower(p, c, m), c * (0.5 - p);
    assert m * m - gap * gap == p * (1.0 - p) * c * d;
    NonNegative(p, 1.0 - p);
    NonNegative(p * (1.0 - p), c);
    NonNegative(p * (1.0 - p) * c, d);
    SquareOrder(gap, m);
    assert d * lo == p + c / 2.0 - m;
    assert d * (p - lo) == m - gap;
    QuotientSign(p - lo, d);
  }

  lemma LowerBelowUpper(p: real, c: real, m: real)
    requires Margin(p, c, m)
    ensures Lower(p, c, m) <= Upper(p, c, m)
  {
    var d := 1.0 + c;
    assert d * (Upper(p, c, m) - Lower(p, c, m)) == 2.0 * m;
    QuotientSign(Upper(p, c, m) - Lower(p, c, m), d);
  }

  /** The Wilson bound is the least rate the score test accepts: it is accepted, and nothing below it is. */
  lemma LowerIsLeastAccepted(p: real, c: real, m: real, x: real)
    requires Margin(p, c, m)
    ensures Score(p, c, Lower(p, c, m)) == 0.0
    ensures x < Lower(p, c, m) ==> Score(p, c, x) > 0.0
  {
    ScoreFactors(p, c, m, Lower(p, c, m));
    if x < Lower(p, c, m) {
      ScoreFactors(p, c, m, x);
      LowerBelowUpper(p, c, m);
      var u, v := Lower(p, c, m) - x, Upper(p, c, m) - x;
      Positive(u, v);
      Positive(1.0 + c, u * v);
      assert Score(p, c, x) == (1.0 + c) * (u * v);
    }
  }

  /** More successes out of the same number never lower the bound. */
  lemma LowerMonotone(p: real, q: real, c: real, m: real, k: real)
    requires Margin(p, c, m) && Margin(q, c, k) && p <= q
    ensures Lower(p, c, m) <= Lower(q, c, k)
  {
    var x := Lower(q, c, k);
    assert Score(q, c, x) - Score(p, c, x) == (q - p) * ((q - x) + (p - x));
    if x < Lower(p, c, m) {
      LowerIsLeastAccepted(p, c, m, x);
      LowerIsLeastAccepted(q, c, k, x);
      LowerAtMostRate(p, c, m);
      NonNegative(q - p, (q - x) + (p - x));
    }
  }

  /** With no failures the margin is `c / 2` and the bound `1 / (1 + c)`. */
  lemma LowerAtOne(c: real, m: real)
    requires Margin(1.0, c, m)
    ensures Lower(1.0, c, m) == 1.0 / (1.0 + c)
  {
    SquareOrder(m, c / 2.0);
    SquareOrder(c / 2.0, m);
  }

  lemma LowerAtZero(c: real, m: real)
    requires Margin(0.0, c, m)
    ensures Lower(0.0, c, m) == 0.0
  {
    SquareOrder(m, c / 2.0);
    SquareOrder(c / 2.0, m);
  }

  // ---------------------------------------------------------------------------
  // The bound as the source computes it
  // ---------------------------------------------------------------------------

  /** `wilson_lower_bound` before the clamp. */
  function Raw(successes: nat, n: nat, z: real, sqrt: real -> real): real
    requires n > 0
  {
    var phat := successes as real / n as real;
    var denom := 1.0 + z * z / n as real;
    var center := phat + z * z / (2.0 * n as real);
    assert denom > 0.0 by { Ratio(z, n as real); }
    (center - RawMargin(phat, n as real, z, sqrt)) / denom
  }

  function RawMargin(phat: real, n: real, z: real, sqrt: real -> real): real
    requires n > 0.0
  {
    z * sqrt((phat * (1.0 - phat) + z * z / (4.0 * n)) / n)
  }

  function WilsonLowerBound(successes: nat, n: nat, z: real, sqrt: real -> real): real
  {
    if n == 0 then 0.0
    else if Raw(successes, n, z, sqrt) > 0.0 then Raw(successes, n, z, sqrt)
    else 0.0
  }

  lemma Ratio(z: real, n: real)
    requires n > 0.0
    ensures z * z / n >= 0.0
  {
    SquareSign(z, z * z);
    assert n * (z * z / n) == z * z;
    QuotientSign(z * z / n, n);
  }

  lemma RateBetween(s: real, n: real)
    requires 0.0 <= s <= n && n > 0.0
    ensures 0.0 <= s / n <= 1.0
  {
    DivideOrder(0.0, s, n);
    DivideOrder(s, n, n);
  }

  lemma SquareOfProduct(z: real, root: real)
    ensures (z * root) * (z * root) == (z * z) * (root * root)
  {
    calc {
      (z * root) * (z * root);
      z * (root * (z * root));
      z * (z * (root * root));
      (z * z) * (root * root);
    }
  }

  lemma MoveDivisor(s: real, inner: real, n: real)
    requires n > 0.0
    ensures s * (inner / n) == s / n * inner
  {
    var x, y := s * (inner / n), s / n * inner;
    assert inner / n * n == inner && s / n * n == s;
    assert x * n == s * (inner / n * n);
    assert y * n == (s / n * n) * inner;
    CancelFactor(x, y, n);
  }

  lemma MarginHolds(p: real, n: real, z: real, sqrt: real -> real)
    requires IsSqrt(sqrt) && n > 0.0 && 0.0 <= p <= 1.0 && z >= 0.0
    ensures Margin(p, z * z / n, RawMargin(p, n, z, sqrt))
  {
    var c := z * z / n;
    Ratio(z, n);
    ScaledQuotient(z * z, n, 4.0);
    var inner := p * (1.0 - p) + z * z / (4.0 * n);
    NonNegative(p, 1.0 - p);
    DivideOrder(0.0, inner, n);
    var root := sqrt(inner / n);
    NonNegative(z, root);
    SquareOfProduct(z, root);
    MoveDivisor(z * z, inner, n);
    assert c * inner == c * (p * (1.0 - p)) + c * (c / 4.0);
  }

  /** The source's formula is the lower end of the score interval. */
  lemma RawIsLower(successes: nat, n: nat, z: real, sqrt: real -> real) returns (p: real, c: real, m: real)
    requires IsSqrt(sqrt) && 0 < n && successes <= n && z >= 0.0
    ensures p == successes as real / n as real && c == z * z / n as real
    ensures Margin(p, c, m)
    ensures Raw(successes, n, z, sqrt) == Lower(p, c, m)
  {
    var r := n as real;
    p, c, m := successes as real / r, z * z / r, RawMargin(successes as real / r, r, z, sqrt);
    RateBetween(successes as real, r);
    MarginHolds(p, r, z, sqrt);
    ScaledQuotient(z * z, r, 2.0);
  }

  /** Without the clamp the bound already lies between zero and the observed success rate, and it is a rate
      the score test just accepts. */
  lemma RawBounds(successes: nat, n: nat, z: real, sqrt: real -> real)
    requires IsSqrt(sqrt) && 0 < n && successes <= n && z >= 0.0
    ensures 0.0 <= Raw(successes, n, z, sqrt) <= successes as real / n as real
    ensures WilsonLowerBound(successes, n, z, sqrt) == Raw(successes, n, z, sqrt)
    ensures Score(successes as real / n as real, z * z / n as real, Raw(successes, n, z, sqrt)) == 0.0
  {
    var p, c, m := RawIsLower(successes, n, z, sqrt);
    LowerNonNegative(p, c, m);
    LowerAtMostRate(p, c, m);
    LowerIsLeastAccepted(p, c, m, 0.0);
  }

  /** The score test rejects every rate below the bound. */
  lemma RawRejectsBelow(successes: nat, n: nat, z: real, sqrt: real -> real, x: real)
    requires IsSqrt(sqrt) && 0 < n && successes <= n && z >= 0.0
    requires x < Raw(successes, n, z, sqrt)
    ensures Score(successes as real / n as real, z * z / n as real, x) > 0.0
  {
    var p, c, m := RawIsLower(successes, n, z, sqrt);
    LowerIsLeastAccepted(p, c, m, x);
  }

  /** For a fixed number of observations the bound never falls as successes rise. */
  lemma BoundMonotone(s: nat, t: nat, n: nat, z: real, sqrt: real -> real)
    requires IsSqrt(sqrt) && s <= t <= n && z >= 0.0
    ensures WilsonLowerBound(s, n, z, sqrt) <= WilsonLowerBound(t, n, z, sqrt)
  {
    if n > 0 {
      var p, c, m := RawIsLower(s, n, z, sqrt);
      var q, _, k := RawIsLower(t, n, z, sqrt);
      DivideOrder(s as real, t as real, n as real);
      LowerMonotone(p, q, c, m, k);
    }
  }

  /** With no failure among `n` observations the bound is `n / (n + z*z)`. */
  lemma BoundAtPerfect(n: nat, z: real, sqrt: real -> real)
    requires IsSqrt(sqrt) && 0 < n && z >= 0.0
    ensures WilsonLowerBound(n, n, z, sqrt) == n as real / (n as real + z * z)
  {
    var r := n as real;
    var p, c, m := RawIsLower(n, n, z, sqrt);
    assert p == 1.0;
    LowerAtOne(c, m);
    LowerNonNegative(p, c, m);
    assert r * (1.0 + c) == r + z * z;
    NonNegative(z, z);
    assert r / (r + z * z) == 1.0 / (1.0 + c) by {
      assert (1.0 / (1.0 + c)) * (r + z * z) == r;
      CancelFactor(r / (r + z * z), 1.0 / (1.0 + c), r + z * z);
    }
  }

  /** The bound of `n` observations is at most `n / (n + z*z)`. */
  lemma BoundCeiling(successes: nat, n: nat, z: real, sqrt: real -> real)
    requires IsSqrt(sqrt) && 0 < n && successes <= n && z >= 0.0
    ensures WilsonLowerBound(successes, n, z, sqrt) <= n as real / (n as real + z * z)
  {
    BoundMonotone(successes, n, n, z, sqrt);
    BoundAtPerfect(n, z, sqrt);
  }

  lemma BoundAtHopeless(n: nat, z: real, sqrt: real -> real)
    requires IsSqrt(sqrt) && z >= 0.0
    ensures WilsonLowerBound(0, n, z, sqrt) == 0.0
  {
    if n > 0 {
      var p, c, m := RawIsLower(0, n, z, sqrt);
      LowerAtZero(c, m);
    }
  }

  // ---------------------------------------------------------------------------
  // The credit decision
  // ---------------------------------------------------------------------------

  datatype Decision = Ack | Nack | NoDecision

  const Z := 1.96
  const MIN_OBSERVATIONS := 3
  const ACK_THRESHOLD := 0.6
  const NACK_THRESHOLD := 0.3

  function Decide(successes: nat, failures: nat, sqrt: real -> real): Decision
  {
    var n := successes + failures;
    if n < MIN_OBSERVATIONS then NoDecision
    else
      var bound := WilsonLowerBound(successes, n, Z, sqrt);
      if bound > ACK_THRESHOLD then Ack
      else if bound < NACK_THRESHOLD then Nack
      else NoDecision
  }

  lemma FewObservations(n: nat)
    requires 0 < n
    ensures n as real / (n as real + Z * Z) > ACK_THRESHOLD <==> n >= 6
    ensures n >= 3 ==> n as real / (n as real + Z * Z) > NACK_THRESHOLD
  {
    var r := n as real;
    var d := r + Z * Z;
    assert Z * Z == 3.8416;
    var q := r / d;
    assert q * d == r;
    if n >= 6 {
      assert 0.6 * d < r;
    } else {
      assert r <= 5.0;
      assert 0.6 * d > r;
    }
    OverThreshold(r, d, ACK_THRESHOLD);
    OverThreshold(r, d, NACK_THRESHOLD);
  }

  lemma OverThreshold(r: real, d: real, t: real)
    requires d > 0.0
    ensures r / d > t <==> r > t * d
  {
    var q := r / d;
    assert q * d == r;
    assert (q - t) * d == r - t * d;
    if q > t {
      Positive(q - t, d);
    } else {
      NonNegative(t - q, d);
      assert (t - q) * d == -((q - t) * d);
    }
  }

  /** Fewer than six observations are never acknowledged, and six suffice when none failed. */
  lemma AckNeedsSix(successes: nat, failures: nat, sqrt: real -> real)
    requires IsSqrt(sqrt)
    ensures Decide(successes, failures, sqrt).Ack? ==> successes + failures >= 6
    ensures failures == 0 ==> (Decide(successes, failures, sqrt).Ack? <==> successes >= 6)
  {
    var n := successes + failures;
    if n >= MIN_OBSERVATIONS {
      FewObservations(n);
      BoundCeiling(successes, n, Z, sqrt);
      if failures == 0 {
        BoundAtPerfect(n, Z, sqrt);
      }
    }
  }

  /** A memory that never failed is never nacked; one that never succeeded is, once it has been observed
      often enough. */
  lemma NackNeedsFailure(successes: nat, failures: nat, sqrt: real -> real)
    requires IsSqrt(sqrt)
    ensures Decide(successes, failures, sqrt).Nack? ==> failures > 0
    ensures successes == 0 ==> (Decide(successes, failures, sqrt).Nack? <==> failures >= MIN_OBSERVATIONS)
  {
    var n := successes + failures;
    if n >= MIN_OBSERVATIONS {
      if failures == 0 {
        FewObservations(n);
        BoundAtPerfect(n, Z, sqrt);
      }
      if successes == 0 {
        BoundAtHopeless(n, Z, sqrt);
      }
    }
  }

  /** Turning a failure into a success never makes the decision worse. */
  lemma DecisionMonotone(successes: nat, failures: nat, sqrt: real -> real)
    requires IsSqrt(sqrt) && failures > 0
    ensures Decide(successes, failures, sqrt).Ack? ==> Decide(successes + 1, failures - 1, sqrt).Ack?
    ensures Decide(successes + 1, failures - 1, sqrt).Nack? ==> Decide(successes, failures, sqrt).Nack?
  {
    BoundMonotone(successes, successes + 1, successes + failures, Z, sqrt);
  }
}
