/** Where the credit decisions lie (chitta-mcp/outcome_ledger.py, `credit`): the thresholds without roots, by whole
    numbers of successes and failures. */
module CreditThresholds {
  import opened Reals
  import opened Wilson

  lemma UpperAtLeastRate(p: real, c: real, m: real)
    requires Margin(p, c, m)
    ensures Upper(p, c, m) >= p
  {
    var d, hi, gap := 1.0 + c, Upper(p, c, m), c * (p - 0.5);
    assert m * m - gap * gap == p * (1.0 - p) * c * d;
    NonNegative(p, 1.0 - p);
    NonNegative(p * (1.0 - p), c);
    NonNegative(p * (1.0 - p) * c, d);
    SquareOrder(gap, m);
    assert d * hi == p + c / 2.0 + m;
    assert d * (hi - p) == m - gap;
    QuotientSign(hi - p, d);
  }

  /** The bound is above a rate, or at it, exactly if the score test rejects the rate, or just accepts it, and the
      observed rate is above. */
  lemma AboveIff(p: real, c: real, m: real, x: real)
    requires Margin(p, c, m)
    ensures Lower(p, c, m) > x <==> p > x && Score(p, c, x) > 0.0
    ensures p > x ==> (Lower(p, c, m) >= x <==> Score(p, c, x) >= 0.0)
  {
    var lo, hi := Lower(p, c, m), Upper(p, c, m);
    LowerAtMostRate(p, c, m);
    UpperAtLeastRate(p, c, m);
    ScoreFactors(p, c, m, x);
    SignOfThree(1.0 + c, x - lo, x - hi, Score(p, c, x));
  }

  /** The score in whole numbers. */
  lemma ScoreScaled(s: real, n: real, z: real, x: real)
    requires n > 0.0
    ensures Score(s / n, z * z / n, x) * (n * n) == (s - x * n) * (s - x * n) - z * z * (x * (1.0 - x)) * n
  {
    var p, c := s / n, z * z / n;
    assert p * n == s && c * n == z * z;
    assert (p - x) * n == s - x * n;
    assert ((p - x) * (p - x)) * (n * n) == ((p - x) * n) * ((p - x) * n) by { SquareMoves(p - x, n); }
    assert (c * x * (1.0 - x)) * (n * n) == (c * n) * (x * (1.0 - x)) * n by { FactorMoves(c, x, 1.0 - x, n); }
    assert Score(p, c, x) * (n * n) == ((p - x) * (p - x)) * (n * n) - (c * x * (1.0 - x)) * (n * n) by {
      Distribute((p - x) * (p - x), c * x * (1.0 - x), n * n);
    }
  }

  lemma SquareMoves(a: real, n: real)
    ensures (a * a) * (n * n) == (a * n) * (a * n)
  {
  }

  lemma FactorMoves(c: real, x: real, y: real, n: real)
    ensures (c * x * y) * (n * n) == (c * n) * (x * y) * n
  {
  }

  lemma Distribute(a: real, b: real, d: real)
    ensures (a - b) * d == a * d - b * d
  {
  }

  /** How far the successes exceed the share `x` of the observations. */
  function Excess(successes: nat, n: nat, x: real): real
  {
    successes as real - x * n as real
  }

  lemma ScoreSign(successes: nat, n: nat, p: real, c: real, x: real)
    requires n > 0 && p == successes as real / n as real && c == Z * Z / n as real
    ensures var scaled := Excess(successes, n, x) * Excess(successes, n, x) - 3.8416 * (x * (1.0 - x)) * n as real;
            (Score(p, c, x) > 0.0 <==> scaled > 0.0) && (Score(p, c, x) >= 0.0 <==> scaled >= 0.0)
  {
    var r := n as real;
    assert Z * Z == 3.8416;
    ScoreScaled(successes as real, r, Z, x);
    Positive(r, r);
    SignOfProduct(Score(p, c, x), r * r);
  }

  lemma SignOfProduct(a: real, d: real)
    requires d > 0.0
    ensures (a > 0.0 <==> a * d > 0.0) && (a >= 0.0 <==> a * d >= 0.0)
  {
    if a > 0.0 {
      Positive(a, d);
    } else if a < 0.0 {
      Positive(-a, d);
      assert -a * d == -(a * d);
    }
  }

  /** The bound as a root, with the observed rate and the width it comes from. */
  lemma BoundIs(successes: nat, n: nat, sqrt: real -> real) returns (p: real, c: real, m: real)
    requires IsSqrt(sqrt) && successes <= n && n > 0
    ensures p == successes as real / n as real && c == Z * Z / n as real && Margin(p, c, m) && c > 0.0
    ensures WilsonLowerBound(successes, n, Z, sqrt) == Lower(p, c, m)
  {
    p, c, m := RawIsLower(successes, n, Z, sqrt);
    RawBounds(successes, n, Z, sqrt);
    RatioPositive(Z * Z, n as real);
  }

  /** The successes exceed the share `x` of the observations by so much that the square of the excess is more than
      1.96 * 1.96 * x * (1 - x) for each observation. */
  predicate Beats(successes: nat, n: nat, x: real)
  {
    Excess(successes, n, x) > 0.0 && Excess(successes, n, x) * Excess(successes, n, x) - 3.8416 * (x * (1.0 - x)) * n as real > 0.0
  }

  /** The same, or exactly as much. */
  predicate Meets(successes: nat, n: nat, x: real)
  {
    Excess(successes, n, x) > 0.0 && Excess(successes, n, x) * Excess(successes, n, x) - 3.8416 * (x * (1.0 - x)) * n as real >= 0.0
  }

  lemma LowerAbove(successes: nat, n: nat, p: real, c: real, m: real, x: real)
    requires n > 0 && p == successes as real / n as real && c == Z * Z / n as real && Margin(p, c, m)
    ensures Lower(p, c, m) > x <==> Beats(successes, n, x)
    ensures p > x ==> (Lower(p, c, m) >= x <==> Meets(successes, n, x))
    ensures Meets(successes, n, x) ==> p > x
  {
    AboveIff(p, c, m, x);
    ScoreSign(successes, n, p, c, x);
    ExcessSign(successes, n, p, x);
  }

  lemma ExcessSign(successes: nat, n: nat, p: real, x: real)
    requires n > 0 && p == successes as real / n as real
    ensures p > x <==> Excess(successes, n, x) > 0.0
  {
    OverThreshold(successes as real, n as real, x);
  }

  /** At an observed rate of at most `x` the bound is below `x`, unless that is 0 or 1. */
  lemma LowerBelow(p: real, c: real, m: real, x: real)
    requires Margin(p, c, m) && c > 0.0 && p <= x && 0.0 < x < 1.0
    ensures Lower(p, c, m) < x
  {
    LowerAtMostRate(p, c, m);
    LowerIsLeastAccepted(p, c, m, x);
    Positive(x, 1.0 - x);
    PositiveProduct(c, x * (1.0 - x), c * (x * (1.0 - x)));
    assert Score(x, c, x) == -(c * (x * (1.0 - x)));
  }

  /** When the bound is above a rate, and when it is at least that rate, in whole numbers. */
  lemma BoundAbove(successes: nat, n: nat, x: real, sqrt: real -> real)
    requires IsSqrt(sqrt) && successes <= n && n > 0 && 0.0 < x < 1.0
    ensures WilsonLowerBound(successes, n, Z, sqrt) > x <==> Beats(successes, n, x)
    ensures WilsonLowerBound(successes, n, Z, sqrt) >= x <==> Meets(successes, n, x)
  {
    var p, c, m := BoundIs(successes, n, sqrt);
    LowerAbove(successes, n, p, c, m, x);
    if p <= x {
      LowerBelow(p, c, m, x);
    }
  }

  /** Acknowledged, without roots: at least three observations, and successes that beat the share 0.6. */
  lemma AckIff(successes: nat, failures: nat, sqrt: real -> real)
    requires IsSqrt(sqrt)
    ensures Decide(successes, failures, sqrt).Ack? <==> successes + failures >= 3 && Beats(successes, successes + failures, 0.6)
  {
    if successes + failures >= 3 {
      BoundAbove(successes, successes + failures, 0.6, sqrt);
    }
  }

  /** Nacked, without roots: at least three observations, and successes that do not meet the share 0.3. */
  lemma NackIff(successes: nat, failures: nat, sqrt: real -> real)
    requires IsSqrt(sqrt)
    ensures Decide(successes, failures, sqrt).Nack?
            <==> successes + failures >= 3 && !Meets(successes, successes + failures, 0.3)
  {
    var n := successes + failures;
    if n >= 3 {
      BoundAbove(successes, n, 0.3, sqrt);
      BoundAbove(successes, n, 0.6, sqrt);
      BeatsMeets(successes, n);
    }
  }

  /** Whatever beats 0.6 meets 0.3. */
  lemma BeatsMeets(successes: nat, n: nat)
    ensures Beats(successes, n, 0.6) ==> Meets(successes, n, 0.3)
  {
    var r, a, b := n as real, Excess(successes, n, 0.6), Excess(successes, n, 0.3);
    if Beats(successes, n, 0.6) {
      assert b == a + 0.3 * r;
      NonNegative(a, r);
      NonNegative(r, r);
      assert b * b == a * a + 0.6 * (a * r) + 0.09 * (r * r);
    }
  }

  /** On both sides of the thresholds. */
  lemma Decisions(sqrt: real -> real)
    requires IsSqrt(sqrt)
    ensures Decide(10, 1, sqrt) == Ack && Decide(9, 1, sqrt) == NoDecision
    ensures Decide(6, 0, sqrt) == Ack && Decide(5, 0, sqrt) == NoDecision
    ensures Decide(6, 4, sqrt) == NoDecision && Decide(5, 5, sqrt) == Nack
    ensures Decide(0, 3, sqrt) == Nack && Decide(0, 2, sqrt) == NoDecision
  {
    DecidedAt(10, 1, sqrt, Ack);
    DecidedAt(9, 1, sqrt, NoDecision);
    DecidedAt(6, 0, sqrt, Ack);
    DecidedAt(5, 0, sqrt, NoDecision);
    DecidedAt(6, 4, sqrt, NoDecision);
    DecidedAt(5, 5, sqrt, Nack);
    DecidedAt(0, 3, sqrt, Nack);
    DecidedAt(0, 2, sqrt, NoDecision);
  }

  lemma DecidedAt(successes: nat, failures: nat, sqrt: real -> real, decision: Decision)
    requires IsSqrt(sqrt)
    requires decision == Share(successes, successes + failures)
    ensures Decide(successes, failures, sqrt) == decision
  {
    AckIff(successes, failures, sqrt);
    NackIff(successes, failures, sqrt);
  }

  /** The decision by whole numbers. */
  function Share(successes: nat, n: nat): Decision
  {
    if n < 3 then NoDecision
    else if Beats(successes, n, 0.6) then Ack
    else if Meets(successes, n, 0.3) then NoDecision
    else Nack
  }
}
