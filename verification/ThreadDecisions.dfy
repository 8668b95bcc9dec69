/** The numbers of thread inference (chitta-mcp/thread_inference.py): term weights, similarities and thresholds at
    literal values. */
module ThreadDecisions {
  import opened Prelude
  import opened Reals
  import opened Sums
  import opened ThreadInference

  // ---------------------------------------------------------------------------
  // Term weights
  // ---------------------------------------------------------------------------

  /** Of two messages, "a" is in both and "b" in one: shares 2/3 and 1/3 of the three tokens, with idf ln(3/3) + 1 and
      ln(3/2) + 1. */
  lemma TwoMessages(ln: real -> real)
    ensures var docs := [{"a", "b"}, {"a"}];
            && Df(docs, "a") == 2 && TermWeight(docs, ln, "a") == 2.0 / 3.0 * (ln(1.0) + 1.0)
            && Df(docs, "b") == 1 && TermWeight(docs, ln, "b") == 1.0 / 3.0 * (ln(1.5) + 1.0)
  {
    var docs: seq<set<Term>> := [{"a", "b"}, {"a"}];
    assert docs[..1] == [{"a", "b"}] && docs[..1][..0] == [];
    assert Df(docs[..1], "a") == 1 && Df(docs[..1], "b") == 1;
    assert |{"a", "b"}| == 2 && |{"a"}| == 1;
    assert TokenCount(docs[..1]) == 2 && TokenCount(docs) == 3;
  }

  /** A term in more messages has the larger share, and a longer session the smaller ones. */
  lemma ShareIs(docs: seq<set<Term>>, ln: real -> real, term: Term)
    requires Df(docs, term) > 0
    ensures TokenCount(docs) > 0
    ensures TermWeight(docs, ln, term) * TokenCount(docs) as real
         == Df(docs, term) as real * (ln((|docs| + 1) as real / (Df(docs, term) + 1) as real) + 1.0)
  {
    DfBounds(docs, term);
    var df, total := Df(docs, term) as real, TokenCount(docs) as real;
    assert (Df(docs, term) + 1) as real == df + 1.0;
    Cancel(df, total, ln((|docs| + 1) as real / (df + 1.0)) + 1.0);
  }

  lemma Cancel(df: real, total: real, l: real)
    requires total > 0.0
    ensures df / total * l * total == df * l
  {
    var q := df / total;
    assert q * total == df;
    assert q * l * total == (q * total) * l;
  }

  // ---------------------------------------------------------------------------
  // Similarities
  // ---------------------------------------------------------------------------

  function Two(a: real, b: real): Fingerprint
  {
    map["x" := a, "y" := b]
  }

  function One(): Fingerprint
  {
    map["x" := 1.0]
  }

  lemma SumOfOne(f: Term -> real)
    ensures SumSet({"x"}, f) == f("x")
  {
    var none: set<Term> := {};
    SumAdd(none, f, "x");
    assert none + {"x"} == {"x"};
    assert SumSet(none, f) == 0.0;
  }

  lemma SumOfTwo(f: Term -> real)
    ensures SumSet({"x", "y"}, f) == f("x") + f("y")
  {
    SumOfOne(f);
    SumAdd({"x"}, f, "y");
    assert {"x"} + {"y"} == {"x", "y"};
  }

  lemma Root(sqrt: real -> real, x: real, r: real)
    requires IsSqrt(sqrt) && r >= 0.0 && x == r * r
    ensures sqrt(x) == r
  {
    SquareSign(r, x);
    SquareOrder(sqrt(x), r);
    SquareOrder(r, sqrt(x));
  }

  lemma Sides(a: real, b: real)
    ensures Dot(Two(a, b), One()) == a
    ensures NormSquared(Two(a, b)) == a * a + b * b
    ensures NormSquared(One()) == 1.0
  {
    var p, q := Two(a, b), One();
    assert p.Keys == {"x", "y"} && q.Keys == {"x"} && p.Keys * q.Keys == {"x"};
    SumOfOne(Product(p, q));
    SumOfTwo(Product(p, p));
    SumOfOne(Product(q, q));
  }

  /** The similarity of a fingerprint with weights `a` and `b` to one that has only the first term is `a / h`, where
      `h` is the hypotenuse. */
  lemma RightTriangle(a: real, b: real, h: real, sqrt: real -> real)
    requires IsSqrt(sqrt) && h > 0.0 && h * h == a * a + b * b
    ensures Cosine(Two(a, b), One(), sqrt) == a / h
  {
    assert "x" in One() && "x" in Two(a, b);
    assert "x" in Two(a, b).Keys * One().Keys;
    Sides(a, b);
    Root(sqrt, NormSquared(Two(a, b)), h);
    Root(sqrt, 1.0, 1.0);
    assert h * 1.0 == h;
  }

  // ---------------------------------------------------------------------------
  // Decisions
  // ---------------------------------------------------------------------------

  /** What the best similarity decides: nothing below 0.30, and from there on a new thread beside one that is leased to
      another session, or else a new thread after the old one up to 0.55, and the old thread itself from 0.55 on. */
  lemma DecidedBy(action: Action, fp: Fingerprint, threads: seq<Thread>, leases: seq<Lease>, session: string,
                  sqrt: real -> real, i: nat)
    requires IsBest(fp, threads, sqrt, i) && Fits(action, fp, threads, leases, session, sqrt)
    ensures var s, held := Similarity(fp, threads, sqrt, i), HeldByOther(leases, threads[i].id, session);
            action == if s < 0.30 then Create
                      else if held then CreateBeside(i, OwnerOf(leases, threads[i].id))
                      else if s < 0.55 then Pivot(i)
                      else Extend(i)
  {
    match action
    case Create => assert Similarity(fp, threads, sqrt, i) < PIVOT;
    case CreateBeside(j, _) => BestUnique(fp, threads, sqrt, i, j);
    case Extend(j) => BestUnique(fp, threads, sqrt, i, j);
    case Pivot(j) => BestUnique(fp, threads, sqrt, i, j);
    case Skip =>
  }

  /** Similarities 7/25, 5/13 and 3/5 to the only thread: a new thread, a pivot, an extension. */
  lemma ThreeSides(action: Action, a: real, b: real, h: real, sqrt: real -> real)
    requires IsSqrt(sqrt) && (a, b, h) in {(7.0, 24.0, 25.0), (5.0, 12.0, 13.0), (3.0, 4.0, 5.0)}
    requires Fits(action, Two(a, b), [Thread("t", One())], [], "s", sqrt)
    ensures action == if a == 7.0 then Create else if a == 5.0 then Pivot(0) else Extend(0)
  {
    var threads := [Thread("t", One())];
    RightTriangle(a, b, h, sqrt);
    RatioPositive(a, h);
    assert IsBest(Two(a, b), threads, sqrt, 0);
    assert !HeldByOther([], "t", "s");
    DecidedBy(action, Two(a, b), threads, [], "s", sqrt, 0);
  }

  /** The last lease row of a thread says who holds it, and a session does not stand in its own way. */
  lemma {:induction false} LastLease(leases: seq<Lease>, thread: string, session: string, i: nat)
    requires i < |leases| && thread != "" && leases[i].threadId == thread
    requires forall j :: i < j < |leases| ==> leases[j].threadId != thread
    ensures OwnerOf(leases, thread) == leases[i].session
    ensures HeldByOther(leases, thread, session) <==> leases[i].session != "" && leases[i].session != session
  {
    if i < |leases| - 1 {
      LastLease(leases[..|leases| - 1], thread, session, i);
    }
  }
}
