/** What a BM25 weight is worth (hooks/eval-sparse.py, `RealmIndex`): how it moves with rarity, frequency and length, and
    its value on a literal corpus. */
module RealmWeights {
  import opened Prelude
  import opened Reals
  import opened RealmIndex

  /** What is used of `math.log` to compare. */
  ghost predicate Grows(ln: Log)
  {
    forall x: real, y: real :: 1.0 <= x < y ==> ln(x) < ln(y)
  }

  /** The document frequency of a term. */
  function Frequency(docs: seq<Doc>, term: Term): nat
  {
    if docs == [] then 0
    else Frequency(docs[..|docs| - 1], term) + if term in docs[|docs| - 1] then 1 else 0
  }

  lemma {:induction false} PostingsCount(docs: seq<Doc>, term: Term)
    ensures |PostingsOf(docs, term)| == Frequency(docs, term) <= |docs|
  {
    if docs != [] {
      PostingsCount(docs[..|docs| - 1], term);
      TfPositive(docs[|docs| - 1], term);
    }
  }

  lemma OddsFall(n: real, a: real, b: real)
    requires 0.0 <= a < b <= n
    ensures (n - a + 0.5) / (a + 0.5) > (n - b + 0.5) / (b + 0.5) > 0.0
  {
    var p, q := n - a + 0.5, n - b + 0.5;
    RatioPositive(q, b + 0.5);
    QuotientOrder(p, a + 0.5, q, b + 0.5);
  }

  /** A larger numerator over a smaller denominator. */
  lemma QuotientOrder(p: real, c: real, q: real, d: real)
    requires p > q > 0.0 && 0.0 < c < d
    ensures p / c > q / d
  {
    var x, y := p / c, q / d;
    assert x * c == p && y * d == q;
    RatioPositive(q, d);
    Positive(y, d - c);
    assert (x - y) * c == (p - q) + y * (d - c);
    QuotientPositive(x - y, c);
  }

  /** A rarer term weighs more. */
  lemma RarerIdf(docs: seq<Doc>, ln: Log, rare: Term, common: Term)
    requires Grows(ln) && Frequency(docs, rare) < Frequency(docs, common)
    ensures Idf(docs, rare, ln) > Idf(docs, common, ln)
  {
    PostingsCount(docs, rare);
    PostingsCount(docs, common);
    OddsFall(|docs| as real, Frequency(docs, rare) as real, Frequency(docs, common) as real);
  }

  /** The length penalty of a document. */
  function Penalty(dl: nat, avgdl: real): real
    requires avgdl > 0.0
  {
    0.375 + 1.125 * (dl as real / avgdl)
  }

  lemma PenaltyPositive(dl: nat, avgdl: real)
    requires avgdl > 0.0
    ensures Penalty(dl, avgdl) > 0.0
  {
    DivideOrder(0.0, dl as real, avgdl);
  }

  /** The saturation formula with its constants. */
  lemma SaturationIs(tf: nat, dl: nat, avgdl: real)
    requires tf > 0 && avgdl > 0.0
    ensures tf as real + Penalty(dl, avgdl) > 0.0
    ensures Saturation(tf, dl, avgdl) == 2.5 * tf as real / (tf as real + Penalty(dl, avgdl))
  {
    PenaltyPositive(dl, avgdl);
    var r := dl as real / avgdl;
    assert K1 * (1.0 - B + B * r) == 0.375 + 1.125 * r;
  }

  /** More occurrences weigh more. */
  lemma MoreOccurrences(tf: nat, more: nat, dl: nat, avgdl: real)
    requires 0 < tf < more && avgdl > 0.0
    ensures Saturation(tf, dl, avgdl) < Saturation(more, dl, avgdl) < 2.5
  {
    SaturationIs(tf, dl, avgdl);
    SaturationIs(more, dl, avgdl);
    PenaltyPositive(dl, avgdl);
    ShareGrows(tf as real, more as real, Penalty(dl, avgdl));
  }

  lemma ShareGrows(a: real, b: real, c: real)
    requires 0.0 < a < b && c > 0.0
    ensures 2.5 * a / (a + c) < 2.5 * b / (b + c) < 2.5
  {
    ShareIs(a, c);
    ShareIs(b, c);
    QuotientFalls(c, a + c, b + c);
  }

  lemma ShareIs(a: real, c: real)
    requires a > 0.0 && c > 0.0
    ensures 2.5 * a / (a + c) == 2.5 * (1.0 - c / (a + c)) && c / (a + c) > 0.0
  {
    var d := a + c;
    var x, y := 2.5 * a / d, c / d;
    assert x * d == 2.5 * a && y * d == c;
    assert 2.5 * (1.0 - y) * d == 2.5 * d - 2.5 * c;
    CancelFactor(x, 2.5 * (1.0 - y), d);
    RatioPositive(c, d);
  }

  lemma QuotientFalls(p: real, c: real, d: real)
    requires p > 0.0 && 0.0 < c < d
    ensures p / c > p / d
  {
    var x, y := p / c, p / d;
    assert x * c == p && y * d == p;
    RatioPositive(p, d);
    Positive(y, d - c);
    assert (x - y) * c == y * (d - c);
    QuotientPositive(x - y, c);
  }

  /** In a longer document an occurrence weighs less. */
  lemma LongerDocument(tf: nat, dl: nat, longer: nat, avgdl: real)
    requires tf > 0 && dl < longer && avgdl > 0.0
    ensures Saturation(tf, longer, avgdl) < Saturation(tf, dl, avgdl)
  {
    SaturationIs(tf, dl, avgdl);
    SaturationIs(tf, longer, avgdl);
    PenaltyPositive(dl, avgdl);
    RatioPositive((longer - dl) as real, avgdl);
    assert (longer - dl) as real / avgdl == longer as real / avgdl - dl as real / avgdl;
    QuotientFalls(2.5 * tf as real, tf as real + Penalty(dl, avgdl), tf as real + Penalty(longer, avgdl));
  }

  // ---------------------------------------------------------------------------
  // A literal corpus
  // ---------------------------------------------------------------------------

  /** A document of one term and one of three. */
  function Corpus(): seq<Doc>
  {
    [["a"], ["b", "b", "b"]]
  }

  lemma TfSnoc(doc: Doc, t: Term, term: Term)
    ensures Tf(doc + [t], term) == Tf(doc, term) + if t == term then 1 else 0
  {
    assert (doc + [t])[..|doc|] == doc;
  }

  lemma CorpusTf()
    ensures Tf(["a"], "a") == 1 && Tf(["b", "b", "b"], "b") == 3
  {
    var none: Doc := [];
    TfSnoc(none, "a", "a");
    TfSnoc(none, "b", "b");
    TfSnoc(none + ["b"], "b", "b");
    TfSnoc(none + ["b"] + ["b"], "b", "b");
    assert none + ["a"] == ["a"] && none + ["b"] + ["b"] + ["b"] == ["b", "b", "b"];
  }

  lemma CorpusShape()
    ensures AverageLength(Corpus()) == 2.0
    ensures Frequency(Corpus(), "a") == 1 && Frequency(Corpus(), "b") == 1
  {
    var docs := Corpus();
    assert docs[..1] == [["a"]] && docs[..1][..0] == [];
    assert TotalLength(docs[..1]) == 1 && TotalLength(docs) == 4;
    assert Frequency(docs[..1], "a") == 1 && Frequency(docs[..1], "b") == 0;
  }

  /** Each term is in one document of two: ln 2 for rarity, times 2.5 * 1 / (1 + 0.9375) in the short document and
      2.5 * 3 / (3 + 2.0625) in the long one. */
  lemma CorpusWeights(ln: Log)
    ensures Weight(Corpus(), ln, 0, "a") == ln(2.0) * (40.0 / 31.0)
    ensures Weight(Corpus(), ln, 1, "b") == ln(2.0) * (40.0 / 27.0)
    ensures Weight(Corpus(), ln, 0, "b") == 0.0 && Weight(Corpus(), ln, 1, "a") == 0.0
  {
    var docs := Corpus();
    CorpusTf();
    CorpusShape();
    PostingsCount(docs, "a");
    PostingsCount(docs, "b");
    assert Idf(docs, "a", ln) == ln(2.0) && Idf(docs, "b", ln) == ln(2.0);
    TfPositive(docs[0], "b");
    TfPositive(docs[1], "a");
    SaturationIs(1, 1, 2.0);
    SaturationIs(3, 3, 2.0);
    assert Saturation(1, 1, 2.0) == 40.0 / 31.0 && Saturation(3, 3, 2.0) == 40.0 / 27.0;
  }
}
