/** The sparse index of one realm (hooks/eval-sparse.py, `RealmIndex`): BM25 through postings and a
    rare-atom lane, against a plain scan of the documents. */
module RealmIndex {
  import opened Prelude
  import opened Reals
  import opened ScoreDict
  import opened Sums
  import LaneFusion

  type Term = string
  type Doc = seq<Term>

  /** `tf`: how often a term occurs in a document. */
  function Tf(doc: Doc, term: Term): nat
  {
    if doc == [] then 0 else Tf(doc[..|doc| - 1], term) + if doc[|doc| - 1] == term then 1 else 0
  }

  lemma {:induction false} TfPositive(doc: Doc, term: Term)
    ensures Tf(doc, term) > 0 <==> term in doc
  {
    if doc != [] {
      TfPositive(doc[..|doc| - 1], term);
      assert doc == doc[..|doc| - 1] + [doc[|doc| - 1]];
    }
  }

  // ---------------------------------------------------------------------------
  // Postings
  // ---------------------------------------------------------------------------

  /** The documents that contain `term`, in order, with its frequency there. */
  function PostingsOf(docs: seq<Doc>, term: Term): seq<(nat, nat)>
  {
    if docs == [] then []
    else
      var d := |docs| - 1;
      PostingsOf(docs[..d], term) + if Tf(docs[d], term) > 0 then [(d, Tf(docs[d], term))] else []
  }

  type Postings = map<Term, seq<(nat, nat)>>

  function PostingsIn(p: Postings, term: Term): seq<(nat, nat)>
  {
    if term in p then p[term] else []
  }

  /** The index holds exactly the postings of the documents. */
  ghost predicate Indexed(p: Postings, docs: seq<Doc>)
  {
    forall t :: PostingsIn(p, t) == PostingsOf(docs, t)
  }

  /** `r` is `p` with a posting of document `d` for each term of `done`. */
  ghost predicate PostedTerms(p: Postings, r: Postings, d: nat, doc: Doc, done: set<Term>)
  {
    forall t :: PostingsIn(r, t) == PostingsIn(p, t) + if t in done then [(d, Tf(doc, t))] else []
  }

  lemma PostedTermsStep(p: Postings, mid: Postings, d: nat, doc: Doc, done: set<Term>, term: Term)
    requires PostedTerms(p, mid, d, doc, done) && term !in done
    ensures PostedTerms(p, mid[term := PostingsIn(mid, term) + [(d, Tf(doc, term))]], d, doc, done + {term})
  {
    var r := mid[term := PostingsIn(mid, term) + [(d, Tf(doc, term))]];
    forall t ensures PostingsIn(r, t) == PostingsIn(p, t) + if t in done + {term} then [(d, Tf(doc, t))] else [] {
      assert PostingsIn(mid, t) == PostingsIn(p, t) + if t in done then [(d, Tf(doc, t))] else [];
    }
  }

  /** One document: append `(d, tf)` for each of its terms. */
  method AddDoc(p: Postings, d: nat, doc: Doc) returns (r: Postings)
    ensures PostedTerms(p, r, d, doc, Elements(doc))
  {
    r := p;
    var terms := Enumerate(Elements(doc));
    assert Elements(terms[..0]) == {};
    for i := 0 to |terms|
      invariant PostedTerms(p, r, d, doc, Elements(terms[..i]))
    {
      PostedTermsStep(p, r, d, doc, Elements(terms[..i]), terms[i]);
      assert Elements(terms[..i + 1]) == Elements(terms[..i]) + {terms[i]};
      r := r[terms[i] := PostingsIn(r, terms[i]) + [(d, Tf(doc, terms[i]))]];
    }
    assert terms[..|terms|] == terms;
  }

  lemma IndexedStep(p: Postings, r: Postings, docs: seq<Doc>, doc: Doc)
    requires Indexed(p, docs) && PostedTerms(p, r, |docs|, doc, Elements(doc))
    ensures Indexed(r, docs + [doc])
  {
    assert (docs + [doc])[..|docs|] == docs;
    forall t ensures PostingsIn(r, t) == PostingsOf(docs + [doc], t) {
      TfPositive(doc, t);
    }
  }

  method BuildPostings(docs: seq<Doc>) returns (p: Postings)
    ensures Indexed(p, docs)
  {
    p := map[];
    for d := 0 to |docs|
      invariant Indexed(p, docs[..d])
    {
      var next := AddDoc(p, d, docs[d]);
      IndexedStep(p, next, docs[..d], docs[d]);
      assert docs[..d + 1] == docs[..d] + [docs[d]];
      p := next;
    }
    assert docs[..|docs|] == docs;
  }

  // ---------------------------------------------------------------------------
  // BM25
  // ---------------------------------------------------------------------------

  type Log = real -> real

  function TotalLength(docs: seq<Doc>): nat
  {
    if docs == [] then 0 else TotalLength(docs[..|docs| - 1]) + |docs[|docs| - 1]|
  }

  function AverageLength(docs: seq<Doc>): real
  {
    TotalLength(docs) as real / (if |docs| > 1 then |docs| else 1) as real
  }

  function Idf(docs: seq<Doc>, term: Term, ln: Log): real
  {
    var df := |PostingsOf(docs, term)| as real;
    ln(1.0 + (|docs| as real - df + 0.5) / (df + 0.5))
  }

  const K1 := 1.5
  const B := 0.75

  /** The term-frequency factor of BM25. */
  function Saturation(tf: nat, dl: nat, avgdl: real): real
    requires tf > 0 && avgdl > 0.0
  {
    SaturationDefined(tf, dl, avgdl);
    (tf as real * (K1 + 1.0)) / (tf as real + K1 * (1.0 - B + B * (dl as real / avgdl)))
  }

  lemma SaturationDefined(tf: nat, dl: nat, avgdl: real)
    requires tf > 0 && avgdl > 0.0
    ensures tf as real + K1 * (1.0 - B + B * (dl as real / avgdl)) > 0.0
  {
    DivideOrder(0.0, dl as real, avgdl);
  }

  lemma {:induction false} LengthPositive(docs: seq<Doc>, d: nat)
    requires d < |docs| && docs[d] != []
    ensures TotalLength(docs) > 0
  {
    if d < |docs| - 1 {
      LengthPositive(docs[..|docs| - 1], d);
    }
  }

  lemma AveragePositive(docs: seq<Doc>, d: nat, term: Term)
    requires d < |docs| && Tf(docs[d], term) > 0
    ensures AverageLength(docs) > 0.0
  {
    LengthPositive(docs, d);
    var n := (if |docs| > 1 then |docs| else 1) as real;
    ReciprocalPositive(n);
    Positive(TotalLength(docs) as real, 1.0 / n);
  }

  /** What one term adds to one document, by a plain scan: nothing unless the document contains it. */
  function Weight(docs: seq<Doc>, ln: Log, d: nat, term: Term): real
  {
    if d < |docs| && Tf(docs[d], term) > 0 then
      AveragePositive(docs, d, term);
      Idf(docs, term, ln) * Saturation(Tf(docs[d], term), |docs[d]|, AverageLength(docs))
    else 0.0
  }

  function WeightIn(docs: seq<Doc>, ln: Log, d: nat): Term -> real
  {
    t => Weight(docs, ln, d, t)
  }

  /** The BM25 score of document `d`: the sum over the distinct query terms. */
  ghost function DocScore(docs: seq<Doc>, ln: Log, query: Doc, d: nat): real
  {
    SumSet(Elements(query), WeightIn(docs, ln, d))
  }

  /** Document `d` contains a term of `terms`. */
  predicate Shares(docs: seq<Doc>, terms: set<Term>, d: nat)
  {
    d < |docs| && exists t :: t in terms && Tf(docs[d], t) > 0
  }

  lemma {:induction false} PostingAt(docs: seq<Doc>, term: Term, i: nat)
    requires i < |PostingsOf(docs, term)|
    ensures var (d, tf) := PostingsOf(docs, term)[i]; d < |docs| && tf == Tf(docs[d], term) > 0
  {
    var init := docs[..|docs| - 1];
    if i < |PostingsOf(init, term)| {
      PostingAt(init, term, i);
      assert init[PostingsOf(init, term)[i].0] == docs[PostingsOf(init, term)[i].0];
    }
  }

  /** What a list of postings adds to document `d`, `f(d)` for each entry that names it. */
  function PostSum(entries: seq<(nat, nat)>, d: nat, f: nat -> real): real
  {
    if entries == [] then 0.0
    else PostSum(entries[..|entries| - 1], d, f) + if entries[|entries| - 1].0 == d then f(d) else 0.0
  }

  predicate Names(entries: seq<(nat, nat)>, d: nat)
  {
    exists i :: 0 <= i < |entries| && entries[i].0 == d
  }

  lemma PostSumSnoc(entries: seq<(nat, nat)>, e: (nat, nat), d: nat, f: nat -> real)
    ensures PostSum(entries + [e], d, f) == PostSum(entries, d, f) + if e.0 == d then f(d) else 0.0
    ensures Names(entries + [e], d) <==> Names(entries, d) || e.0 == d
  {
    var all := entries + [e];
    assert all[..|entries|] == entries && all[|entries|] == e;
    if Names(entries, d) {
      var i :| 0 <= i < |entries| && entries[i].0 == d;
      assert all[i].0 == d;
    }
  }

  /** Document `d` contains the term. */
  predicate Contains(docs: seq<Doc>, d: nat, term: Term)
  {
    d < |docs| && Tf(docs[d], term) > 0
  }

  lemma ContainsSnoc(docs: seq<Doc>, doc: Doc, d: nat, term: Term)
    ensures Contains(docs + [doc], d, term) <==> Contains(docs, d, term) || (d == |docs| && Tf(doc, term) > 0)
  {
    assert d < |docs| ==> (docs + [doc])[d] == docs[d];
  }

  lemma PostingsSnoc(docs: seq<Doc>, doc: Doc, term: Term)
    ensures PostingsOf(docs + [doc], term)
         == if Tf(doc, term) > 0 then PostingsOf(docs, term) + [(|docs|, Tf(doc, term))] else PostingsOf(docs, term)
  {
    assert (docs + [doc])[..|docs|] == docs;
  }

  /** Every document that contains the term is named once, and no other. */
  lemma {:induction false} PostSumExact(docs: seq<Doc>, term: Term, d: nat, f: nat -> real)
    ensures PostSum(PostingsOf(docs, term), d, f) == if Contains(docs, d, term) then f(d) else 0.0
    ensures Names(PostingsOf(docs, term), d) <==> Contains(docs, d, term)
  {
    if docs != [] {
      var init, n := docs[..|docs| - 1], |docs| - 1;
      assert docs == init + [docs[n]];
      PostSumExact(init, term, d, f);
      PostingsSnoc(init, docs[n], term);
      ContainsSnoc(init, docs[n], d, term);
      PostSumSnoc(PostingsOf(init, term), (n, Tf(docs[n], term)), d, f);
    }
  }

  /** The score dict after the first entries of a term's postings. */
  ghost predicate Posted(s: Scores<nat>, r: Scores<nat>, entries: seq<(nat, nat)>, f: nat -> real)
  {
    && Consistent(r)
    && (forall d: nat :: At(r, d) == At(s, d) + PostSum(entries, d, f))
    && (forall d: nat :: d in r.value <==> d in s.value || Names(entries, d))
  }

  lemma PostedStep(s: Scores<nat>, mid: Scores<nat>, entries: seq<(nat, nat)>, e: (nat, nat), f: nat -> real)
    requires Posted(s, mid, entries, f)
    ensures Posted(s, Set(mid, e.0, At(mid, e.0) + f(e.0)), entries + [e], f)
  {
    var all, r := entries + [e], Set(mid, e.0, At(mid, e.0) + f(e.0));
    forall d: nat ensures At(r, d) == At(s, d) + PostSum(all, d, f)
                  ensures d in r.value <==> d in s.value || Names(all, d)
    {
      PostSumSnoc(entries, e, d, f);
      SetAt(mid, e.0, At(mid, e.0) + f(e.0), d);
    }
  }

  function WeightOf(docs: seq<Doc>, ln: Log, term: Term): nat -> real
  {
    (d: nat) => Weight(docs, ln, d, term)
  }

  /** The contribution the loop computes from a posting. */
  function Amount(docs: seq<Doc>, ln: Log, term: Term, d: nat, tf: nat): (r: real)
    requires d < |docs| && tf == Tf(docs[d], term) > 0
    ensures r == WeightOf(docs, ln, term)(d)
  {
    AveragePositive(docs, d, term);
    Idf(docs, term, ln) * Saturation(tf, |docs[d]|, AverageLength(docs))
  }

  /** The inner loop of `bm25`, for one query term. */
  method AddTerm(docs: seq<Doc>, ln: Log, s: Scores<nat>, term: Term, entries: seq<(nat, nat)>) returns (r: Scores<nat>)
    requires Consistent(s) && entries == PostingsOf(docs, term)
    ensures Posted(s, r, entries, WeightOf(docs, ln, term))
  {
    r := s;
    for i := 0 to |entries|
      invariant Posted(s, r, entries[..i], WeightOf(docs, ln, term))
    {
      var d, tf := entries[i].0, entries[i].1;
      PostingAt(docs, term, i);
      var amount := Amount(docs, ln, term, d, tf);
      PostedStep(s, r, entries[..i], entries[i], WeightOf(docs, ln, term));
      assert entries[..i + 1] == entries[..i] + [entries[i]];
      r := Set(r, d, At(r, d) + amount);
    }
    assert entries[..|entries|] == entries;
  }

  /** The score dict after the query terms in `done`. */
  ghost predicate Scored(docs: seq<Doc>, ln: Log, done: set<Term>, r: Scores<nat>)
  {
    && Consistent(r)
    && (forall d: nat :: At(r, d) == SumSet(done, WeightIn(docs, ln, d)))
    && (forall d: nat :: d in r.value <==> Shares(docs, done, d))
  }

  lemma ScoredStep(docs: seq<Doc>, ln: Log, done: set<Term>, mid: Scores<nat>, r: Scores<nat>, term: Term)
    requires Scored(docs, ln, done, mid) && term !in done
    requires Posted(mid, r, PostingsOf(docs, term), WeightOf(docs, ln, term))
    ensures Scored(docs, ln, done + {term}, r)
  {
    forall d: nat
      ensures At(r, d) == SumSet(done + {term}, WeightIn(docs, ln, d))
      ensures d in r.value <==> Shares(docs, done + {term}, d)
    {
      PostSumExact(docs, term, d, WeightOf(docs, ln, term));
      SumAdd(done, WeightIn(docs, ln, d), term);
      SharesMore(docs, done, term, d);
    }
  }

  lemma SharesMore(docs: seq<Doc>, done: set<Term>, term: Term, d: nat)
    ensures Shares(docs, done + {term}, d) <==> Shares(docs, done, d) || (d < |docs| && Tf(docs[d], term) > 0)
  {
    if Shares(docs, done, d) {
      var t :| t in done && Tf(docs[d], t) > 0;
      assert t in done + {term};
    }
    if d < |docs| && Tf(docs[d], term) > 0 {
      assert term in done + {term};
    }
  }

  /** The loop of `bm25` over the distinct query terms, in whatever order the set yields them. */
  method ScoreQuery(docs: seq<Doc>, ln: Log, postings: Postings, query: Doc) returns (r: Scores<nat>)
    requires Indexed(postings, docs)
    ensures Scored(docs, ln, Elements(query), r)
  {
    r := Scores([], map[]);
    var terms := Enumerate(Elements(query));
    assert Elements(terms[..0]) == {};
    for i := 0 to |terms|
      invariant Scored(docs, ln, Elements(terms[..i]), r)
    {
      var term := terms[i];
      var next := AddTerm(docs, ln, r, term, PostingsIn(postings, term));
      ScoredStep(docs, ln, Elements(terms[..i]), r, next, term);
      assert Elements(terms[..i + 1]) == Elements(terms[..i]) + {term};
      r := next;
    }
    assert terms[..|terms|] == terms;
  }

  /** `ranked` lists the documents that share a term with the query, best score first. */
  ghost predicate Ranking(docs: seq<Doc>, ln: Log, query: Doc, ranked: seq<nat>)
  {
    && Distinct(ranked)
    && (forall d: nat :: d in ranked <==> Shares(docs, Elements(query), d))
    && (forall i, j :: 0 <= i < j < |ranked| ==> DocScore(docs, ln, query, ranked[i]) >= DocScore(docs, ln, query, ranked[j]))
  }

  lemma ScoredRanks(docs: seq<Doc>, ln: Log, query: Doc, r: Scores<nat>)
    requires Scored(docs, ln, Elements(query), r)
    ensures Ranking(docs, ln, query, Ranked(r))
  {
    RankedCorrect(r);
    var ranked := Ranked(r);
    forall d: nat ensures d in ranked <==> Shares(docs, Elements(query), d) {
      assert d in ranked <==> d in Elements(ranked);
    }
    forall i, j | 0 <= i < j < |ranked|
      ensures DocScore(docs, ln, query, ranked[i]) >= DocScore(docs, ln, query, ranked[j])
    {
      assert At(r, ranked[i]) >= At(r, ranked[j]);
    }
  }

  // ---------------------------------------------------------------------------
  // Every document that is found has a positive score
  // ---------------------------------------------------------------------------

  lemma {:induction false} PostingsBounded(docs: seq<Doc>, term: Term)
    ensures |PostingsOf(docs, term)| <= |docs|
  {
    if docs != [] {
      PostingsBounded(docs[..|docs| - 1], term);
    }
  }

  lemma IdfPositive(docs: seq<Doc>, term: Term, ln: Log)
    requires IsLog(ln)
    ensures Idf(docs, term, ln) > 0.0
  {
    PostingsBounded(docs, term);
    var df := |PostingsOf(docs, term)| as real;
    RatioPositive(|docs| as real - df + 0.5, df + 0.5);
  }

  lemma SaturationPositive(tf: nat, dl: nat, avgdl: real)
    requires tf > 0 && avgdl > 0.0
    ensures Saturation(tf, dl, avgdl) > 0.0
  {
    SaturationDefined(tf, dl, avgdl);
    RatioPositive(tf as real * (K1 + 1.0), tf as real + K1 * (1.0 - B + B * (dl as real / avgdl)));
  }

  lemma WeightPositive(docs: seq<Doc>, ln: Log, d: nat, term: Term)
    requires IsLog(ln) && d < |docs| && Tf(docs[d], term) > 0
    ensures Weight(docs, ln, d, term) > 0.0
  {
    AveragePositive(docs, d, term);
    var idf, saturation := Idf(docs, term, ln), Saturation(Tf(docs[d], term), |docs[d]|, AverageLength(docs));
    IdfPositive(docs, term, ln);
    SaturationPositive(Tf(docs[d], term), |docs[d]|, AverageLength(docs));
    PositiveProduct(idf, saturation, Weight(docs, ln, d, term));
  }

  /** A plain scan would find the same documents: exactly those with a positive score. */
  lemma FoundIffPositive(docs: seq<Doc>, ln: Log, query: Doc, d: nat)
    requires IsLog(ln)
    ensures Shares(docs, Elements(query), d) <==> DocScore(docs, ln, query, d) > 0.0
  {
    var f := WeightIn(docs, ln, d);
    forall t | t in Elements(query) ensures f(t) >= 0.0 && (f(t) > 0.0 <==> d < |docs| && Tf(docs[d], t) > 0) {
      if d < |docs| && Tf(docs[d], t) > 0 {
        WeightPositive(docs, ln, d, t);
      }
    }
    SumNonNegative(Elements(query), f);
    if !Shares(docs, Elements(query), d) {
      var zero := (t: Term) => 0.0;
      SumAgrees(Elements(query), f, zero);
      SumOfZeros(Elements(query), zero);
    }
  }

  lemma {:induction false} SumOfZeros(s: set<Term>, zero: Term -> real)
    requires forall t :: zero(t) == 0.0
    ensures SumSet(s, zero) == 0.0
    decreases |s|
  {
    if s != {} {
      var t :| t in s;
      SumPick(s, zero, t);
      SumOfZeros(s - {t}, zero);
    }
  }

  // ---------------------------------------------------------------------------
  // The rare-atom lane
  // ---------------------------------------------------------------------------

  function DocsWith(docAtoms: seq<set<string>>, a: string): set<nat>
  {
    set d: nat | d < |docAtoms| && a in docAtoms[d]
  }

  /** An atom counts only if it occurs, and in at most `limit` documents. */
  predicate Rare(docAtoms: seq<set<string>>, limit: int, a: string)
  {
    DocsWith(docAtoms, a) != {} && |DocsWith(docAtoms, a)| <= limit
  }

  type AtomIndex = map<string, set<nat>>

  ghost predicate AtomIndexed(idx: AtomIndex, docAtoms: seq<set<string>>, limit: int)
  {
    && (forall a :: a in idx <==> Rare(docAtoms, limit, a))
    && (forall a :: a in idx ==> idx[a] == DocsWith(docAtoms, a))
  }

  function DocsIn(idx: AtomIndex, a: string): set<nat>
  {
    if a in idx then idx[a] else {}
  }

  /** `ai`: every atom of the first documents, rare or not, and none without a document. */
  ghost predicate AllAtoms(idx: AtomIndex, docAtoms: seq<set<string>>)
  {
    forall a :: DocsIn(idx, a) == DocsWith(docAtoms, a) && (a in idx ==> idx[a] != {})
  }

  method AddAtoms(idx: AtomIndex, ghost docAtoms: seq<set<string>>, d: nat, atoms: set<string>) returns (r: AtomIndex)
    requires AllAtoms(idx, docAtoms) && d == |docAtoms|
    ensures AllAtoms(r, docAtoms + [atoms])
  {
    r := idx;
    var list := Enumerate(atoms);
    for i := 0 to |list|
      invariant forall a :: DocsIn(r, a) == DocsIn(idx, a) + if a in list[..i] then {d} else {}
      invariant forall a :: a in r ==> r[a] != {}
    {
      assert list[..i + 1] == list[..i] + [list[i]];
      r := r[list[i] := DocsIn(r, list[i]) + {d}];
    }
    assert list[..|list|] == list;
    forall a ensures DocsIn(r, a) == DocsWith(docAtoms + [atoms], a) {
      assert a in list <==> a in Elements(list);
      assert DocsIn(idx, a) == DocsWith(docAtoms, a);
      assert DocsWith(docAtoms + [atoms], a) == DocsWith(docAtoms, a) + if a in atoms then {d} else {};
    }
  }

  method BuildAtoms(docAtoms: seq<set<string>>, limit: int) returns (idx: AtomIndex)
    ensures AtomIndexed(idx, docAtoms, limit)
  {
    var ai: AtomIndex := map[];
    for d := 0 to |docAtoms|
      invariant AllAtoms(ai, docAtoms[..d])
    {
      ai := AddAtoms(ai, docAtoms[..d], d, docAtoms[d]);
      assert docAtoms[..d + 1] == docAtoms[..d] + [docAtoms[d]];
    }
    assert docAtoms[..|docAtoms|] == docAtoms;
    idx := map a | a in ai && |ai[a]| <= limit :: ai[a];
    forall a ensures a in idx <==> Rare(docAtoms, limit, a) {
      assert DocsIn(ai, a) == DocsWith(docAtoms, a);
    }
  }

  /** Query atom `a` hits document `d`. */
  predicate Hits(docAtoms: seq<set<string>>, limit: int, a: string, d: nat)
  {
    Rare(docAtoms, limit, a) && d in DocsWith(docAtoms, a)
  }

  function Hit(docAtoms: seq<set<string>>, limit: int, d: nat): string -> real
  {
    a => if Hits(docAtoms, limit, a, d) then 1.0 else 0.0
  }

  predicate HitBy(docAtoms: seq<set<string>>, limit: int, atoms: set<string>, d: nat)
  {
    exists a :: a in atoms && Hits(docAtoms, limit, a, d)
  }

  /** How many rare atoms of the query document `d` contains. */
  ghost function AtomScore(docAtoms: seq<set<string>>, limit: int, atoms: set<string>, d: nat): real
  {
    SumSet(atoms, Hit(docAtoms, limit, d))
  }

  function One(): nat -> real
  {
    (d: nat) => 1.0
  }

  lemma {:induction false} PostSumDistinct(ds: seq<nat>, entries: seq<(nat, nat)>, d: nat, f: nat -> real)
    requires Distinct(ds) && |entries| == |ds| && forall i :: 0 <= i < |ds| ==> entries[i].0 == ds[i]
    ensures PostSum(entries, d, f) == if d in ds then f(d) else 0.0
    ensures Names(entries, d) <==> d in ds
  {
    if ds != [] {
      var n := |ds| - 1;
      PostSumDistinct(ds[..n], entries[..n], d, f);
      assert ds == ds[..n] + [ds[n]];
      if d in ds {
        var i :| 0 <= i < |ds| && ds[i] == d;
        assert entries[i].0 == d;
      }
    }
  }

  /** The score dict after the query atoms in `done`. */
  ghost predicate AtomScored(docAtoms: seq<set<string>>, limit: int, done: set<string>, r: Scores<nat>)
  {
    && Consistent(r)
    && (forall d: nat :: At(r, d) == SumSet(done, Hit(docAtoms, limit, d)))
    && (forall d: nat :: d in r.value <==> HitBy(docAtoms, limit, done, d))
  }

  lemma HitByMore(docAtoms: seq<set<string>>, limit: int, done: set<string>, a: string, d: nat)
    ensures HitBy(docAtoms, limit, done + {a}, d) <==> HitBy(docAtoms, limit, done, d) || Hits(docAtoms, limit, a, d)
  {
    if HitBy(docAtoms, limit, done, d) {
      var x :| x in done && Hits(docAtoms, limit, x, d);
      assert x in done + {a};
    }
    if Hits(docAtoms, limit, a, d) {
      assert a in done + {a};
    }
  }

  lemma AtomStep(docAtoms: seq<set<string>>, limit: int, done: set<string>, mid: Scores<nat>, r: Scores<nat>,
                 a: string, ds: seq<nat>, entries: seq<(nat, nat)>)
    requires AtomScored(docAtoms, limit, done, mid) && a !in done
    requires Distinct(ds) && forall d: nat :: d in ds <==> Hits(docAtoms, limit, a, d)
    requires |entries| == |ds| && forall i :: 0 <= i < |ds| ==> entries[i].0 == ds[i]
    requires Posted(mid, r, entries, One())
    ensures AtomScored(docAtoms, limit, done + {a}, r)
  {
    forall d: nat
      ensures At(r, d) == SumSet(done + {a}, Hit(docAtoms, limit, d))
      ensures d in r.value <==> HitBy(docAtoms, limit, done + {a}, d)
    {
      PostSumDistinct(ds, entries, d, One());
      SumAdd(done, Hit(docAtoms, limit, d), a);
      HitByMore(docAtoms, limit, done, a, d);
    }
  }

  /** The inner loop of `atom`: one more hit for each document. */
  method CountHits(s: Scores<nat>, ds: seq<nat>) returns (r: Scores<nat>, ghost entries: seq<(nat, nat)>)
    requires Consistent(s)
    ensures |entries| == |ds| && forall i :: 0 <= i < |ds| ==> entries[i].0 == ds[i]
    ensures Posted(s, r, entries, One())
  {
    r := s;
    entries := seq(|ds|, i requires 0 <= i < |ds| => (ds[i], 1));
    for i := 0 to |ds|
      invariant Posted(s, r, entries[..i], One())
    {
      PostedStep(s, r, entries[..i], entries[i], One());
      assert entries[..i + 1] == entries[..i] + [entries[i]];
      r := Set(r, ds[i], At(r, ds[i]) + 1.0);
    }
    assert entries[..|ds|] == entries;
  }

  method ScoreAtoms(ghost docAtoms: seq<set<string>>, ghost limit: int, idx: AtomIndex, atoms: set<string>)
    returns (r: Scores<nat>)
    requires AtomIndexed(idx, docAtoms, limit)
    ensures AtomScored(docAtoms, limit, atoms, r)
  {
    r := Scores([], map[]);
    var list := Enumerate(atoms);
    assert Elements(list[..0]) == {};
    for i := 0 to |list|
      invariant AtomScored(docAtoms, limit, Elements(list[..i]), r)
    {
      var ds := Enumerate(DocsIn(idx, list[i]));
      forall d: nat ensures d in ds <==> Hits(docAtoms, limit, list[i], d) {
        assert d in ds <==> d in Elements(ds);
      }
      var next, entries := CountHits(r, ds);
      AtomStep(docAtoms, limit, Elements(list[..i]), r, next, list[i], ds, entries);
      assert Elements(list[..i + 1]) == Elements(list[..i]) + {list[i]};
      r := next;
    }
    assert list[..|list|] == list;
  }

  /** `ranked` lists the documents that a rare query atom hits, most hits first. */
  ghost predicate AtomRanking(docAtoms: seq<set<string>>, limit: int, atoms: set<string>, ranked: seq<nat>)
  {
    && Distinct(ranked)
    && (forall d: nat :: d in ranked <==> HitBy(docAtoms, limit, atoms, d))
    && (forall i, j :: 0 <= i < j < |ranked|
          ==> AtomScore(docAtoms, limit, atoms, ranked[i]) >= AtomScore(docAtoms, limit, atoms, ranked[j]))
  }

  lemma AtomScoredRanks(docAtoms: seq<set<string>>, limit: int, atoms: set<string>, r: Scores<nat>)
    requires AtomScored(docAtoms, limit, atoms, r)
    ensures AtomRanking(docAtoms, limit, atoms, Ranked(r))
  {
    RankedCorrect(r);
    var ranked := Ranked(r);
    forall d: nat ensures d in ranked <==> HitBy(docAtoms, limit, atoms, d) {
      assert d in ranked <==> d in Elements(ranked);
    }
    forall i, j | 0 <= i < j < |ranked|
      ensures AtomScore(docAtoms, limit, atoms, ranked[i]) >= AtomScore(docAtoms, limit, atoms, ranked[j])
    {
      assert At(r, ranked[i]) >= At(r, ranked[j]);
    }
  }

  // ---------------------------------------------------------------------------
  // The index object
  // ---------------------------------------------------------------------------

  function IdsOf(ids: seq<string>, ranked: seq<nat>): seq<string>
    requires forall i :: 0 <= i < |ranked| ==> ranked[i] < |ids|
  {
    seq(|ranked|, i requires 0 <= i < |ranked| => ids[ranked[i]])
  }

  /** `r` holds the ids of the first `k` ranked documents. */
  ghost predicate Picked(ids: seq<string>, ranked: seq<nat>, k: int, r: seq<string>)
  {
    && |r| == |Take(ranked, k)|
    && (forall i :: 0 <= i < |r| ==> ranked[i] < |ids| && r[i] == ids[ranked[i]])
  }

  /** `r` holds the ids of the `k` best documents by the plain score. */
  ghost predicate IsBm25(ids: seq<string>, docs: seq<Doc>, ln: Log, query: Doc, k: int, r: seq<string>)
  {
    exists ranked :: Ranking(docs, ln, query, ranked) && Picked(ids, ranked, k, r)
  }

  /** `r` holds the ids of the `k` documents with the most rare atoms of the query. */
  ghost predicate IsAtom(ids: seq<string>, docAtoms: seq<set<string>>, limit: int, atoms: set<string>, k: int, r: seq<string>)
  {
    exists ranked :: AtomRanking(docAtoms, limit, atoms, ranked) && Picked(ids, ranked, k, r)
  }

  class Index {
    const ids: seq<string>
    const docs: seq<Doc>
    const docAtoms: seq<set<string>>
    const atomDf: int
    const ln: Log
    var postings: Postings
    var atomIdx: AtomIndex

    ghost predicate Valid()
      reads this
    {
      && |ids| == |docs| == |docAtoms|
      && Indexed(postings, docs) && AtomIndexed(atomIdx, docAtoms, atomDf)
    }

    /** `atoms` is the atom extractor applied to each document. */
    constructor (ids: seq<string>, docs: seq<Doc>, docAtoms: seq<set<string>>, atomDf: int, ln: Log)
      requires |ids| == |docs| == |docAtoms|
      ensures Valid()
      ensures this.ids == ids && this.docs == docs && this.docAtoms == docAtoms && this.atomDf == atomDf && this.ln == ln
    {
      this.ids, this.docs, this.docAtoms, this.atomDf, this.ln := ids, docs, docAtoms, atomDf, ln;
      var p := BuildPostings(docs);
      var a := BuildAtoms(docAtoms, atomDf);
      postings, atomIdx := p, a;
    }

    /** `bm25`: the ids of the `k` best documents by the plain-scan score. */
    method Bm25(query: Doc, k: int) returns (r: seq<string>)
      requires Valid()
      ensures IsBm25(ids, docs, ln, query, k, r)
    {
      var s := ScoreQuery(docs, ln, postings, query);
      ScoredRanks(docs, ln, query, s);
      var all := Ranked(s);
      var best := Take(all, k);
      forall i | 0 <= i < |best| ensures best[i] < |ids| {
        assert all[i] in all;
      }
      r := IdsOf(ids, best);
      assert Picked(ids, all, k, r);
    }

    /** `atom`: the ids of the `k` documents with the most rare query atoms. `most_common` of a negative
        number is empty. */
    method Atom(atoms: set<string>, k: int) returns (r: seq<string>)
      requires Valid()
      ensures IsAtom(ids, docAtoms, atomDf, atoms, if k < 0 then 0 else k, r)
    {
      var s := ScoreAtoms(docAtoms, atomDf, atomIdx, atoms);
      AtomScoredRanks(docAtoms, atomDf, atoms, s);
      var all := Ranked(s);
      var best := Take(all, if k < 0 then 0 else k);
      forall i | 0 <= i < |best| ensures best[i] < |ids| {
        assert all[i] in all;
        assert HitBy(docAtoms, atomDf, atoms, all[i]);
      }
      r := IdsOf(ids, best);
      assert Picked(ids, all, if k < 0 then 0 else k, r);
    }

    /** `union`: the two lanes fused. */
    method Union(query: Doc, atoms: set<string>, k: int) returns (r: seq<string>)
      requires Valid()
      ensures exists bm25, atom :: IsBm25(ids, docs, ln, query, k, bm25)
                && IsAtom(ids, docAtoms, atomDf, atoms, if k < 0 then 0 else k, atom)
                && LaneFusion.IsUnion(bm25, atom, k, r)
    {
      var a := Bm25(query, k);
      var b := Atom(atoms, k);
      r := LaneFusion.Union(a, b, k);
    }
  }
}
