/** Matching a session to a work thread by topic (chitta-mcp/thread_inference.py): fingerprints,
    cosine similarity, and the choice of `infer`. */
module ThreadInference {
  import opened Prelude
  import opened Reals
  import opened Sums

  type Term = string
  type Fingerprint = map<Term, real>

  // ---------------------------------------------------------------------------
  // Fingerprints
  // ---------------------------------------------------------------------------

  /** How many messages contain the term. */
  function Df(docs: seq<set<Term>>, term: Term): nat
  {
    if docs == [] then 0 else Df(docs[..|docs| - 1], term) + if term in docs[|docs| - 1] then 1 else 0
  }

  /** How many tokens all messages have together, each message counting a token once. */
  function TokenCount(docs: seq<set<Term>>): nat
  {
    if docs == [] then 0 else TokenCount(docs[..|docs| - 1]) + |docs[|docs| - 1]|
  }

  lemma {:induction false} DfBounds(docs: seq<set<Term>>, term: Term)
    ensures Df(docs, term) <= |docs|
    ensures Df(docs, term) > 0 ==> TokenCount(docs) > 0
  {
    if docs != [] {
      DfBounds(docs[..|docs| - 1], term);
      var last := docs[|docs| - 1];
      if term in last {
        assert |last - {term}| == |last| - 1;
      }
    }
  }

  type Counter = map<Term, nat>

  function CountIn(c: Counter, term: Term): nat
  {
    if term in c then c[term] else 0
  }

  /** `c` counts, for each term, the messages among `docs` that contain it. */
  ghost predicate Counts(c: Counter, docs: seq<set<Term>>)
  {
    && (forall t :: CountIn(c, t) == Df(docs, t))
    && (forall t :: t in c ==> c[t] > 0)
  }

  method CountDoc(c: Counter, ghost docs: seq<set<Term>>, doc: set<Term>) returns (r: Counter)
    requires Counts(c, docs)
    ensures Counts(r, docs + [doc])
  {
    r := c;
    var tokens := Enumerate(doc);
    for i := 0 to |tokens|
      invariant forall t :: CountIn(r, t) == CountIn(c, t) + if t in tokens[..i] then 1 else 0
      invariant forall t :: t in r ==> r[t] > 0
    {
      assert tokens[..i + 1] == tokens[..i] + [tokens[i]];
      r := r[tokens[i] := CountIn(r, tokens[i]) + 1];
    }
    assert tokens[..|tokens|] == tokens;
    forall t ensures CountIn(r, t) == Df(docs + [doc], t) {
      assert t in tokens <==> t in Elements(tokens);
      assert (docs + [doc])[..|docs|] == docs;
    }
  }

  /** The weight `fingerprint` gives a term. */
  function TermWeight(docs: seq<set<Term>>, ln: real -> real, term: Term): real
    requires Df(docs, term) > 0
  {
    DfBounds(docs, term);
    ShareTimesIdf(Df(docs, term) as real, TokenCount(docs) as real, (|docs| + 1) as real, ln)
  }

  function ShareTimesIdf(df: real, total: real, n: real, ln: real -> real): real
    requires 0.0 < df && 0.0 < total
  {
    (df / total) * (ln(n / (df + 1.0)) + 1.0)
  }

  lemma ShareTimesIdfPositive(df: real, total: real, n: real, ln: real -> real)
    requires IsLog(ln) && 0.0 < df && df + 1.0 <= n && 0.0 < total
    ensures ShareTimesIdf(df, total, n, ln) > 0.0
  {
    var q := n / (df + 1.0);
    assert q >= 1.0 by {
      assert (df + 1.0) * (q - 1.0) == n - (df + 1.0);
      QuotientSign(q - 1.0, df + 1.0);
    }
    assert df / total > 0.0 by {
      assert total * (df / total) == df;
      QuotientPositive(df / total, total);
    }
    Positive(df / total, ln(q) + 1.0);
  }

  lemma TermWeightPositive(docs: seq<set<Term>>, ln: real -> real, term: Term)
    requires IsLog(ln) && Df(docs, term) > 0
    ensures TermWeight(docs, ln, term) > 0.0
  {
    DfBounds(docs, term);
    ShareTimesIdfPositive(Df(docs, term) as real, TokenCount(docs) as real, (|docs| + 1) as real, ln);
  }

  /** `fp` is the fingerprint of the messages: one positive weight for each term that occurs. */
  ghost predicate IsFingerprint(fp: Fingerprint, docs: seq<set<Term>>, ln: real -> real)
  {
    && (forall t :: t in fp <==> Df(docs, t) > 0)
    && (forall t :: t in fp ==> fp[t] == TermWeight(docs, ln, t))
  }

  ghost predicate AllPositive(fp: Fingerprint)
  {
    forall t :: t in fp ==> fp[t] > 0.0
  }

  /** `fingerprint`: the counter of all tokens is at the same time the document frequency. */
  method MakeFingerprint(docs: seq<set<Term>>, ln: real -> real) returns (fp: Fingerprint)
    requires IsLog(ln)
    ensures IsFingerprint(fp, docs, ln) && AllPositive(fp)
  {
    var tf: Counter := map[];
    for n := 0 to |docs|
      invariant Counts(tf, docs[..n])
    {
      tf := CountDoc(tf, docs[..n], docs[n]);
      assert docs[..n + 1] == docs[..n] + [docs[n]];
    }
    assert docs[..|docs|] == docs;
    forall t ensures t in tf <==> Df(docs, t) > 0 {
      assert CountIn(tf, t) == Df(docs, t);
    }
    fp := map t | t in tf :: TermWeight(docs, ln, t);
    forall t | t in fp ensures fp[t] > 0.0 {
      TermWeightPositive(docs, ln, t);
    }
  }

  // ---------------------------------------------------------------------------
  // Cosine
  // ---------------------------------------------------------------------------

  function Product(a: Fingerprint, b: Fingerprint): Term -> real
  {
    t => if t in a && t in b then a[t] * b[t] else 0.0
  }

  ghost function Dot(a: Fingerprint, b: Fingerprint): real
  {
    SumSet(a.Keys * b.Keys, Product(a, b))
  }

  ghost function NormSquared(a: Fingerprint): real
  {
    SumSet(a.Keys, Product(a, a))
  }

  function Quotient(dot: real, na: real, nb: real): real
  {
    if na == 0.0 || nb == 0.0 then 0.0
    else
      NonZero(na, nb);
      dot / (na * nb)
  }

  ghost function Cosine(a: Fingerprint, b: Fingerprint, sqrt: real -> real): real
  {
    if a == map[] || b == map[] || a.Keys * b.Keys == {} then 0.0
    else Quotient(Dot(a, b), sqrt(NormSquared(a)), sqrt(NormSquared(b)))
  }

  /** `sum(f(k) for k in keys)` */
  method SumKeys(keys: set<Term>, f: Term -> real) returns (r: real)
    ensures r == SumSet(keys, f)
  {
    r := 0.0;
    var rest := keys;
    while rest != {}
      invariant rest <= keys && r + SumSet(rest, f) == SumSet(keys, f)
      decreases rest
    {
      var k :| k in rest;
      SumPick(rest, f, k);
      r, rest := r + f(k), rest - {k};
    }
  }

  method ComputeCosine(a: Fingerprint, b: Fingerprint, sqrt: real -> real) returns (r: real)
    ensures r == Cosine(a, b, sqrt)
  {
    var keys := a.Keys * b.Keys;
    if a == map[] || b == map[] || keys == {} {
      return 0.0;
    }
    var dot := SumKeys(keys, Product(a, b));
    var na2 := SumKeys(a.Keys, Product(a, a));
    var nb2 := SumKeys(b.Keys, Product(b, b));
    return Quotient(dot, sqrt(na2), sqrt(nb2));
  }

  /** The arithmetic mean bounds the geometric one. */
  lemma MeanBound(l: real, u: real, v: real)
    requires u >= 0.0 && v >= 0.0 && l * l <= 4.0 * (u * v)
    ensures l <= u + v
  {
    var d, r := u - v, u + v;
    SquareSign(d, d * d);
    assert r * r == 4.0 * (u * v) + d * d;
    SquareOrder(l, r);
  }

  lemma CrossTerm(p: real, a: real, b: real, xy: real, xx: real, yy: real)
    requires a >= 0.0 && b >= 0.0 && p * p <= a * b && xx >= 0.0 && yy >= 0.0 && xy * xy == xx * yy
    ensures 2.0 * (p * xy) <= a * yy + b * xx
  {
    var w, l := xx * yy, 2.0 * (p * xy);
    NonNegative(xx, yy);
    NonNegative(a, yy);
    NonNegative(b, xx);
    NonNegative(a * b - p * p, w);
    assert (a * b - p * p) * w == (a * b) * w - (p * p) * w;
    SquareOfPair(p, xy);
    SwapFactors(a, yy, b, xx);
    assert l * l == 4.0 * ((p * xy) * (p * xy));
    MeanBound(l, a * yy, b * xx);
  }

  lemma SquareOfPair(p: real, q: real)
    ensures (p * q) * (p * q) == (p * p) * (q * q)
  {
    SwapFactors(p, q, p, q);
  }

  lemma SwapFactors(a: real, y: real, b: real, x: real)
    ensures (a * y) * (b * x) == (a * b) * (x * y)
  {
    calc {
      (a * y) * (b * x);
      a * (y * (b * x));
      a * (b * (x * y));
      (a * b) * (x * y);
    }
  }

  /** One more pair of coordinates keeps the Cauchy-Schwarz inequality. */
  lemma CauchyStep(p: real, a: real, b: real, x: real, y: real, xy: real, xx: real, yy: real)
    requires a >= 0.0 && b >= 0.0 && p * p <= a * b && xy == x * y && xx == x * x && yy == y * y
    ensures (xy + p) * (xy + p) <= (xx + a) * (yy + b)
  {
    SquareSign(x, xx);
    SquareSign(y, yy);
    SquareOfPair(x, y);
    CrossTerm(p, a, b, xy, xx, yy);
    assert (xy + p) * (xy + p) == xy * xy + 2.0 * (p * xy) + p * p;
    assert (xx + a) * (yy + b) == xx * yy + (a * yy + b * xx) + a * b;
  }

  /** `p` is bounded by the two squared norms, as in the Cauchy-Schwarz inequality. */
  ghost predicate Dominated(p: real, a: real, b: real)
  {
    a >= 0.0 && b >= 0.0 && p * p <= a * b
  }

  lemma DominatedStep(p: real, a: real, b: real, x: real, y: real, xy: real, xx: real, yy: real)
    requires Dominated(p, a, b) && xy == x * y && xx == x * x && yy == y * y
    ensures Dominated(xy + p, xx + a, yy + b)
  {
    CauchyStep(p, a, b, x, y, xy, xx, yy);
    SquareSign(x, xx);
    SquareSign(y, yy);
  }

  lemma CauchySchwarz(s: set<Term>, a: Fingerprint, b: Fingerprint)
    requires s <= a.Keys && s <= b.Keys
    ensures Dominated(SumSet(s, Product(a, b)), SumSet(s, Product(a, a)), SumSet(s, Product(b, b)))
  {
    var keep := (p: real, u: real, v: real) => Dominated(p, u, v);
    forall t, p, u, v | t in s && keep(p, u, v)
      ensures keep(Product(a, b)(t) + p, Product(a, a)(t) + u, Product(b, b)(t) + v)
    {
      DominatedStep(p, u, v, a[t], b[t], Product(a, b)(t), Product(a, a)(t), Product(b, b)(t));
    }
    SumsKeep(s, Product(a, b), Product(a, a), Product(b, b), keep);
  }

  lemma SquaresNonNegative(a: Fingerprint)
    ensures forall t :: Product(a, a)(t) >= 0.0
    ensures AllPositive(a) ==> forall t :: t in a ==> Product(a, a)(t) > 0.0
  {
    forall t ensures Product(a, a)(t) >= 0.0 {
      if t in a {
        SquareSign(a[t], Product(a, a)(t));
      }
    }
    forall t | t in a && a[t] > 0.0 ensures Product(a, a)(t) > 0.0 {
      SquareSign(a[t], Product(a, a)(t));
    }
  }

  lemma NormNonNegative(a: Fingerprint)
    ensures NormSquared(a) >= 0.0
    ensures AllPositive(a) && a != map[] ==> NormSquared(a) > 0.0
  {
    SquaresNonNegative(a);
    SumNonNegative(a.Keys, Product(a, a));
    if AllPositive(a) && a != map[] {
      var t :| t in a;
      assert t in a.Keys && Product(a, a)(t) > 0.0;
    }
  }

  lemma DominatedWidens(p: real, u: real, v: real, a: real, b: real)
    requires Dominated(p, u, v) && u <= a && v <= b
    ensures Dominated(p, a, b)
  {
    ProductOrder(u, v, a, b);
  }

  /** The shared terms carry no more weight than all terms. */
  lemma DotBound(a: Fingerprint, b: Fingerprint)
    ensures Dominated(Dot(a, b), NormSquared(a), NormSquared(b))
  {
    var shared := a.Keys * b.Keys;
    CauchySchwarz(shared, a, b);
    SquaresNonNegative(a);
    SquaresNonNegative(b);
    SumSubset(shared, a.Keys, Product(a, a));
    SumSubset(shared, b.Keys, Product(b, b));
    DominatedWidens(Dot(a, b), SumSet(shared, Product(a, a)), SumSet(shared, Product(b, b)), NormSquared(a), NormSquared(b));
  }

  lemma QuotientBounded(d: real, na: real, nb: real)
    requires na >= 0.0 && nb >= 0.0 && Dominated(d, na * na, nb * nb)
    ensures -1.0 <= Quotient(d, na, nb) <= 1.0
    ensures d >= 0.0 ==> Quotient(d, na, nb) >= 0.0
  {
    if na != 0.0 && nb != 0.0 {
      var n := na * nb;
      Positive(na, nb);
      assert n * n == (na * na) * (nb * nb);
      SquareOrder(d, n);
      assert (-d) * (-d) == d * d;
      SquareOrder(-d, n);
      var q := d / n;
      assert n * q == d;
      assert n * (1.0 - q) == n - d && n * (q + 1.0) == n + d;
      QuotientSign(1.0 - q, n);
      QuotientSign(q + 1.0, n);
      if d >= 0.0 {
        QuotientSign(q, n);
      }
    }
  }

  lemma CosineSymmetric(a: Fingerprint, b: Fingerprint, sqrt: real -> real)
    ensures Cosine(a, b, sqrt) == Cosine(b, a, sqrt)
  {
    assert a.Keys * b.Keys == b.Keys * a.Keys;
    SumAgrees(a.Keys * b.Keys, Product(a, b), Product(b, a));
  }

  lemma DotNonNegative(a: Fingerprint, b: Fingerprint)
    requires AllPositive(a) && AllPositive(b)
    ensures Dot(a, b) >= 0.0
  {
    forall t | t in a.Keys * b.Keys ensures Product(a, b)(t) >= 0.0 {
      Positive(a[t], b[t]);
    }
    SumNonNegative(a.Keys * b.Keys, Product(a, b));
  }

  /** The similarity of any two weight maps, whatever a thread has stored, lies in [-1, 1]; that of two
      fingerprints lies in [0, 1]. */
  lemma CosineBounded(a: Fingerprint, b: Fingerprint, sqrt: real -> real)
    requires IsSqrt(sqrt)
    ensures -1.0 <= Cosine(a, b, sqrt) <= 1.0
    ensures AllPositive(a) && AllPositive(b) ==> Cosine(a, b, sqrt) >= 0.0
  {
    NormNonNegative(a);
    NormNonNegative(b);
    DotBound(a, b);
    if AllPositive(a) && AllPositive(b) {
      DotNonNegative(a, b);
    }
    QuotientBounded(Dot(a, b), sqrt(NormSquared(a)), sqrt(NormSquared(b)));
  }

  lemma QuotientSelf(dot: real, na: real)
    requires na > 0.0 && dot == na * na
    ensures Quotient(dot, na, na) == 1.0
  {
    SquareSign(na, dot);
    NonZero(na, na);
    QuotientOne(dot, na * na);
  }

  /** A non-empty fingerprint matches itself perfectly. */
  lemma CosineSelf(a: Fingerprint, sqrt: real -> real)
    requires IsSqrt(sqrt) && AllPositive(a) && a != map[]
    ensures Cosine(a, a, sqrt) == 1.0
  {
    NormNonNegative(a);
    var na := sqrt(NormSquared(a));
    assert a.Keys * a.Keys == a.Keys;
    assert a.Keys != {} by { var t :| t in a; assert t in a.Keys; }
    assert na != 0.0;
    QuotientSelf(Dot(a, a), na);
  }

  // ---------------------------------------------------------------------------
  // The choice of a thread
  // ---------------------------------------------------------------------------

  datatype Thread = Thread(id: string, fingerprint: Fingerprint)

  /** A row of the lease snapshot. */
  datatype Lease = Lease(threadId: string, session: string)

  /** Who holds the thread: the last row that names it decides, nobody if there is none. */
  function OwnerOf(leases: seq<Lease>, threadId: string): string
  {
    if leases == [] then ""
    else
      var last := leases[|leases| - 1];
      if last.threadId != "" && last.threadId == threadId then last.session
      else OwnerOf(leases[..|leases| - 1], threadId)
  }

  predicate HeldByOther(leases: seq<Lease>, threadId: string, session: string)
  {
    OwnerOf(leases, threadId) != "" && OwnerOf(leases, threadId) != session
  }

  method LiveLeases(leases: seq<Lease>) returns (m: map<string, string>)
    ensures forall t :: (if t in m then m[t] else "") == OwnerOf(leases, t)
  {
    m := map[];
    for n := 0 to |leases|
      invariant forall t :: (if t in m then m[t] else "") == OwnerOf(leases[..n], t)
    {
      assert leases[..n + 1][..n] == leases[..n];
      if leases[n].threadId != "" {
        m := m[leases[n].threadId := leases[n].session];
      }
    }
    assert leases[..|leases|] == leases;
  }

  /** `i` is the first of the threads that match best, and it matches at all. */
  ghost predicate IsBest(fp: Fingerprint, threads: seq<Thread>, sqrt: real -> real, i: nat)
  {
    && i < |threads| && Similarity(fp, threads, sqrt, i) > 0.0
    && (forall j :: 0 <= j < |threads| ==> Similarity(fp, threads, sqrt, j) <= Similarity(fp, threads, sqrt, i))
    && (forall j :: 0 <= j < i ==> Similarity(fp, threads, sqrt, j) < Similarity(fp, threads, sqrt, i))
  }

  ghost function Similarity(fp: Fingerprint, threads: seq<Thread>, sqrt: real -> real, i: nat): real
    requires i < |threads|
  {
    Cosine(fp, threads[i].fingerprint, sqrt)
  }

  /** Keeps the first of the highest positive scores. */
  method Highest(scores: seq<real>) returns (best: Option<nat>, score: real)
    ensures best.None? ==> score == 0.0 && forall j :: 0 <= j < |scores| ==> scores[j] <= 0.0
    ensures best.Some? ==> best.value < |scores| && score == scores[best.value] > 0.0
    ensures best.Some? ==> forall j :: 0 <= j < |scores| ==> scores[j] <= score
    ensures best.Some? ==> forall j :: 0 <= j < best.value ==> scores[j] < score
  {
    best, score := None, 0.0;
    for n := 0 to |scores|
      invariant score >= 0.0
      invariant best.None? ==> score == 0.0
      invariant best.Some? ==> best.value < n && score == scores[best.value] > 0.0
      invariant forall j :: 0 <= j < n ==> scores[j] <= score
      invariant best.Some? ==> forall j :: 0 <= j < best.value ==> scores[j] < score
    {
      if scores[n] > score {
        best, score := Some(n), scores[n];
      }
    }
  }

  method Similarities(fp: Fingerprint, threads: seq<Thread>, sqrt: real -> real) returns (scores: seq<real>)
    ensures |scores| == |threads|
    ensures forall j :: 0 <= j < |threads| ==> scores[j] == Similarity(fp, threads, sqrt, j)
  {
    scores := [];
    for n := 0 to |threads|
      invariant |scores| == n
      invariant forall j :: 0 <= j < n ==> scores[j] == Similarity(fp, threads, sqrt, j)
    {
      var s := ComputeCosine(fp, threads[n].fingerprint, sqrt);
      scores := scores + [s];
    }
  }

  /** The best-thread loop of `infer`. */
  method BestThread(fp: Fingerprint, threads: seq<Thread>, sqrt: real -> real) returns (best: Option<nat>, score: real)
    ensures best.None? ==> score == 0.0 && forall j :: 0 <= j < |threads| ==> Similarity(fp, threads, sqrt, j) <= 0.0
    ensures best.Some? ==> IsBest(fp, threads, sqrt, best.value) && score == Similarity(fp, threads, sqrt, best.value)
  {
    var scores := Similarities(fp, threads, sqrt);
    best, score := Highest(scores);
  }

  const EXTEND := 0.55
  const PIVOT := 0.30

  /** What `infer` does; thread positions refer to the list of active threads. */
  datatype Action =
    | Skip
    | Create
    | CreateBeside(locked: nat, owner: string)
    | Extend(index: nat)
    | Pivot(parent: nat)

  /** Exactly one action fits: the best matching thread is extended or sealed, by how well it matches, unless
      the lease snapshot gives it to another session; without a match there is a new thread. */
  ghost predicate Fits(action: Action, fp: Fingerprint, threads: seq<Thread>, leases: seq<Lease>, session: string, sqrt: real -> real)
  {
    match action
    case Skip => false
    case Create => forall j :: 0 <= j < |threads| ==> Similarity(fp, threads, sqrt, j) < PIVOT
    case CreateBeside(i, owner) =>
      && IsBest(fp, threads, sqrt, i) && Similarity(fp, threads, sqrt, i) >= PIVOT
      && HeldByOther(leases, threads[i].id, session) && owner == OwnerOf(leases, threads[i].id)
    case Extend(i) =>
      && IsBest(fp, threads, sqrt, i) && Similarity(fp, threads, sqrt, i) >= EXTEND
      && !HeldByOther(leases, threads[i].id, session)
    case Pivot(i) =>
      && IsBest(fp, threads, sqrt, i) && PIVOT <= Similarity(fp, threads, sqrt, i) < EXTEND
      && !HeldByOther(leases, threads[i].id, session)
  }

  /** `infer` up to its calls into the ledger. */
  method Infer(docs: seq<set<Term>>, minTurns: int, threads: seq<Thread>, leases: seq<Lease>, session: string,
               ln: real -> real, sqrt: real -> real)
    returns (action: Action, ghost fp: Fingerprint)
    requires IsLog(ln) && IsSqrt(sqrt)
    ensures action.Skip? <==> |docs| < minTurns
    ensures !action.Skip? ==> IsFingerprint(fp, docs, ln) && AllPositive(fp) && Fits(action, fp, threads, leases, session, sqrt)
  {
    fp := map[];
    if |docs| < minTurns {
      return Skip, fp;
    }
    var own := MakeFingerprint(docs, ln);
    fp := own;
    var live := LiveLeases(leases);
    if threads == [] {
      return Create, fp;
    }
    var best, score := BestThread(own, threads, sqrt);
    if best.None? || score < PIVOT {
      return Create, fp;
    }
    var id := threads[best.value].id;
    var owner := if id in live then live[id] else "";
    assert owner == OwnerOf(leases, id);
    if owner != "" && owner != session {
      return CreateBeside(best.value, owner), fp;
    }
    if score >= EXTEND {
      return Extend(best.value), fp;
    }
    return Pivot(best.value), fp;
  }

  /** At most one action fits. */
  lemma FitsUnique(x: Action, y: Action, fp: Fingerprint, threads: seq<Thread>, leases: seq<Lease>, session: string, sqrt: real -> real)
    requires Fits(x, fp, threads, leases, session, sqrt) && Fits(y, fp, threads, leases, session, sqrt)
    ensures x == y
  {
    forall i: nat, j: nat | IsBest(fp, threads, sqrt, i) && IsBest(fp, threads, sqrt, j) ensures i == j {
      BestUnique(fp, threads, sqrt, i, j);
    }
  }

  lemma BestUnique(fp: Fingerprint, threads: seq<Thread>, sqrt: real -> real, i: nat, j: nat)
    requires IsBest(fp, threads, sqrt, i) && IsBest(fp, threads, sqrt, j)
    ensures i == j
  {
  }

  /** `j` is the first thread that scores one. */
  ghost predicate FirstPerfect(fp: Fingerprint, threads: seq<Thread>, sqrt: real -> real, j: nat)
  {
    && j < |threads| && Similarity(fp, threads, sqrt, j) == 1.0
    && forall k :: 0 <= k < j ==> Similarity(fp, threads, sqrt, k) < 1.0
  }

  /** A session that comes back with the messages a thread was last fingerprinted from extends the first thread
      that scores one, or, exactly if that thread is leased to another session, works beside it. */
  lemma ReturnExtends(action: Action, fp: Fingerprint, threads: seq<Thread>, leases: seq<Lease>, session: string,
                      sqrt: real -> real, i: nat) returns (j: nat)
    requires IsSqrt(sqrt) && AllPositive(fp) && fp != map[]
    requires i < |threads| && threads[i].fingerprint == fp
    requires Fits(action, fp, threads, leases, session, sqrt)
    ensures j <= i && FirstPerfect(fp, threads, sqrt, j)
    ensures action == if HeldByOther(leases, threads[j].id, session) then CreateBeside(j, OwnerOf(leases, threads[j].id))
                      else Extend(j)
  {
    CosineSelf(fp, sqrt);
    assert Similarity(fp, threads, sqrt, i) == 1.0;
    forall k | 0 <= k < |threads| ensures Similarity(fp, threads, sqrt, k) <= 1.0 {
      CosineBounded(fp, threads[k].fingerprint, sqrt);
    }
    assert action.Extend? || action.CreateBeside?;
    j := if action.Extend? then action.index else action.locked;
  }
}
