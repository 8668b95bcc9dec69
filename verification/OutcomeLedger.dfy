/** Credit for injected memories (chitta-mcp/outcome_ledger.py, `compute_credit`): a per-session
    join of injections with the shell outcomes that follow within a time window. */
module OutcomeLedger {
  import opened Prelude

  type Id = string

  /** `exit_code` of an outcome: null, an integer, or anything else (which never equals 0). */
  datatype ExitCode = Null | Code(code: int) | OtherCode

  datatype Event =
    | Injected(session: string, ts: real, ids: seq<Id>)
    | Outcome(session: string, ts: real, exit: ExitCode, likelyFail: bool)
    | Other(session: string, ts: real)

  datatype Stat = Stat(injections: nat, successes: nat, failures: nat)

  // ---------------------------------------------------------------------------
  // What an injection earns, stated without order, grouping or loops
  // ---------------------------------------------------------------------------

  datatype Verdict = Success | Failure | Unknown

  /** Outcome `o` falls in the window that injection `e` opens in its session. */
  predicate Follows(e: Event, o: Event, window: real)
  {
    o.Outcome? && o.session == e.session && e.ts <= o.ts <= e.ts + window
  }

  /** A following outcome that is known to have succeeded. */
  predicate Good(e: Event, o: Event, window: real)
  {
    Follows(e, o, window) && o.exit == Code(0)
  }

  /** A following outcome that failed, or looks as if it had. */
  predicate Bad(e: Event, o: Event, window: real)
  {
    Follows(e, o, window) && (o.likelyFail || (o.exit != Null && o.exit != Code(0)))
  }

  predicate SomeGood(events: seq<Event>, e: Event, window: real)
  {
    exists o :: o in events && Good(e, o, window)
  }

  predicate SomeBad(events: seq<Event>, e: Event, window: real)
  {
    exists o :: o in events && Bad(e, o, window)
  }

  /** Any bad outcome in the window fails the injection; otherwise a known good one makes it a success. */
  function VerdictOf(events: seq<Event>, e: Event, window: real): Verdict
  {
    if SomeBad(events, e, window) then Failure
    else if SomeGood(events, e, window) then Success
    else Unknown
  }

  // ---------------------------------------------------------------------------
  // The documented verdict
  // ---------------------------------------------------------------------------

  predicate Nonzero(o: Event)
  {
    o.Outcome? && o.exit != Null && o.exit != Code(0)
  }

  predicate SomeNonzero(events: seq<Event>, e: Event, window: real)
  {
    exists o :: o in events && Follows(e, o, window) && Nonzero(o)
  }

  predicate SomeNull(events: seq<Event>, e: Event, window: real)
  {
    exists o :: o in events && Follows(e, o, window) && o.exit == Null
  }

  predicate SomeFlagged(events: seq<Event>, e: Event, window: real)
  {
    exists o :: o in events && Follows(e, o, window) && o.likelyFail
  }

  /** What the documentation of `compute_credit` says: any nonzero exit code fails the injection, all zero makes it
      a success, and an empty window says nothing. */
  function DocumentedVerdict(events: seq<Event>, e: Event, window: real): Verdict
  {
    if SomeNonzero(events, e, window) then Failure
    else if SomeGood(events, e, window) && !SomeNull(events, e, window) then Success
    else Unknown
  }

  /** "All zero" is this: some outcome follows, and every one that does has exit code 0. */
  lemma AllZeroIff(events: seq<Event>, e: Event, window: real)
    ensures DocumentedVerdict(events, e, window).Success?
            <==> (exists o :: o in events && Follows(e, o, window))
                 && forall o :: o in events && Follows(e, o, window) ==> o.exit == Code(0)
  {
    if DocumentedVerdict(events, e, window).Success? {
      var o :| o in events && Good(e, o, window);
      assert o in events && Follows(e, o, window);
    }
    if o :| o in events && Follows(e, o, window) && forall o' :: o' in events && Follows(e, o', window) ==> o'.exit == Code(0) {
      assert Good(e, o, window);
    }
  }

  /** The code agrees with its documentation exactly if the window holds a nonzero exit code, or else no flagged
      outcome and not both a zero and an unknown exit code. */
  lemma VerdictAsDocumentedIff(events: seq<Event>, e: Event, window: real)
    ensures VerdictOf(events, e, window) == DocumentedVerdict(events, e, window)
            <==> || SomeNonzero(events, e, window)
                 || (&& !SomeFlagged(events, e, window)
                     && !(SomeGood(events, e, window) && SomeNull(events, e, window)))
  {
    if SomeNonzero(events, e, window) {
      var o :| o in events && Follows(e, o, window) && Nonzero(o);
      assert Bad(e, o, window);
    }
    if SomeFlagged(events, e, window) {
      var o :| o in events && Follows(e, o, window) && o.likelyFail;
      assert Bad(e, o, window);
    }
    if SomeBad(events, e, window) {
      var o :| o in events && Bad(e, o, window);
      assert o.likelyFail || Nonzero(o);
    }
  }

  /** Two ledgers where they differ: a success beside an unknown outcome counts as a success, and a flagged success
      as a failure. */
  lemma VerdictNotAsDocumented(session: string, id: Id)
    ensures var e, zero, unknown := Injected(session, 0.0, [id]), Outcome(session, 1.0, Code(0), false), Outcome(session, 1.0, Null, false);
            VerdictOf([e, zero, unknown], e, 1.0) == Success && DocumentedVerdict([e, zero, unknown], e, 1.0) == Unknown
    ensures var e, flagged := Injected(session, 0.0, [id]), Outcome(session, 1.0, Code(0), true);
            VerdictOf([e, flagged], e, 1.0) == Failure && DocumentedVerdict([e, flagged], e, 1.0) == Success
  {
    var e, zero, unknown := Injected(session, 0.0, [id]), Outcome(session, 1.0, Code(0), false), Outcome(session, 1.0, Null, false);
    assert zero in [e, zero, unknown] && Good(e, zero, 1.0);
    assert unknown in [e, zero, unknown] && Follows(e, unknown, 1.0) && unknown.exit == Null;
    assert !SomeBad([e, zero, unknown], e, 1.0) && !SomeNonzero([e, zero, unknown], e, 1.0);
    var flagged := Outcome(session, 1.0, Code(0), true);
    assert flagged in [e, flagged] && Good(e, flagged, 1.0) && Bad(e, flagged, 1.0);
    assert !SomeNonzero([e, flagged], e, 1.0) && !SomeNull([e, flagged], e, 1.0);
  }

  // ---------------------------------------------------------------------------
  // Credit
  // ---------------------------------------------------------------------------

  function Times(ids: seq<Id>, id: Id): nat
  {
    if ids == [] then 0 else Times(ids[..|ids| - 1], id) + if ids[|ids| - 1] == id then 1 else 0
  }

  /** What an event is worth to `id` in the light of the outcomes in `events`: one unit of `aspect` for each
      time an injection of the right verdict names the id. */
  function Worth(events: seq<Event>, window: real, id: Id, aspect: Aspect): Event -> nat
  {
    (e: Event) => if e.Injected? && Counts(VerdictOf(events, e, window), aspect) then Times(e.ids, id) else 0
  }

  datatype Aspect = Injections | Successes | Failures

  predicate Counts(v: Verdict, aspect: Aspect)
  {
    match aspect
    case Injections => true
    case Successes => v.Success?
    case Failures => v.Failure?
  }

  /** The sum of what each event of `part` is worth. */
  function SumOf(part: seq<Event>, worth: Event -> nat): nat
  {
    if part == [] then 0 else SumOf(part[..|part| - 1], worth) + worth(part[|part| - 1])
  }

  function Total(events: seq<Event>, window: real, id: Id, aspect: Aspect): nat
  {
    SumOf(events, Worth(events, window, id, aspect))
  }

  function Credit(events: seq<Event>, window: real, id: Id): Stat
  {
    Stat(Total(events, window, id, Injections), Total(events, window, id, Successes), Total(events, window, id, Failures))
  }

  // ---------------------------------------------------------------------------
  // Order does not matter
  // ---------------------------------------------------------------------------

  lemma {:induction false} SumMove(part: seq<Event>, k: nat, worth: Event -> nat)
    requires k < |part|
    ensures SumOf(part, worth) == SumOf(part[..k] + part[k + 1..], worth) + worth(part[k])
  {
    var rest := part[..k] + part[k + 1..];
    if k < |part| - 1 {
      var init := part[..|part| - 1];
      SumMove(init, k, worth);
      assert rest[..|rest| - 1] == init[..k] + init[k + 1..];
      assert rest[|rest| - 1] == part[|part| - 1];
    } else {
      assert rest == part[..k];
    }
  }

  lemma RemoveOne(part: seq<Event>, k: nat)
    requires k < |part|
    ensures multiset(part[..k] + part[k + 1..]) == multiset(part) - multiset{part[k]}
  {
    assert part == part[..k] + [part[k]] + part[k + 1..];
  }

  lemma {:induction false} SumPermutes(p: seq<Event>, q: seq<Event>, worth: Event -> nat)
    requires multiset(p) == multiset(q)
    ensures SumOf(p, worth) == SumOf(q, worth)
    decreases |p|
  {
    if p == [] {
      assert |multiset(q)| == 0;
    } else {
      var n := |p| - 1;
      assert p[n] in multiset(q);
      var k :| 0 <= k < |q| && q[k] == p[n];
      RemoveOne(q, k);
      assert p == p[..n] + [p[n]];
      SumPermutes(p[..n], q[..k] + q[k + 1..], worth);
      SumMove(q, k, worth);
    }
  }

  lemma {:induction false} SumAgrees(part: seq<Event>, f: Event -> nat, g: Event -> nat)
    requires forall i :: 0 <= i < |part| ==> f(part[i]) == g(part[i])
    ensures SumOf(part, f) == SumOf(part, g)
  {
    if part != [] {
      SumAgrees(part[..|part| - 1], f, g);
    }
  }

  /** A verdict depends only on which outcomes of the injection's session there are. */
  lemma VerdictByMembership(a: seq<Event>, b: seq<Event>, e: Event, window: real)
    requires forall o :: o in a && Follows(e, o, window) <==> o in b && Follows(e, o, window)
    ensures VerdictOf(a, e, window) == VerdictOf(b, e, window)
  {
    assert SomeBad(a, e, window) <==> SomeBad(b, e, window);
    assert SomeGood(a, e, window) <==> SomeGood(b, e, window);
  }

  lemma TotalPermutes(a: seq<Event>, b: seq<Event>, window: real, id: Id, aspect: Aspect)
    requires multiset(a) == multiset(b)
    ensures Total(a, window, id, aspect) == Total(b, window, id, aspect)
  {
    var f, g := Worth(a, window, id, aspect), Worth(b, window, id, aspect);
    PermutationFacts(a, b);
    forall i | 0 <= i < |b| ensures f(b[i]) == g(b[i]) {
      VerdictByMembership(a, b, b[i], window);
    }
    SumPermutes(a, b, f);
    SumAgrees(b, f, g);
  }

  /** Credit does not depend on the order of the ledger. */
  lemma CreditPermutes(a: seq<Event>, b: seq<Event>, window: real, id: Id)
    requires multiset(a) == multiset(b)
    ensures Credit(a, window, id) == Credit(b, window, id)
  {
    TotalPermutes(a, b, window, id, Injections);
    TotalPermutes(a, b, window, id, Successes);
    TotalPermutes(a, b, window, id, Failures);
  }

  lemma {:induction false} SumBounded(part: seq<Event>, f: Event -> nat, g: Event -> nat, h: Event -> nat)
    requires forall i :: 0 <= i < |part| ==> f(part[i]) + g(part[i]) <= h(part[i])
    ensures SumOf(part, f) + SumOf(part, g) <= SumOf(part, h)
  {
    if part != [] {
      SumBounded(part[..|part| - 1], f, g, h);
    }
  }

  /** Every verdict belongs to an injection. */
  lemma CreditBounded(events: seq<Event>, window: real, id: Id)
    ensures var s := Credit(events, window, id); s.successes + s.failures <= s.injections
  {
    SumBounded(events, Worth(events, window, id, Successes), Worth(events, window, id, Failures),
               Worth(events, window, id, Injections));
  }

  // ---------------------------------------------------------------------------
  // Sessions are independent
  // ---------------------------------------------------------------------------

  function OfSession(events: seq<Event>, session: string): seq<Event>
  {
    if events == [] then []
    else
      OfSession(events[..|events| - 1], session)
      + if events[|events| - 1].session == session then [events[|events| - 1]] else []
  }

  lemma {:induction false} OfSessionHas(events: seq<Event>, session: string, e: Event)
    ensures e in OfSession(events, session) <==> e in events && e.session == session
  {
    if events != [] {
      OfSessionHas(events[..|events| - 1], session, e);
      assert events == events[..|events| - 1] + [events[|events| - 1]];
    }
  }

  /** The sum over `sessions` of the worth of each one's events. */
  function SumSessions(events: seq<Event>, sessions: seq<string>, worth: Event -> nat): nat
  {
    if sessions == [] then 0
    else SumSessions(events, sessions[..|sessions| - 1], worth) + SumOf(OfSession(events, sessions[|sessions| - 1]), worth)
  }

  lemma ShareSnoc(events: seq<Event>, e: Event, session: string, worth: Event -> nat)
    ensures SumOf(OfSession(events + [e], session), worth)
         == SumOf(OfSession(events, session), worth) + if e.session == session then worth(e) else 0
  {
    assert (events + [e])[..|events|] == events;
    var own := OfSession(events, session);
    assert (own + [e])[..|own|] == own;
    assert OfSession(events + [e], session) == if e.session == session then own + [e] else own;
  }

  /** One more event goes to the share of its own session and to no other. */
  lemma {:induction false} SumSessionsSnoc(events: seq<Event>, e: Event, sessions: seq<string>, worth: Event -> nat)
    requires Distinct(sessions)
    ensures SumSessions(events + [e], sessions, worth)
         == SumSessions(events, sessions, worth) + if e.session in sessions then worth(e) else 0
    decreases |sessions|
  {
    if sessions != [] {
      var init, last := sessions[..|sessions| - 1], sessions[|sessions| - 1];
      SumSessionsSnoc(events, e, init, worth);
      ShareSnoc(events, e, last, worth);
      assert sessions == init + [last];
    }
  }

  lemma {:induction false} SumNothing(events: seq<Event>, sessions: seq<string>, worth: Event -> nat)
    requires events == []
    ensures SumSessions(events, sessions, worth) == 0
    decreases |sessions|
  {
    if sessions != [] {
      SumNothing(events, sessions[..|sessions| - 1], worth);
    }
  }

  predicate Covered(events: seq<Event>, sessions: seq<string>)
  {
    forall i :: 0 <= i < |events| ==> events[i].session in sessions
  }

  lemma SumOfSnoc(events: seq<Event>, e: Event, worth: Event -> nat)
    ensures SumOf(events + [e], worth) == SumOf(events, worth) + worth(e)
  {
    assert (events + [e])[..|events|] == events;
  }

  lemma {:induction false} SumSessionsIsAll(events: seq<Event>, sessions: seq<string>, worth: Event -> nat)
    requires Distinct(sessions) && Covered(events, sessions)
    ensures SumSessions(events, sessions, worth) == SumOf(events, worth)
    decreases |events|
  {
    if events == [] {
      SumNothing(events, sessions, worth);
    } else {
      var init, last := events[..|events| - 1], events[|events| - 1];
      assert events == init + [last];
      SumSessionsIsAll(init, sessions, worth);
      SumSessionsSnoc(init, last, sessions, worth);
      SumOfSnoc(init, last, worth);
    }
  }

  /** A session's events earn the same whether judged alone or within the whole ledger. */
  lemma SessionAlone(events: seq<Event>, session: string, window: real, id: Id, aspect: Aspect)
    ensures SumOf(OfSession(events, session), Worth(events, window, id, aspect))
         == Total(OfSession(events, session), window, id, aspect)
  {
    var own := OfSession(events, session);
    var f, g := Worth(events, window, id, aspect), Worth(own, window, id, aspect);
    forall o ensures o in own <==> o in events && o.session == session {
      OfSessionHas(events, session, o);
    }
    forall i | 0 <= i < |own| ensures f(own[i]) == g(own[i]) {
      assert own[i] in own;
      VerdictByMembership(events, own, own[i], window);
    }
    SumAgrees(own, f, g);
  }

  /** The sum of the totals of the sessions, each computed on its own. */
  function SumOfTotals(events: seq<Event>, sessions: seq<string>, window: real, id: Id, aspect: Aspect): nat
  {
    if sessions == [] then 0
    else SumOfTotals(events, sessions[..|sessions| - 1], window, id, aspect)
         + Total(OfSession(events, sessions[|sessions| - 1]), window, id, aspect)
  }

  lemma {:induction false} SumOfTotalsIsShare(events: seq<Event>, sessions: seq<string>, window: real, id: Id, aspect: Aspect)
    ensures SumOfTotals(events, sessions, window, id, aspect)
         == SumSessions(events, sessions, Worth(events, window, id, aspect))
    decreases |sessions|
  {
    if sessions != [] {
      SumOfTotalsIsShare(events, sessions[..|sessions| - 1], window, id, aspect);
      SessionAlone(events, sessions[|sessions| - 1], window, id, aspect);
    }
  }

  /** Credit, in each aspect, is the sum of the credits of the sessions, each computed on its own. */
  lemma CreditIsSumOfSessions(events: seq<Event>, sessions: seq<string>, window: real, id: Id)
    requires Distinct(sessions) && Covered(events, sessions)
    ensures Credit(events, window, id)
         == Stat(SumOfTotals(events, sessions, window, id, Injections),
                 SumOfTotals(events, sessions, window, id, Successes),
                 SumOfTotals(events, sessions, window, id, Failures))
  {
    forall aspect ensures Total(events, window, id, aspect) == SumOfTotals(events, sessions, window, id, aspect) {
      SumOfTotalsIsShare(events, sessions, window, id, aspect);
      SumSessionsIsAll(events, sessions, Worth(events, window, id, aspect));
    }
  }

  // ---------------------------------------------------------------------------
  // The join as the source runs it
  // ---------------------------------------------------------------------------

  type Stats = map<Id, Stat>

  function Field(s: Stat, aspect: Aspect): nat
  {
    match aspect
    case Injections => s.injections
    case Successes => s.successes
    case Failures => s.failures
  }

  /** `stats[id][aspect]` of the defaultdict. */
  function Of(stats: Stats, id: Id, aspect: Aspect): nat
  {
    if id in stats then Field(stats[id], aspect) else 0
  }

  function Raised(s: Stat, aspect: Aspect): Stat
  {
    match aspect
    case Injections => s.(injections := s.injections + 1)
    case Successes => s.(successes := s.successes + 1)
    case Failures => s.(failures := s.failures + 1)
  }

  /** `for mid in ids: stats[mid][aspect] += 1` */
  method Bump(stats: Stats, ids: seq<Id>, aspect: Aspect) returns (r: Stats)
    ensures forall id, a :: Of(r, id, a) == Of(stats, id, a) + if a == aspect then Times(ids, id) else 0
    ensures r.Keys == stats.Keys + Elements(ids)
  {
    r := stats;
    assert forall id :: Times(ids[..0], id) == 0;
    for i := 0 to |ids|
      invariant forall id, a :: Of(r, id, a) == Of(stats, id, a) + if a == aspect then Times(ids[..i], id) else 0
      invariant r.Keys == stats.Keys + Elements(ids[..i])
    {
      assert ids[..i + 1][..i] == ids[..i];
      assert Elements(ids[..i + 1]) == Elements(ids[..i]) + {ids[i]};
      r := r[ids[i] := Raised(if ids[i] in r then r[ids[i]] else Stat(0, 0, 0), aspect)];
    }
    assert ids[..|ids|] == ids;
  }

  /** `[o for o in outcomes if ts0 <= o["ts"] <= ts0 + window]` */
  function InWindow(outcomes: seq<Event>, e: Event, window: real): seq<Event>
  {
    if outcomes == [] then []
    else
      var o := outcomes[|outcomes| - 1];
      InWindow(outcomes[..|outcomes| - 1], e, window) + if e.ts <= o.ts <= e.ts + window then [o] else []
  }

  lemma {:induction false} InWindowHas(outcomes: seq<Event>, e: Event, window: real, o: Event)
    ensures o in InWindow(outcomes, e, window) <==> o in outcomes && e.ts <= o.ts <= e.ts + window
  {
    if outcomes != [] {
      InWindowHas(outcomes[..|outcomes| - 1], e, window, o);
      assert outcomes == outcomes[..|outcomes| - 1] + [outcomes[|outcomes| - 1]];
    }
  }

  /** The branches on one injection's window. */
  method Judge(events: seq<Event>, outcomes: seq<Event>, e: Event, window: real) returns (v: Verdict)
    requires forall o :: o in outcomes <==> o in events && o.Outcome? && o.session == e.session
    ensures v == VerdictOf(events, e, window)
  {
    var seen := InWindow(outcomes, e, window);
    forall o ensures o in seen <==> o in events && Follows(e, o, window) {
      InWindowHas(outcomes, e, window, o);
    }
    if seen == [] {
      return Unknown;
    }
    var known := exists o :: o in seen && o.exit != Null;
    var flagged := exists o :: o in seen && o.likelyFail;
    if !known && !flagged {
      return Unknown;
    }
    var allZero := (forall o :: o in seen && o.exit != Null ==> o.exit == Code(0)) && !flagged;
    if allZero {
      return Success;
    }
    return Failure;
  }

  /** An id has an entry exactly when it was injected. */
  ghost predicate Tight(stats: Stats)
  {
    forall id :: id in stats <==> Of(stats, id, Injections) > 0
  }

  lemma {:induction false} TimesPositive(ids: seq<Id>, id: Id)
    ensures Times(ids, id) > 0 <==> id in ids
  {
    if ids != [] {
      TimesPositive(ids[..|ids| - 1], id);
      assert ids == ids[..|ids| - 1] + [ids[|ids| - 1]];
    }
  }

  lemma BumpTight(stats: Stats, ids: seq<Id>, aspect: Aspect, r: Stats)
    requires forall id, a :: Of(r, id, a) == Of(stats, id, a) + if a == aspect then Times(ids, id) else 0
    requires r.Keys == stats.Keys + Elements(ids)
    requires Tight(stats) && (aspect.Injections? || Elements(ids) <= stats.Keys)
    ensures Tight(r)
  {
    forall id ensures id in r <==> Of(r, id, Injections) > 0 {
      TimesPositive(ids, id);
    }
  }

  /** `r` is `stats` plus what `worth` assigns to one event. */
  ghost predicate Plus(stats: Stats, r: Stats, events: seq<Event>, e: Event, window: real)
  {
    forall id, a :: Of(r, id, a) == Of(stats, id, a) + Worth(events, window, id, a)(e)
  }

  /** The body of the loop over one session's events. */
  method CreditEvent(events: seq<Event>, outcomes: seq<Event>, e: Event, window: real, stats: Stats) returns (r: Stats)
    requires forall o :: o in outcomes <==> o in events && o.Outcome? && o.session == e.session
    requires Tight(stats)
    ensures Plus(stats, r, events, e, window) && Tight(r)
  {
    if !e.Injected? {
      return stats;
    }
    var counted := Bump(stats, e.ids, Injections);
    BumpTight(stats, e.ids, Injections, counted);
    var verdict := Judge(events, outcomes, e, window);
    if verdict.Unknown? {
      return counted;
    }
    var aspect := if verdict.Success? then Successes else Failures;
    r := Bump(counted, e.ids, aspect);
    BumpTight(counted, e.ids, aspect, r);
  }

  function OutcomesIn(events: seq<Event>): seq<Event>
  {
    if events == [] then []
    else OutcomesIn(events[..|events| - 1]) + if events[|events| - 1].Outcome? then [events[|events| - 1]] else []
  }

  lemma {:induction false} OutcomesInHas(events: seq<Event>, o: Event)
    ensures o in OutcomesIn(events) <==> o in events && o.Outcome?
  {
    if events != [] {
      OutcomesInHas(events[..|events| - 1], o);
      assert events == events[..|events| - 1] + [events[|events| - 1]];
    }
  }

  /** `r` is `stats` plus what the events of `part` are worth, judged by the outcomes in `events`. */
  ghost predicate PlusAll(stats: Stats, r: Stats, events: seq<Event>, part: seq<Event>, window: real)
  {
    forall id, a :: Of(r, id, a) == Of(stats, id, a) + SumOf(part, Worth(events, window, id, a))
  }

  lemma PlusAllSnoc(stats: Stats, mid: Stats, r: Stats, events: seq<Event>, part: seq<Event>, e: Event, window: real)
    requires PlusAll(stats, mid, events, part, window) && Plus(mid, r, events, e, window)
    ensures PlusAll(stats, r, events, part + [e], window)
  {
    forall id, a ensures Of(r, id, a) == Of(stats, id, a) + SumOf(part + [e], Worth(events, window, id, a)) {
      SumOfSnoc(part, e, Worth(events, window, id, a));
    }
  }

  function ByTime(a: Event, b: Event): bool
  {
    a.ts <= b.ts
  }

  /** `r` is `stats` plus the credit of `events`. */
  ghost predicate PlusCredit(stats: Stats, r: Stats, events: seq<Event>, window: real)
  {
    forall id, a :: Of(r, id, a) == Of(stats, id, a) + Total(events, window, id, a)
  }

  lemma PlusCreditPermutes(stats: Stats, r: Stats, events: seq<Event>, sorted: seq<Event>, window: real)
    requires multiset(events) == multiset(sorted) && PlusAll(stats, r, sorted, sorted, window)
    ensures PlusCredit(stats, r, events, window)
  {
    forall id, a ensures Of(r, id, a) == Of(stats, id, a) + Total(events, window, id, a) {
      TotalPermutes(events, sorted, window, id, a);
    }
  }

  /** The loop over the sorted events of one session. */
  method JoinSorted(events: seq<Event>, outcomes: seq<Event>, session: string, window: real, stats: Stats) returns (r: Stats)
    requires forall i :: 0 <= i < |events| ==> events[i].session == session
    requires forall o :: o in outcomes <==> o in events && o.Outcome? && o.session == session
    requires Tight(stats)
    ensures PlusAll(stats, r, events, events, window) && Tight(r)
  {
    r := stats;
    for i := 0 to |events|
      invariant PlusAll(stats, r, events, events[..i], window) && Tight(r)
    {
      var next := CreditEvent(events, outcomes, events[i], window, r);
      PlusAllSnoc(stats, r, next, events, events[..i], events[i], window);
      assert events[..i + 1] == events[..i] + [events[i]];
      r := next;
    }
    assert events[..|events|] == events;
  }

  /** One session: sort it by time, then join each injection with the outcomes after it. */
  method CreditSession(session: string, events: seq<Event>, window: real, stats: Stats) returns (r: Stats)
    requires forall e :: e in events ==> e.session == session
    requires Tight(stats)
    ensures PlusCredit(stats, r, events, window) && Tight(r)
  {
    var sorted := StableSort(events, ByTime);
    StableSortCorrect(events, ByTime);
    PermutationFacts(events, sorted);
    var outcomes := OutcomesIn(sorted);
    forall o ensures o in outcomes <==> o in sorted && o.Outcome? && o.session == session {
      OutcomesInHas(sorted, o);
    }
    r := JoinSorted(sorted, outcomes, session, window, stats);
    PlusCreditPermutes(stats, r, events, sorted, window);
  }

  lemma OfSessionSnoc(events: seq<Event>, e: Event, session: string)
    ensures OfSession(events + [e], session) == OfSession(events, session) + if e.session == session then [e] else []
  {
    assert (events + [e])[..|events|] == events;
  }

  function GroupOf(groups: map<string, seq<Event>>, session: string): seq<Event>
  {
    if session in groups then groups[session] else []
  }

  /** `groups` holds the events by session, and `order` its sessions. */
  ghost predicate Grouped(events: seq<Event>, order: seq<string>, groups: map<string, seq<Event>>)
  {
    && Distinct(order) && groups.Keys == Elements(order)
    && (forall s :: OfSession(events, s) == GroupOf(groups, s))
  }

  lemma GroupedSnoc(events: seq<Event>, e: Event, groups: map<string, seq<Event>>)
    requires forall s :: OfSession(events, s) == GroupOf(groups, s)
    ensures var groups' := groups[e.session := GroupOf(groups, e.session) + [e]];
            forall s :: OfSession(events + [e], s) == GroupOf(groups', s)
  {
    var groups' := groups[e.session := GroupOf(groups, e.session) + [e]];
    forall s ensures OfSession(events + [e], s) == GroupOf(groups', s) {
      OfSessionSnoc(events, e, s);
      assert OfSession(events, s) == GroupOf(groups, s);
    }
  }

  lemma GroupedCovers(events: seq<Event>, order: seq<string>, groups: map<string, seq<Event>>)
    requires Grouped(events, order, groups)
    ensures Covered(events, order)
  {
    forall i | 0 <= i < |events| ensures events[i].session in order {
      OfSessionHas(events, events[i].session, events[i]);
      assert events[i].session in Elements(order);
    }
  }

  /** `by_session[e["session_id"]].append(e)` */
  method AddToGroup(ghost events: seq<Event>, e: Event, order: seq<string>, groups: map<string, seq<Event>>)
    returns (order': seq<string>, groups': map<string, seq<Event>>)
    requires Grouped(events, order, groups)
    ensures Grouped(events + [e], order', groups')
  {
    GroupedSnoc(events, e, groups);
    groups' := groups[e.session := GroupOf(groups, e.session) + [e]];
    if e.session in groups {
      order' := order;
    } else {
      order' := order + [e.session];
      assert Elements(order') == Elements(order) + {e.session};
    }
  }

  /** The first loop: events by session, sessions in order of appearance. */
  method GroupBySession(events: seq<Event>) returns (order: seq<string>, groups: map<string, seq<Event>>)
    ensures Grouped(events, order, groups)
  {
    order, groups := [], map[];
    for n := 0 to |events|
      invariant Grouped(events[..n], order, groups)
    {
      order, groups := AddToGroup(events[..n], events[n], order, groups);
      assert events[..n + 1] == events[..n] + [events[n]];
    }
    assert events[..|events|] == events;
  }

  /** The stats hold the credit of the sessions in `order`. */
  ghost predicate Tallied(stats: Stats, events: seq<Event>, order: seq<string>, window: real)
  {
    forall id, a :: Of(stats, id, a) == SumOfTotals(events, order, window, id, a)
  }

  lemma TalliedSnoc(stats: Stats, r: Stats, events: seq<Event>, order: seq<string>, session: string, window: real)
    requires Tallied(stats, events, order, window) && PlusCredit(stats, r, OfSession(events, session), window)
    ensures Tallied(r, events, order + [session], window)
  {
    assert (order + [session])[..|order|] == order;
  }

  lemma TalliedAll(stats: Stats, events: seq<Event>, order: seq<string>, window: real)
    requires Tallied(stats, events, order, window) && Distinct(order) && Covered(events, order)
    ensures forall id, a :: Of(stats, id, a) == Total(events, window, id, a)
  {
    forall id, a ensures Of(stats, id, a) == Total(events, window, id, a) {
      SumOfTotalsIsShare(events, order, window, id, a);
      SumSessionsIsAll(events, order, Worth(events, window, id, a));
    }
  }

  /** One turn of the second loop. */
  method CreditNext(ghost events: seq<Event>, ghost order: seq<string>, session: string, own: seq<Event>, window: real,
                    stats: Stats) returns (r: Stats)
    requires own == OfSession(events, session)
    requires Tallied(stats, events, order, window) && Tight(stats)
    ensures Tallied(r, events, order + [session], window) && Tight(r)
  {
    forall e: Event | e in own ensures e.session == session {
      OfSessionHas(events, session, e);
    }
    r := CreditSession(session, own, window, stats);
    TalliedSnoc(stats, r, events, order, session, window);
  }

  /** The second loop: session by session. */
  method CreditSessions(ghost events: seq<Event>, order: seq<string>, groups: map<string, seq<Event>>, window: real)
    returns (stats: Stats)
    requires Grouped(events, order, groups)
    ensures Tallied(stats, events, order, window) && Tight(stats)
  {
    stats := map[];
    for n := 0 to |order|
      invariant Tallied(stats, events, order[..n], window) && Tight(stats)
    {
      assert order[n] in Elements(order);
      stats := CreditNext(events, order[..n], order[n], groups[order[n]], window, stats);
      assert order[..n + 1] == order[..n] + [order[n]];
    }
    assert order[..|order|] == order;
  }

  // ---------------------------------------------------------------------------
  // What an injection counts
  // ---------------------------------------------------------------------------

  function Occurrences(ids: seq<Id>, id: Id): nat
  {
    multiset(ids)[id]
  }

  lemma {:induction false} TimesIsOccurrences(ids: seq<Id>, id: Id)
    ensures Times(ids, id) == Occurrences(ids, id)
  {
    if ids != [] {
      TimesIsOccurrences(ids[..|ids| - 1], id);
      assert ids == ids[..|ids| - 1] + [ids[|ids| - 1]];
    }
  }

  /** How often injections list the id, by session and time or not. */
  function Listings(events: seq<Event>, id: Id): nat
  {
    if events == [] then 0
    else
      var e := events[|events| - 1];
      Listings(events[..|events| - 1], id) + if e.Injected? then Occurrences(e.ids, id) else 0
  }

  lemma {:induction false} SumIsListings(part: seq<Event>, events: seq<Event>, window: real, id: Id)
    ensures SumOf(part, Worth(events, window, id, Injections)) == Listings(part, id)
  {
    if part != [] {
      SumIsListings(part[..|part| - 1], events, window, id);
      if part[|part| - 1].Injected? {
        TimesIsOccurrences(part[|part| - 1].ids, id);
      }
    }
  }

  /** Every listing of an id counts as an injection, whatever follows it. */
  lemma InjectionsAreListings(events: seq<Event>, window: real, id: Id)
    ensures Credit(events, window, id).injections == Listings(events, id)
  {
    SumIsListings(events, events, window, id);
  }

  lemma {:induction false} ListedSomewhere(events: seq<Event>, id: Id)
    ensures Listings(events, id) > 0 <==> exists e :: e in events && e.Injected? && id in e.ids
  {
    if events != [] {
      var init, last := events[..|events| - 1], events[|events| - 1];
      ListedSomewhere(init, id);
      assert events == init + [last];
      if last.Injected? {
        assert id in last.ids <==> id in multiset(last.ids);
      }
    }
  }

  /** `compute_credit`: every injected id, and no other, gets its credit. */
  method ComputeCredit(events: seq<Event>, windowS: int) returns (stats: Stats)
    ensures forall id :: id in stats ==> stats[id] == Credit(events, (windowS * 1000) as real, id)
    ensures forall id :: id in stats <==> exists e :: e in events && e.Injected? && id in e.ids
    ensures forall id :: id in stats ==> stats[id].injections == Listings(events, id)
  {
    var window := (windowS * 1000) as real;
    var order, groups := GroupBySession(events);
    GroupedCovers(events, order, groups);
    stats := CreditSessions(events, order, groups, window);
    TalliedAll(stats, events, order, window);
    forall id ensures id in stats <==> exists e :: e in events && e.Injected? && id in e.ids {
      assert Of(stats, id, Injections) == Total(events, window, id, Injections);
      InjectionsAreListings(events, window, id);
      ListedSomewhere(events, id);
    }
    forall id | id in stats ensures stats[id] == Credit(events, window, id) {
      assert stats[id] == Stat(Of(stats, id, Injections), Of(stats, id, Successes), Of(stats, id, Failures));
    }
    forall id | id in stats ensures stats[id].injections == Listings(events, id) {
      InjectionsAreListings(events, window, id);
    }
  }
}
