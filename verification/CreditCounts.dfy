/** What credit counts, told by the events' fields alone (chitta-mcp/outcome_ledger.py, `compute_credit`). */
module CreditCounts {
  import opened Prelude
  import opened OutcomeLedger

  // ---------------------------------------------------------------------------
  // Successes and failures
  // ---------------------------------------------------------------------------

  /** How often the injections that satisfy `p` list the id. */
  function ListingsIf(events: seq<Event>, id: Id, p: Event -> bool): nat
  {
    if events == [] then 0
    else
      var e := events[|events| - 1];
      ListingsIf(events[..|events| - 1], id, p) + if e.Injected? && p(e) then Occurrences(e.ids, id) else 0
  }

  /** A command of the session, no earlier than the injection and at most `window` later, failed or was flagged. */
  predicate FollowedByFailure(events: seq<Event>, e: Event, window: real)
  {
    exists o :: o in events && o.Outcome? && o.session == e.session && 0.0 <= o.ts - e.ts <= window
                && (o.likelyFail || o.exit == OtherCode || (o.exit.Code? && o.exit.code != 0))
  }

  /** A command of the session, no earlier than the injection and at most `window` later, had exit code 0. */
  predicate FollowedBySuccess(events: seq<Event>, e: Event, window: real)
  {
    exists o :: o in events && o.Outcome? && o.session == e.session && 0.0 <= o.ts - e.ts <= window
                && o.exit.Code? && o.exit.code == 0
  }

  function Fails(events: seq<Event>, window: real): Event -> bool
  {
    (e: Event) => FollowedByFailure(events, e, window)
  }

  function Succeeds(events: seq<Event>, window: real): Event -> bool
  {
    (e: Event) => FollowedBySuccess(events, e, window) && !FollowedByFailure(events, e, window)
  }

  lemma VerdictIs(events: seq<Event>, e: Event, window: real)
    ensures VerdictOf(events, e, window).Failure? <==> Fails(events, window)(e)
    ensures VerdictOf(events, e, window).Success? <==> Succeeds(events, window)(e)
  {
    forall o ensures Bad(e, o, window) <==> o.Outcome? && o.session == e.session && 0.0 <= o.ts - e.ts <= window
                                            && (o.likelyFail || o.exit == OtherCode || (o.exit.Code? && o.exit.code != 0))
             ensures Good(e, o, window) <==> o.Outcome? && o.session == e.session && 0.0 <= o.ts - e.ts <= window
                                             && o.exit.Code? && o.exit.code == 0
    {
    }
    assert SomeBad(events, e, window) <==> FollowedByFailure(events, e, window);
    assert SomeGood(events, e, window) <==> FollowedBySuccess(events, e, window);
  }

  lemma {:induction false} SumIsListingsIf(part: seq<Event>, events: seq<Event>, window: real, id: Id)
    ensures SumOf(part, Worth(events, window, id, Successes)) == ListingsIf(part, id, Succeeds(events, window))
    ensures SumOf(part, Worth(events, window, id, Failures)) == ListingsIf(part, id, Fails(events, window))
  {
    if part != [] {
      SumIsListingsIf(part[..|part| - 1], events, window, id);
      if part[|part| - 1].Injected? {
        TimesIsOccurrences(part[|part| - 1].ids, id);
        VerdictIs(events, part[|part| - 1], window);
      }
    }
  }

  /** A failure is a listing in an injection that a failed command follows; a success one that a command with exit
      code 0 follows, and no failed one. */
  lemma VerdictsAreListings(events: seq<Event>, window: real, id: Id)
    ensures Credit(events, window, id).failures == ListingsIf(events, id, Fails(events, window))
    ensures Credit(events, window, id).successes == ListingsIf(events, id, Succeeds(events, window))
  {
    SumIsListingsIf(events, events, window, id);
  }

  // ---------------------------------------------------------------------------
  // Literal ledgers
  // ---------------------------------------------------------------------------

  /** One injection and nothing else is one injection. */
  lemma LoneInjection(window: real)
    ensures Credit([Injected("s", 0.0, ["m"])], window, "m") == Stat(1, 0, 0)
  {
    var events, e := [Injected("s", 0.0, ["m"])], Injected("s", 0.0, ["m"]);
    InjectionsAreListings(events, window, "m");
    assert events[..0] == [] && multiset(["m"])["m"] == 1;
    assert Listings(events, "m") == 1;
    VerdictsAreListings(events, window, "m");
    CreditBounded(events, window, "m");
    assert forall o :: o in events ==> o == e;
    assert !FollowedByFailure(events, e, window) && !FollowedBySuccess(events, e, window);
    assert ListingsIf(events, "m", Fails(events, window)) == 0;
  }

  function Pair(o: Event): seq<Event>
  {
    [Injected("s", 10.0, ["m"]), o]
  }

  lemma PairCredit(o: Event, window: real)
    requires o.Outcome?
    ensures var f, s := FollowedByFailure(Pair(o), Injected("s", 10.0, ["m"]), window), FollowedBySuccess(Pair(o), Injected("s", 10.0, ["m"]), window);
            Credit(Pair(o), window, "m") == if f then Stat(1, 0, 1) else if s then Stat(1, 1, 0) else Stat(1, 0, 0)
  {
    var events, e := Pair(o), Injected("s", 10.0, ["m"]);
    InjectionsAreListings(events, window, "m");
    VerdictsAreListings(events, window, "m");
    assert events[..1] == [e] && [e][..0] == [];
    assert multiset(["m"])["m"] == 1;
    assert Listings([e], "m") == 1 && Listings(events, "m") == 1;
    OnePlusNone(e, o, "m", Fails(events, window));
    OnePlusNone(e, o, "m", Succeeds(events, window));
  }

  lemma OnePlusNone(e: Event, o: Event, id: Id, p: Event -> bool)
    requires e.Injected? && o.Outcome?
    ensures ListingsIf([e, o], id, p) == if p(e) then Occurrences(e.ids, id) else 0
  {
    assert [e, o][..1] == [e] && [e][..0] == [];
    assert ListingsIf([e], id, p) == if p(e) then Occurrences(e.ids, id) else 0;
  }

  lemma PairFollows(o: Event, window: real)
    requires o.Outcome?
    ensures FollowedByFailure(Pair(o), Injected("s", 10.0, ["m"]), window)
            <==> o.session == "s" && 10.0 <= o.ts <= 10.0 + window && (o.likelyFail || o.exit == OtherCode || (o.exit.Code? && o.exit.code != 0))
    ensures FollowedBySuccess(Pair(o), Injected("s", 10.0, ["m"]), window)
            <==> o.session == "s" && 10.0 <= o.ts <= 10.0 + window && o.exit == Code(0)
  {
    assert Pair(o)[1] == o && Pair(o)[0] == Injected("s", 10.0, ["m"]);
    assert o in Pair(o);
    assert forall x :: x in Pair(o) && x.Outcome? ==> x == o;
  }

  /** One injection at 10 and one command, with a window of 5: from 10 to 15 the command counts, before and after and
      in another session it does not, and what it counts as depends on its exit code and flag. */
  lemma OneCommand(o: Event)
    requires o.Outcome?
    ensures Credit(Pair(o), 5.0, "m")
         == if o.session != "s" || o.ts < 10.0 || o.ts > 15.0 then Stat(1, 0, 0)
            else if o.likelyFail || o.exit == OtherCode || (o.exit.Code? && o.exit.code != 0) then Stat(1, 0, 1)
            else if o.exit == Code(0) then Stat(1, 1, 0)
            else Stat(1, 0, 0)
  {
    PairCredit(o, 5.0);
    PairFollows(o, 5.0);
  }

  /** The edges of the window. */
  lemma WindowEdges()
    ensures Credit(Pair(Outcome("s", 10.0, Code(0), false)), 5.0, "m") == Stat(1, 1, 0)
    ensures Credit(Pair(Outcome("s", 15.0, Code(0), false)), 5.0, "m") == Stat(1, 1, 0)
    ensures Credit(Pair(Outcome("s", 9.0, Code(0), false)), 5.0, "m") == Stat(1, 0, 0)
    ensures Credit(Pair(Outcome("s", 16.0, Code(0), false)), 5.0, "m") == Stat(1, 0, 0)
    ensures Credit(Pair(Outcome("t", 10.0, Code(0), false)), 5.0, "m") == Stat(1, 0, 0)
  {
    OneCommand(Outcome("s", 10.0, Code(0), false));
    OneCommand(Outcome("s", 15.0, Code(0), false));
    OneCommand(Outcome("s", 9.0, Code(0), false));
    OneCommand(Outcome("s", 16.0, Code(0), false));
    OneCommand(Outcome("t", 10.0, Code(0), false));
  }
}
