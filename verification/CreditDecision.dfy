/** What the credit command does to a memory, traced back to the events in the ledger
    (chitta-mcp/outcome_ledger.py, `credit` over `compute_credit` and `wilson_lower_bound`). */
module CreditDecision {
  import opened Reals
  import opened OutcomeLedger
  import opened Wilson

  function DecisionFor(events: seq<Event>, window: real, id: Id, sqrt: real -> real): Decision
  {
    var s := OutcomeLedger.Credit(events, window, id);
    Decide(s.successes, s.failures, sqrt)
  }

  lemma {:induction false} SumHasTerm(part: seq<Event>, worth: Event -> nat) returns (i: nat)
    requires SumOf(part, worth) > 0
    ensures i < |part| && worth(part[i]) > 0
  {
    i := |part| - 1;
    if worth(part[i]) == 0 {
      i := SumHasTerm(part[..i], worth);
    }
  }

  lemma {:induction false} TimesMember(ids: seq<Id>, id: Id)
    requires Times(ids, id) > 0
    ensures id in ids
  {
    if ids[|ids| - 1] != id {
      TimesMember(ids[..|ids| - 1], id);
    }
  }

  /** A counted verdict has an injection of the memory behind it. */
  lemma TotalHasEvent(events: seq<Event>, window: real, id: Id, aspect: Aspect) returns (e: Event)
    requires Total(events, window, id, aspect) > 0
    ensures e in events && e.Injected? && id in e.ids && Counts(VerdictOf(events, e, window), aspect)
  {
    var i := SumHasTerm(events, Worth(events, window, id, aspect));
    e := events[i];
    TimesMember(e.ids, id);
  }

  /** An acknowledged memory was injected at least six times, and at least one of those injections was followed
      in its session, within the window, by a command that succeeded and by none that failed. */
  lemma AckJustified(events: seq<Event>, window: real, id: Id, sqrt: real -> real) returns (e: Event)
    requires IsSqrt(sqrt) && DecisionFor(events, window, id, sqrt).Ack?
    ensures Total(events, window, id, Injections) >= 6
    ensures e in events && e.Injected? && id in e.ids
    ensures SomeGood(events, e, window) && !SomeBad(events, e, window)
  {
    var s := OutcomeLedger.Credit(events, window, id);
    CreditBounded(events, window, id);
    AckNeedsSix(s.successes, s.failures, sqrt);
    if s.successes == 0 {
      BoundAtHopeless(s.failures, Z, sqrt);
    }
    e := TotalHasEvent(events, window, id, Successes);
  }

  /** A nacked memory was injected at least three times, and at least one of those injections was followed in
      its session, within the window, by a command that failed or looked as if it had. */
  lemma NackJustified(events: seq<Event>, window: real, id: Id, sqrt: real -> real) returns (e: Event)
    requires IsSqrt(sqrt) && DecisionFor(events, window, id, sqrt).Nack?
    ensures Total(events, window, id, Injections) >= MIN_OBSERVATIONS
    ensures e in events && e.Injected? && id in e.ids && SomeBad(events, e, window)
  {
    var s := OutcomeLedger.Credit(events, window, id);
    CreditBounded(events, window, id);
    NackNeedsFailure(s.successes, s.failures, sqrt);
    e := TotalHasEvent(events, window, id, Failures);
  }

  /** The order in which the ledger was written does not influence any decision. */
  lemma DecisionOrderFree(a: seq<Event>, b: seq<Event>, window: real, id: Id, sqrt: real -> real)
    requires multiset(a) == multiset(b)
    ensures DecisionFor(a, window, id, sqrt) == DecisionFor(b, window, id, sqrt)
  {
    CreditPermutes(a, b, window, id);
  }
}
