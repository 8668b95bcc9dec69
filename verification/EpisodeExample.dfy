/** `find_episodes` on one literal session (chitta-mcp/saddle_detector.py): what it takes from each field. */
module EpisodeExample {
  import opened Prelude
  import opened Saddle
  import opened Episodes

  function Command(ts: real, exit: ExitCode): Event
  {
    Bash(Row(ts, "make", exit, false))
  }

  /** A command that fails twice and then works, with memories injected in between. */
  function Session(): seq<Event>
  {
    [Command(1.0, Plain(1)), Injected(["m"]), Command(3.0, Plain(2)), Command(4.0, Plain(0))]
  }

  lemma CommandsStep(events: seq<Event>, n: nat)
    requires n < |events|
    ensures Commands(events[..n + 1]) == Commands(events[..n]) + if events[n].Bash? then [n] else []
  {
    assert events[..n + 1][..n] == events[..n];
  }

  lemma CommandsOfTwo(events: seq<Event>)
    requires |events| >= 2 && events[0].Bash? && !events[1].Bash?
    ensures Commands(events[..2]) == [0]
  {
    CommandsStep(events, 0);
    CommandsStep(events, 1);
    assert |events[..0]| == 0;
  }

  lemma CommandsOfFour(events: seq<Event>)
    requires |events| == 4 && events[0].Bash? && !events[1].Bash? && events[2].Bash? && events[3].Bash?
    ensures Commands(events) == [0, 2, 3]
  {
    CommandsOfTwo(events);
    CommandsStep(events, 2);
    CommandsStep(events, 3);
    assert events[..4] == events;
  }

  lemma SessionCommands()
    ensures Commands(Session()) == [0, 2, 3]
  {
    CommandsOfFour(Session());
  }

  lemma InjectedStep(events: seq<Event>, n: nat)
    requires n < |events|
    ensures CountInjected(events[..n + 1]) == CountInjected(events[..n]) + if events[n].Injected? then 1 else 0
  {
    assert events[..n + 1][..n] == events[..n];
  }

  lemma InjectedOfFour(events: seq<Event>)
    requires |events| == 4 && !events[0].Injected? && events[1].Injected? && !events[2].Injected? && !events[3].Injected?
    ensures CountInjected(events) == 1
  {
    InjectedStep(events, 0);
    InjectedStep(events, 1);
    InjectedStep(events, 2);
    InjectedStep(events, 3);
    assert |events[..0]| == 0 && events[..4] == events;
  }

  lemma SessionInjected()
    ensures CountInjected(Session()) == 1
  {
    InjectedOfFour(Session());
  }

  lemma SessionLike(i: nat, j: nat, similar: Similarity)
    requires Reflexive(similar) && i in {0, 2, 3} && j in {0, 2, 3}
    ensures Like(Session(), i, j, similar)
    ensures FailsAt(Session(), i) <==> i != 3
    ensures SucceedsAt(Session(), i) <==> i == 3
  {
  }

  /** The first failure opens an episode that the second joins and the success ends. */
  lemma FirstTurn(similar: Similarity)
    requires Reflexive(similar) && BashOf(Session(), [0, 2, 3])
    ensures Turn(Session(), [0, 2, 3], 0, {}, 2, 10, similar) == Some(Found([0, 2], true, 3, 1))
  {
    var events, bash, used: set<nat> := Session(), [0, 2, 3], {};
    SessionLike(0, 2, similar);
    SessionLike(2, 0, similar);
    SessionLike(0, 3, similar);
    SessionLike(3, 0, similar);
    assert IsStop(events, bash, 0, used, 10, similar, 2);
    StopUnique(events, bash, 0, used, 10, similar, 2, StopOf(events, bash, 0, used, 10, similar));
    assert LikeFails(events, bash, 0, 1, similar) == [0];
    assert LikeFails(events, bash, 0, 2, similar) == [0, 2];
    SessionInjected();
    assert events[0..4] == events;
  }

  /** One episode: both failures, escaped, up to the success, with one injection on the way. */
  lemma OneEpisode(similar: Similarity)
    requires Reflexive(similar)
    ensures EpisodesOf(Session(), 2, 10, similar) == [Found([0, 2], true, 3, 1)]
  {
    var turn, e := TurnsOf(Session(), 2, 10, similar), Found([0, 2], true, 3, 1);
    SessionCommands();
    FirstTurn(similar);
    SessionLike(3, 3, similar);
    var none: seq<Found> := [];
    assert InTurn(0, turn) == none && Owned(none) == {};
    assert turn(0, {}) == Some(e);
    assert InTurn(1, turn) == none + [e];
    OwnedGrows(none, e);
    assert 2 in Elements(e.fails);
    assert turn(1, Owned(none + [e])) == None;
    assert InTurn(2, turn) == none + [e];
    assert turn(2, Owned(none + [e])) == None;
    assert InTurn(3, turn) == none + [e];
  }

  // ---------------------------------------------------------------------------
  // Totals
  // ---------------------------------------------------------------------------

  lemma CountOfThree(a: Found, b: Found, c: Found, counts: Found -> bool)
    ensures CountIf([a, b, c], counts) == (if counts(a) then 1 else 0) + (if counts(b) then 1 else 0) + (if counts(c) then 1 else 0)
    ensures TotalFails([a, b, c]) == |a.fails| + |b.fails| + |c.fails|
  {
    assert [a, b, c][..2] == [a, b] && [a, b][..1] == [a] && [a][..0] == [];
    assert CountIf([a], counts) == (if counts(a) then 1 else 0) && TotalFails([a]) == |a.fails|;
    assert CountIf([a, b], counts) == CountIf([a], counts) + (if counts(b) then 1 else 0);
    assert TotalFails([a, b]) == TotalFails([a]) + |b.fails|;
  }

  /** Of three episodes one escaped with a memory, one without, and one did not escape. */
  lemma ThreeTotals(a: Found, b: Found, c: Found)
    requires a.escaped && a.injectedDuring == 1 && b.escaped && b.injectedDuring == 0 && !c.escaped && c.injectedDuring == 2
    ensures var t := TotalsOf(Session(), [a, b, c]);
            && t.bash == 3 && t.fails == 2 && t.failsInside == |a.fails| + |b.fails| + |c.fails|
            && t.sessionsWith == 1 && t.episodes == 3 && t.escaped == 2
            && t.injected == 2 && t.escapedInjected == 1 && t.escapedAlone == 1
    ensures TotalsOf(Session(), []).sessionsWith == 0
  {
    assert Escaped()(a) && Escaped()(b) && !Escaped()(c);
    assert WithInjection()(a) && !WithInjection()(b) && WithInjection()(c);
    CountOfThree(a, b, c, Escaped());
    CountOfThree(a, b, c, WithInjection());
    CountOfThree(a, b, c, Both(Escaped(), WithInjection()));
    CountOfThree(a, b, c, Only(Escaped(), WithInjection()));
    SessionCommands();
    SessionFails();
  }

  lemma SessionFails()
    ensures CountFails(Session()) == 2
  {
    var s := Session();
    assert s[..4] == s && s[..4][..3] == s[..3] && s[..3][..2] == s[..2] && s[..2][..1] == s[..1] && s[..1][..0] == [];
    assert CountFails(s[..1]) == 1 && CountFails(s[..2]) == 1 && CountFails(s[..3]) == 2;
  }
}
