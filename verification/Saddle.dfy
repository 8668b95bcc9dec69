/** Saddles that are open right now (chitta-mcp/saddle_detector.py, `open_saddle` and `check`):
    failing commands are grouped around the first failure of their shape. */
module Saddle {
  import opened Prelude

  type Shape = string

  /** An exit code as the ledger records it: absent, an integer (or its decimal text), or anything
      else, of which only the integer it converts to matters. */
  datatype ExitCode = Absent | Plain(code: int) | Odd(truncated: Option<int>)

  /** A `bash_outcome` row; `shape` is its normalized command head. */
  datatype Row = Row(ts: real, shape: Shape, exit: ExitCode, likelyFail: bool)

  predicate Failed(r: Row)
  {
    match r.exit
    case Absent => r.likelyFail
    case Plain(code) => code != 0
    case Odd(truncated) => truncated.Some? && truncated.value != 0
  }

  /** `exit_code in (0, "0")` */
  predicate Succeeded(r: Row)
  {
    r.exit == Plain(0)
  }

  datatype Group = Group(shape: Shape, fails: seq<Row>)

  /** `similar` with its threshold; all that is known of it is that a shape is similar to itself. */
  type Similarity = (Shape, Shape) -> bool

  ghost predicate Reflexive(similar: Similarity)
  {
    forall s :: similar(s, s)
  }

  // ---------------------------------------------------------------------------
  // One row
  // ---------------------------------------------------------------------------

  /** `[g for g in groups if similar(g["shape"], shape)]` */
  function Matching(groups: seq<Group>, shape: Shape, similar: Similarity): seq<Group>
  {
    if groups == [] then []
    else
      Matching(groups[..|groups| - 1], shape, similar)
      + if similar(groups[|groups| - 1].shape, shape) then [groups[|groups| - 1]] else []
  }

  /** `[g for g in groups if g not in matches]`, where `in` compares groups by value. */
  function Without(groups: seq<Group>, matches: seq<Group>): seq<Group>
  {
    if groups == [] then []
    else
      Without(groups[..|groups| - 1], matches)
      + if groups[|groups| - 1] in matches then [] else [groups[|groups| - 1]]
  }

  /** The first group whose shape is similar to `shape`, or the number of groups. */
  function FirstMatch(groups: seq<Group>, shape: Shape, similar: Similarity): (k: nat)
    ensures k <= |groups|
    ensures k < |groups| ==> similar(groups[k].shape, shape)
    ensures forall i :: 0 <= i < k ==> !similar(groups[i].shape, shape)
  {
    if groups == [] then 0
    else
      var k := FirstMatch(groups[..|groups| - 1], shape, similar);
      if k < |groups| - 1 || similar(groups[|groups| - 1].shape, shape) then k else |groups|
  }

  /** `matches[0]["fails"].append(row)`, or a new group at the end. */
  function AddFailure(groups: seq<Group>, row: Row, similar: Similarity): seq<Group>
  {
    var k := FirstMatch(groups, row.shape, similar);
    if k < |groups| then groups[k := groups[k].(fails := groups[k].fails + [row])]
    else groups + [Group(row.shape, [row])]
  }

  function Absorb(groups: seq<Group>, row: Row, similar: Similarity): seq<Group>
  {
    if Failed(row) then AddFailure(groups, row, similar)
    else if Succeeded(row) then Without(groups, Matching(groups, row.shape, similar))
    else groups
  }

  function GroupsOf(events: seq<Row>, similar: Similarity): seq<Group>
  {
    if events == [] then [] else Absorb(GroupsOf(events[..|events| - 1], similar), events[|events| - 1], similar)
  }

  lemma GroupsSnoc(events: seq<Row>, row: Row, similar: Similarity)
    ensures GroupsOf(events + [row], similar) == Absorb(GroupsOf(events, similar), row, similar)
  {
    assert (events + [row])[..|events|] == events;
  }

  // ---------------------------------------------------------------------------
  // The group invariant
  // ---------------------------------------------------------------------------

  /** No later shape is similar to an earlier one, and each group holds failures similar to its shape,
      the first of which gave the shape. */
  ghost predicate WellGrouped(groups: seq<Group>, similar: Similarity)
  {
    && (forall i, j :: 0 <= i < j < |groups| ==> !similar(groups[i].shape, groups[j].shape))
    && (forall i :: 0 <= i < |groups| ==> WellFormed(groups[i], similar))
  }

  ghost predicate WellFormed(g: Group, similar: Similarity)
  {
    && g.fails != [] && g.fails[0].shape == g.shape
    && (forall k :: 0 <= k < |g.fails| ==> Failed(g.fails[k]) && similar(g.shape, g.fails[k].shape))
  }

  lemma ShapesDistinct(groups: seq<Group>, similar: Similarity)
    requires Reflexive(similar) && WellGrouped(groups, similar)
    ensures forall i, j :: 0 <= i < j < |groups| ==> groups[i].shape != groups[j].shape
  {
    forall i, j | 0 <= i < j < |groups| ensures groups[i].shape != groups[j].shape {
      assert similar(groups[j].shape, groups[j].shape);
    }
  }

  lemma {:induction false} MatchingHas(groups: seq<Group>, shape: Shape, similar: Similarity, g: Group)
    ensures g in Matching(groups, shape, similar) <==> g in groups && similar(g.shape, shape)
  {
    if groups != [] {
      MatchingHas(groups[..|groups| - 1], shape, similar, g);
      assert groups == groups[..|groups| - 1] + [groups[|groups| - 1]];
    }
  }

  /** Groups whose shape is not similar to `shape`: the intended effect of a success. */
  function Unlike(groups: seq<Group>, shape: Shape, similar: Similarity): seq<Group>
  {
    if groups == [] then []
    else
      Unlike(groups[..|groups| - 1], shape, similar)
      + if similar(groups[|groups| - 1].shape, shape) then [] else [groups[|groups| - 1]]
  }

  /** Removal by value removes exactly the matching groups. */
  lemma {:induction false} WithoutIsUnlike(groups: seq<Group>, n: nat, shape: Shape, similar: Similarity)
    requires n <= |groups|
    ensures Without(groups[..n], Matching(groups, shape, similar)) == Unlike(groups[..n], shape, similar)
  {
    if n > 0 {
      WithoutIsUnlike(groups, n - 1, shape, similar);
      assert groups[..n][..n - 1] == groups[..n - 1];
      MatchingHas(groups, shape, similar, groups[n - 1]);
    }
  }

  lemma {:induction false} UnlikeWellGrouped(groups: seq<Group>, shape: Shape, similar: Similarity)
    requires WellGrouped(groups, similar)
    ensures WellGrouped(Unlike(groups, shape, similar), similar)
    ensures forall g :: g in Unlike(groups, shape, similar) ==> g in groups
  {
    if groups != [] {
      var init, last := groups[..|groups| - 1], groups[|groups| - 1];
      UnlikeWellGrouped(init, shape, similar);
      var rest := Unlike(init, shape, similar);
      forall i | 0 <= i < |rest| ensures !similar(rest[i].shape, last.shape) {
        assert rest[i] in init;
      }
    }
  }

  lemma AbsorbWellGrouped(groups: seq<Group>, row: Row, similar: Similarity)
    requires Reflexive(similar) && WellGrouped(groups, similar)
    ensures WellGrouped(Absorb(groups, row, similar), similar)
  {
    if !Failed(row) && Succeeded(row) {
      WithoutIsUnlike(groups, |groups|, row.shape, similar);
      assert groups[..|groups|] == groups;
      UnlikeWellGrouped(groups, row.shape, similar);
    }
  }

  /** Every reachable state of the group list is well grouped. */
  lemma {:induction false} GroupsWellGrouped(events: seq<Row>, similar: Similarity)
    requires Reflexive(similar)
    ensures WellGrouped(GroupsOf(events, similar), similar)
  {
    if events != [] {
      GroupsWellGrouped(events[..|events| - 1], similar);
      AbsorbWellGrouped(GroupsOf(events[..|events| - 1], similar), events[|events| - 1], similar);
    }
  }

  // ---------------------------------------------------------------------------
  // Conservation of failures
  // ---------------------------------------------------------------------------

  ghost function Held(groups: seq<Group>): multiset<Row>
  {
    if groups == [] then multiset{} else Held(groups[..|groups| - 1]) + multiset(groups[|groups| - 1].fails)
  }

  ghost function Failures(events: seq<Row>): multiset<Row>
  {
    if events == [] then multiset{}
    else Failures(events[..|events| - 1]) + if Failed(events[|events| - 1]) then multiset{events[|events| - 1]} else multiset{}
  }

  /** The failures in groups that a matching success discarded. */
  ghost function Discarded(events: seq<Row>, similar: Similarity): multiset<Row>
  {
    if events == [] then multiset{}
    else
      var init, row := events[..|events| - 1], events[|events| - 1];
      Discarded(init, similar)
      + if Succeeded(row) then Held(Matching(GroupsOf(init, similar), row.shape, similar)) else multiset{}
  }

  lemma HeldSnoc(groups: seq<Group>, g: Group)
    ensures Held(groups + [g]) == Held(groups) + multiset(g.fails)
  {
    assert (groups + [g])[..|groups|] == groups;
  }

  lemma {:induction false} HeldUpdate(groups: seq<Group>, k: nat, row: Row)
    requires k < |groups|
    ensures Held(groups[k := groups[k].(fails := groups[k].fails + [row])]) == Held(groups) + multiset{row}
  {
    var init, last, grown := groups[..|groups| - 1], groups[|groups| - 1], groups[k].(fails := groups[k].fails + [row]);
    if k == |groups| - 1 {
      assert groups[k := grown] == init + [grown];
      HeldSnoc(init, grown);
    } else {
      assert groups[k := grown] == init[k := grown] + [last];
      HeldSnoc(init[k := grown], last);
      HeldUpdate(init, k, row);
    }
  }

  lemma {:induction false} HeldSplit(groups: seq<Group>, shape: Shape, similar: Similarity)
    ensures Held(groups) == Held(Unlike(groups, shape, similar)) + Held(Matching(groups, shape, similar))
  {
    if groups != [] {
      var init, last := groups[..|groups| - 1], groups[|groups| - 1];
      HeldSplit(init, shape, similar);
      if similar(last.shape, shape) {
        HeldSnoc(Matching(init, shape, similar), last);
        assert Unlike(groups, shape, similar) == Unlike(init, shape, similar);
      } else {
        HeldSnoc(Unlike(init, shape, similar), last);
        assert Matching(groups, shape, similar) == Matching(init, shape, similar);
      }
    }
  }

  /** Conservation: every failing event is in exactly one open group or was discarded by a success. */
  lemma {:induction false} FailuresConserved(events: seq<Row>, similar: Similarity)
    ensures Failures(events) == Held(GroupsOf(events, similar)) + Discarded(events, similar)
  {
    if events != [] {
      var init, row := events[..|events| - 1], events[|events| - 1];
      var groups := GroupsOf(init, similar);
      FailuresConserved(init, similar);
      if Failed(row) {
        var k := FirstMatch(groups, row.shape, similar);
        if k < |groups| {
          HeldUpdate(groups, k, row);
        } else {
          HeldSnoc(groups, Group(row.shape, [row]));
        }
      } else if Succeeded(row) {
        WithoutIsUnlike(groups, |groups|, row.shape, similar);
        assert groups[..|groups|] == groups;
        HeldSplit(groups, row.shape, similar);
      }
    }
  }

  // ---------------------------------------------------------------------------
  // The reported saddle
  // ---------------------------------------------------------------------------

  datatype Args = Args(session: string, minFails: int, cmd: Option<Shape>)

  predicate IsCandidate(g: Group, args: Args, similar: Similarity)
  {
    |g.fails| >= args.minFails && (args.cmd.None? || similar(g.shape, args.cmd.value))
  }

  datatype Identity = Identity(session: string, firstTs: real, shape: Shape)

  datatype Episode = Episode(id: Identity, startTs: real, endTs: real, nFails: nat)

  function LastTs(g: Group): real
    requires g.fails != []
  {
    g.fails[|g.fails| - 1].ts
  }

  /** `groups[k]` is what `max(candidates, key=last ts)` returns: the first of the latest. */
  ghost predicate IsChosen(groups: seq<Group>, k: nat, args: Args, similar: Similarity)
    requires forall i :: 0 <= i < |groups| ==> groups[i].fails != []
  {
    && k < |groups| && IsCandidate(groups[k], args, similar)
    && (forall i :: 0 <= i < |groups| && IsCandidate(groups[i], args, similar) ==> LastTs(groups[i]) <= LastTs(groups[k]))
    && (forall i :: 0 <= i < k && IsCandidate(groups[i], args, similar) ==> LastTs(groups[i]) < LastTs(groups[k]))
  }

  function EpisodeOf(g: Group, args: Args): Episode
    requires g.fails != []
  {
    Episode(Identity(args.session, g.fails[0].ts, g.shape), g.fails[0].ts, LastTs(g), |g.fails|)
  }

  /** `max(candidates, key=lambda g: g["fails"][-1]["ts"])` over the candidates among `groups`. */
  method Latest(groups: seq<Group>, args: Args, similar: Similarity) returns (best: Option<nat>)
    requires forall i :: 0 <= i < |groups| ==> groups[i].fails != []
    ensures best.None? <==> forall j :: 0 <= j < |groups| ==> !IsCandidate(groups[j], args, similar)
    ensures best.Some? ==> IsChosen(groups, best.value, args, similar)
  {
    best := None;
    for i := 0 to |groups|
      invariant best.None? <==> forall j :: 0 <= j < i ==> !IsCandidate(groups[j], args, similar)
      invariant best.Some? ==> best.value < i && IsChosen(groups[..i], best.value, args, similar)
    {
      if IsCandidate(groups[i], args, similar)
         && (best.None? || LastTs(groups[best.value]) < LastTs(groups[i])) {
        best := Some(i);
      }
    }
    assert groups[..|groups|] == groups;
  }

  /** What `open_saddle` must report: the episode of the chosen group, or nothing if there is no candidate. */
  ghost predicate Reports(events: seq<Row>, args: Args, similar: Similarity, episode: Option<Episode>)
  {
    var groups := GroupsOf(events, similar);
    && WellGrouped(groups, similar)
    && match episode
       case None => forall i :: 0 <= i < |groups| ==> !IsCandidate(groups[i], args, similar)
       case Some(e) => exists k: nat :: IsChosen(groups, k, args, similar) && e == EpisodeOf(groups[k], args)
  }

  /** `max` leaves no choice. */
  lemma ChosenUnique(groups: seq<Group>, k: nat, j: nat, args: Args, similar: Similarity)
    requires forall i :: 0 <= i < |groups| ==> groups[i].fails != []
    requires IsChosen(groups, k, args, similar) && IsChosen(groups, j, args, similar)
    ensures k == j
  {
  }

  /** A report is that of the chosen group. */
  lemma ReportIsChosen(events: seq<Row>, k: nat, args: Args, similar: Similarity, episode: Option<Episode>)
    requires Reports(events, args, similar, episode)
    requires IsChosen(GroupsOf(events, similar), k, args, similar)
    ensures episode == Some(EpisodeOf(GroupsOf(events, similar)[k], args))
  {
    var groups := GroupsOf(events, similar);
    assert IsCandidate(groups[k], args, similar);
    if episode.Some? {
      var j: nat :| IsChosen(groups, j, args, similar) && episode.value == EpisodeOf(groups[j], args);
      ChosenUnique(groups, k, j, args, similar);
    }
  }

  /** `open_saddle`: the first candidate with the latest failure, if there is a candidate. */
  method OpenSaddle(events: seq<Row>, args: Args, similar: Similarity) returns (episode: Option<Episode>)
    requires Reflexive(similar)
    ensures Reports(events, args, similar, episode)
  {
    var groups: seq<Group> := [];
    for n := 0 to |events|
      invariant groups == GroupsOf(events[..n], similar)
    {
      assert events[..n + 1][..n] == events[..n];
      var row := events[n];
      if Failed(row) {
        groups := AddFailure(groups, row, similar);
      } else if Succeeded(row) {
        groups := Without(groups, Matching(groups, row.shape, similar));
      }
    }
    assert events[..|events|] == events;
    GroupsWellGrouped(events, similar);
    var best := Latest(groups, args, similar);
    if best.None? {
      return None;
    }
    return Some(EpisodeOf(groups[best.value], args));
  }

  lemma {:induction false} HeldHas(groups: seq<Group>, k: nat, row: Row)
    requires k < |groups| && row in groups[k].fails
    ensures row in Held(groups)
  {
    if k < |groups| - 1 {
      HeldHas(groups[..|groups| - 1], k, row);
    } else {
      assert row in multiset(groups[k].fails);
    }
  }

  lemma {:induction false} FailuresAreEvents(events: seq<Row>, row: Row)
    requires row in Failures(events)
    ensures row in events
  {
    if row != events[|events| - 1] {
      FailuresAreEvents(events[..|events| - 1], row);
    }
  }

  /** Identity lives no longer than its first failure: a saddle is reported only under the time and the shape of a
      failing row that is still among the events read. */
  lemma IdentityNeedsFirstFailure(events: seq<Row>, k: nat, args: Args, similar: Similarity)
    requires k < |GroupsOf(events, similar)|
    requires WellGrouped(GroupsOf(events, similar), similar)
    ensures exists row :: row in events && Failed(row)
                          && EpisodeOf(GroupsOf(events, similar)[k], args).id == Identity(args.session, row.ts, row.shape)
  {
    var groups := GroupsOf(events, similar);
    var first := groups[k].fails[0];
    HeldHas(groups, k, first);
    FailuresConserved(events, similar);
    FailuresAreEvents(events, first);
    FailuresFailed(events, first);
  }

  lemma {:induction false} FailuresFailed(events: seq<Row>, row: Row)
    requires row in Failures(events)
    ensures Failed(row)
  {
    if !Failed(row) {
      FailuresFailed(events[..|events| - 1], row);
    }
  }

  // ---------------------------------------------------------------------------
  // The notice file
  // ---------------------------------------------------------------------------

  /** `check` against a notice file: announce an identity only if its line is not there yet. */
  method Check(notices: seq<Identity>, episode: Option<Episode>) returns (announced: bool, notices': seq<Identity>)
    ensures announced <==> episode.Some? && episode.value.id !in notices
    ensures notices' == Noted(notices, episode)
  {
    if episode.None? || episode.value.id in notices {
      return false, notices;
    }
    return true, notices + [episode.value.id];
  }

  /** A series of checks against one notice file. */
  method CheckAll(notices: seq<Identity>, episodes: seq<Option<Episode>>)
    returns (announced: seq<Identity>, notices': seq<Identity>)
    ensures announced == Announced(notices, episodes) && notices' == notices + announced
    ensures Distinct(announced) && forall id :: id in announced <==> id !in notices && Reported(episodes, id)
  {
    announced, notices' := [], notices;
    for n := 0 to |episodes|
      invariant announced == Announced(notices, episodes[..n]) && notices' == NotedAll(notices, episodes[..n])
    {
      assert episodes[..n + 1][..n] == episodes[..n];
      var first;
      first, notices' := Check(notices', episodes[n]);
      if first {
        announced := announced + [episodes[n].value.id];
      }
    }
    assert episodes[..|episodes|] == episodes;
    AnnouncedOnce(notices, episodes);
  }

  function Noted(notices: seq<Identity>, episode: Option<Episode>): seq<Identity>
  {
    if episode.Some? && episode.value.id !in notices then notices + [episode.value.id] else notices
  }

  function NotedAll(notices: seq<Identity>, episodes: seq<Option<Episode>>): seq<Identity>
  {
    if episodes == [] then notices
    else Noted(NotedAll(notices, episodes[..|episodes| - 1]), episodes[|episodes| - 1])
  }

  /** The identities that a series of checks announces, in order. */
  function Announced(notices: seq<Identity>, episodes: seq<Option<Episode>>): seq<Identity>
  {
    if episodes == [] then []
    else
      var before, e := NotedAll(notices, episodes[..|episodes| - 1]), episodes[|episodes| - 1];
      Announced(notices, episodes[..|episodes| - 1])
      + if e.Some? && e.value.id !in before then [e.value.id] else []
  }

  predicate Reported(episodes: seq<Option<Episode>>, id: Identity)
  {
    exists i :: 0 <= i < |episodes| && episodes[i].Some? && episodes[i].value.id == id
  }

  /** A series of checks announces each identity at most once, and exactly those that are reported and were
      not on file before. */
  lemma {:induction false} AnnouncedOnce(notices: seq<Identity>, episodes: seq<Option<Episode>>)
    ensures NotedAll(notices, episodes) == notices + Announced(notices, episodes)
    ensures Distinct(Announced(notices, episodes))
    ensures forall id :: id in Announced(notices, episodes) <==> id !in notices && Reported(episodes, id)
  {
    if episodes != [] {
      var init, e := episodes[..|episodes| - 1], episodes[|episodes| - 1];
      AnnouncedOnce(notices, init);
      forall id ensures Reported(episodes, id) <==> Reported(init, id) || (e.Some? && e.value.id == id) {
        if Reported(init, id) {
          var i :| 0 <= i < |init| && init[i].Some? && init[i].value.id == id;
          assert episodes[i] == init[i];
        }
        if Reported(episodes, id) {
          var i :| 0 <= i < |episodes| && episodes[i].Some? && episodes[i].value.id == id;
          assert i < |init| ==> init[i] == episodes[i];
        }
      }
    }
  }
}
