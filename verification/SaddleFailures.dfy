/** Which exit codes make a saddle (chitta-mcp/saddle_detector.py, `failed`, `open_saddle`, `find_episodes` and
    `report`), told by the exit fields alone. */
module SaddleFailures {
  import opened Prelude
  import opened Saddle
  import opened SaddleIdentity
  import Episodes

  /** A nonzero integer exit code; or no exit code and the flag; or a value that converts to a nonzero integer. */
  predicate Broken(row: Row)
  {
    || (row.exit.Plain? && row.exit.code != 0)
    || (row.exit.Absent? && row.likelyFail)
    || (row.exit.Odd? && row.exit.truncated.Some? && row.exit.truncated.value != 0)
  }

  /** Exit code 0; or no exit code and no flag; or a value that converts to zero or does not convert. */
  predicate Unbroken(row: Row)
  {
    || row.exit == Plain(0)
    || (row.exit == Absent && !row.likelyFail)
    || row.exit == Odd(None) || row.exit == Odd(Some(0))
  }

  lemma BrokenOrNot(row: Row)
    ensures Failed(row) <==> Broken(row)
    ensures Unbroken(row) <==> !Broken(row)
    ensures Succeeded(row) <==> row.exit == Plain(0)
  {
    match row.exit
    case Absent =>
    case Plain(code) =>
    case Odd(None) =>
    case Odd(Some(n)) =>
  }

  // ---------------------------------------------------------------------------
  // Open saddles
  // ---------------------------------------------------------------------------

  /** As many broken commands of one shape as the threshold asks for, and at least one, are reported, with their
      number, their first and their last time. */
  lemma BrokenReported(events: seq<Row>, args: Args, similar: Similarity, episode: Option<Episode>)
    requires Reflexive(similar) && events != [] && |events| >= args.minFails
    requires args.cmd.None? || similar(events[0].shape, args.cmd.value)
    requires forall i :: 0 <= i < |events| ==> Broken(events[i]) && events[i].shape == events[0].shape
    requires Reports(events, args, similar, episode)
    ensures episode == Some(Episode(Identity(args.session, events[0].ts, events[0].shape),
                                    events[0].ts, events[|events| - 1].ts, |events|))
  {
    forall i | 0 <= i < |events| ensures Failed(events[i]) {
      BrokenOrNot(events[i]);
    }
    OneShape(events, similar);
    OneShapeReports(events, args, similar);
    assert IsChosen(GroupsOf(events, similar), 0, args, similar);
    ReportIsChosen(events, 0, args, similar, episode);
  }

  /** Broken commands of one shape are not reported if they are fewer than the threshold, or unlike the command that was
      asked about. */
  lemma TooFewReported(events: seq<Row>, args: Args, similar: Similarity, episode: Option<Episode>)
    requires Reflexive(similar) && events != []
    requires |events| < args.minFails || (args.cmd.Some? && !similar(events[0].shape, args.cmd.value))
    requires forall i :: 0 <= i < |events| ==> Broken(events[i]) && events[i].shape == events[0].shape
    requires Reports(events, args, similar, episode)
    ensures episode.None?
  {
    forall i | 0 <= i < |events| ensures Failed(events[i]) {
      BrokenOrNot(events[i]);
    }
    OneShape(events, similar);
    assert forall k :: 0 <= k < |GroupsOf(events, similar)| ==> !IsCandidate(GroupsOf(events, similar)[k], args, similar);
  }

  /** Asked about a command, only a saddle like it is reported. */
  lemma OnlyAskedFor(events: seq<Row>, args: Args, similar: Similarity, episode: Option<Episode>)
    requires Reports(events, args, similar, episode) && episode.Some? && args.cmd.Some?
    ensures similar(episode.value.id.shape, args.cmd.value) && episode.value.nFails >= args.minFails
  {
  }

  lemma {:induction false} NoneBrokenNoGroups(events: seq<Row>, similar: Similarity)
    requires forall i :: 0 <= i < |events| ==> Unbroken(events[i])
    ensures GroupsOf(events, similar) == []
  {
    if events != [] {
      NoneBrokenNoGroups(events[..|events| - 1], similar);
      BrokenOrNot(events[|events| - 1]);
    }
  }

  /** Unbroken commands are never reported. */
  lemma UnbrokenNotReported(events: seq<Row>, args: Args, similar: Similarity, episode: Option<Episode>)
    requires forall i :: 0 <= i < |events| ==> Unbroken(events[i])
    requires Reports(events, args, similar, episode)
    ensures episode.None?
  {
    NoneBrokenNoGroups(events, similar);
  }

  /** Exit code 0 of a similar command ends a saddle; an exit code that is missing, or only converts to zero, does
      not. */
  lemma OnlyZeroClears(broken: seq<Row>, row: Row, args: Args, similar: Similarity, episode: Option<Episode>)
    requires Reflexive(similar) && broken != [] && |broken| >= args.minFails && args.cmd.None?
    requires forall i :: 0 <= i < |broken| ==> Broken(broken[i]) && broken[i].shape == broken[0].shape
    requires Unbroken(row) && row.shape == broken[0].shape
    requires Reports(broken + [row], args, similar, episode)
    ensures episode.None? <==> row.exit == Plain(0)
  {
    forall i | 0 <= i < |broken| ensures Failed(broken[i]) {
      BrokenOrNot(broken[i]);
    }
    BrokenOrNot(row);
    OneShape(broken, similar);
    GroupsSnoc(broken, row, similar);
    var group := Group(broken[0].shape, broken);
    if row.exit == Plain(0) {
      GroupCleared(broken, row, broken[0].shape, similar);
      NoOtherGroup(broken, row, group, similar);
    } else {
      assert GroupsOf(broken + [row], similar)[0] == group;
      assert IsCandidate(group, args, similar);
    }
  }

  lemma NoOtherGroup(broken: seq<Row>, row: Row, group: Group, similar: Similarity)
    requires Succeeded(row) && GroupsOf(broken, similar) == [group] && similar(group.shape, row.shape)
    ensures GroupsOf(broken + [row], similar) == []
  {
    GroupsSnoc(broken, row, similar);
    var groups := GroupsOf(broken + [row], similar);
    if groups != [] {
      AfterSuccess(GroupsOf(broken, similar), row, similar, groups[0]);
      assert false;
    }
  }

  /** Three commands with exit code 1. */
  lemma ThreeFailures(shape: Shape, session: string, similar: Similarity, episode: Option<Episode>)
    requires Reflexive(similar)
    requires Reports([Row(1.0, shape, Plain(1), false), Row(2.0, shape, Plain(1), false), Row(3.0, shape, Plain(1), false)],
                     Args(session, 3, None), similar, episode)
    ensures episode == Some(Episode(Identity(session, 1.0, shape), 1.0, 3.0, 3))
  {
    var rows := [Row(1.0, shape, Plain(1), false), Row(2.0, shape, Plain(1), false), Row(3.0, shape, Plain(1), false)];
    assert forall i :: 0 <= i < |rows| ==> Broken(rows[i]) && rows[i].shape == shape;
    BrokenReported(rows, Args(session, 3, None), similar, episode);
  }

  // ---------------------------------------------------------------------------
  // The report
  // ---------------------------------------------------------------------------

  function CommandsIn(events: seq<Episodes.Event>): nat
  {
    if events == [] then 0
    else CommandsIn(events[..|events| - 1]) + if events[|events| - 1].Bash? then 1 else 0
  }

  function BrokenIn(events: seq<Episodes.Event>): nat
  {
    if events == [] then 0
    else
      var e := events[|events| - 1];
      BrokenIn(events[..|events| - 1]) + if e.Bash? && Broken(e.row) then 1 else 0
  }

  function CommandsInAll(sessions: seq<seq<Episodes.Event>>): nat
  {
    if sessions == [] then 0 else CommandsInAll(sessions[..|sessions| - 1]) + CommandsIn(sessions[|sessions| - 1])
  }

  function BrokenInAll(sessions: seq<seq<Episodes.Event>>): nat
  {
    if sessions == [] then 0 else BrokenInAll(sessions[..|sessions| - 1]) + BrokenIn(sessions[|sessions| - 1])
  }

  lemma {:induction false} SessionCounts(events: seq<Episodes.Event>)
    ensures Episodes.CountFails(events) == BrokenIn(events) && |Episodes.Commands(events)| == CommandsIn(events)
  {
    if events != [] {
      var n := |events| - 1;
      SessionCounts(events[..n]);
      if events[n].Bash? {
        BrokenOrNot(events[n].row);
      }
    }
  }

  /** A report counts every command, and every broken one. */
  lemma {:induction false} ReportCounts(sessions: seq<seq<Episodes.Event>>, minFails: int, window: int, similar: Similarity)
    ensures Episodes.Reported(sessions, minFails, window, similar).bash == CommandsInAll(sessions)
    ensures Episodes.Reported(sessions, minFails, window, similar).fails == BrokenInAll(sessions)
  {
    if sessions != [] {
      ReportCounts(sessions[..|sessions| - 1], minFails, window, similar);
      SessionCounts(sessions[|sessions| - 1]);
    }
  }
}
