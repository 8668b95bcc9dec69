/** The identity of a saddle over time (chitta-mcp/saddle_detector.py, `open_saddle` and `check`): retries with other
    commands in between, successes, and a time window that moves on. */
module SaddleIdentity {
  import opened Prelude
  import opened Saddle

  // ---------------------------------------------------------------------------
  // One group through one row
  // ---------------------------------------------------------------------------

  /** The success that discards the group of shape `s`. */
  predicate Clears(row: Row, s: Shape, similar: Similarity)
  {
    Succeeded(row) && similar(s, row.shape)
  }

  /** The failure that is added to the group of shape `s`. */
  predicate Joins(groups: seq<Group>, row: Row, s: Shape, similar: Similarity)
  {
    var k := FirstMatch(groups, row.shape, similar);
    Failed(row) && k < |groups| && groups[k].shape == s
  }

  lemma ShapeOnce(groups: seq<Group>, s: Shape, f: seq<Row>, g: seq<Row>, similar: Similarity)
    requires Reflexive(similar) && WellGrouped(groups, similar)
    requires Group(s, f) in groups && Group(s, g) in groups
    ensures f == g
  {
    ShapesDistinct(groups, similar);
  }

  lemma {:induction false} UnlikeHas(groups: seq<Group>, shape: Shape, similar: Similarity, g: Group)
    ensures g in Unlike(groups, shape, similar) <==> g in groups && !similar(g.shape, shape)
  {
    if groups != [] {
      UnlikeHas(groups[..|groups| - 1], shape, similar, g);
      assert groups == groups[..|groups| - 1] + [groups[|groups| - 1]];
    }
  }

  lemma AfterSuccess(groups: seq<Group>, row: Row, similar: Similarity, g: Group)
    requires Succeeded(row)
    ensures g in Absorb(groups, row, similar) <==> g in groups && !similar(g.shape, row.shape)
  {
    WithoutIsUnlike(groups, |groups|, row.shape, similar);
    assert groups[..|groups|] == groups;
    UnlikeHas(groups, row.shape, similar, g);
  }

  lemma AfterFailure(groups: seq<Group>, row: Row, similar: Similarity, g: Group)
    requires Failed(row)
    ensures var k := FirstMatch(groups, row.shape, similar);
            g in Absorb(groups, row, similar)
            <==> if k < |groups| then
                   g == groups[k].(fails := groups[k].fails + [row]) || exists i :: 0 <= i < |groups| && i != k && groups[i] == g
                 else g in groups || g == Group(row.shape, [row])
  {
    var k, after := FirstMatch(groups, row.shape, similar), Absorb(groups, row, similar);
    if k < |groups| {
      assert forall i :: 0 <= i < |groups| && i != k ==> after[i] == groups[i];
      assert after[k] == groups[k].(fails := groups[k].fails + [row]);
    }
  }

  /** A group that is not cleared keeps its failures, and gains the row if it joins. */
  lemma AbsorbKeeps(groups: seq<Group>, row: Row, s: Shape, fails: seq<Row>, similar: Similarity)
    requires Reflexive(similar) && WellGrouped(groups, similar)
    requires Group(s, fails) in groups && !Clears(row, s, similar)
    ensures Group(s, if Joins(groups, row, s, similar) then fails + [row] else fails) in Absorb(groups, row, similar)
  {
    if Failed(row) {
      var k := FirstMatch(groups, row.shape, similar);
      var i :| 0 <= i < |groups| && groups[i] == Group(s, fails);
      ShapesDistinct(groups, similar);
      AfterFailure(groups, row, similar, Group(s, if k == i then fails + [row] else fails));
    } else if Succeeded(row) {
      AfterSuccess(groups, row, similar, Group(s, fails));
    }
  }

  /** Where a group comes from: an older group of its shape, or the row itself. */
  lemma AbsorbOrigin(groups: seq<Group>, row: Row, s: Shape, fails: seq<Row>, similar: Similarity)
    requires Group(s, fails) in Absorb(groups, row, similar)
    ensures (Failed(row) && row.shape == s && fails == [row])
            || (!Clears(row, s, similar) && exists f :: Group(s, f) in groups && f <= fails)
  {
    var g := Group(s, fails);
    if Failed(row) {
      AfterFailure(groups, row, similar, g);
      var k := FirstMatch(groups, row.shape, similar);
      if k < |groups| && g == groups[k].(fails := groups[k].fails + [row]) {
        assert groups[k] == Group(s, groups[k].fails);
      }
    } else if Succeeded(row) {
      AfterSuccess(groups, row, similar, g);
    }
  }

  // ---------------------------------------------------------------------------
  // One group through many rows
  // ---------------------------------------------------------------------------

  /** The failures of `more` that are added to the group of shape `s`. */
  function Joined(events: seq<Row>, more: seq<Row>, s: Shape, similar: Similarity): seq<Row>
  {
    if more == [] then []
    else
      var init, row := more[..|more| - 1], more[|more| - 1];
      Joined(events, init, s, similar) + if Joins(GroupsOf(events + init, similar), row, s, similar) then [row] else []
  }

  predicate NoneClears(more: seq<Row>, s: Shape, similar: Similarity)
  {
    forall i :: 0 <= i < |more| ==> !Clears(more[i], s, similar)
  }

  lemma SplitLast(events: seq<Row>, more: seq<Row>)
    requires more != []
    ensures events + more[..|more| - 1] + [more[|more| - 1]] == events + more
  {
  }

  lemma GroupsOfSplit(events: seq<Row>, more: seq<Row>, similar: Similarity)
    requires more != []
    ensures GroupsOf(events + more, similar)
         == Absorb(GroupsOf(events + more[..|more| - 1], similar), more[|more| - 1], similar)
  {
    var init, row := events + more[..|more| - 1], more[|more| - 1];
    SplitLast(events, more);
    GroupsSnoc(init, row, similar);
  }

  lemma KeptStep(groups: seq<Group>, row: Row, s: Shape, fails: seq<Row>, joined: seq<Row>, similar: Similarity)
    requires Reflexive(similar) && WellGrouped(groups, similar)
    requires Group(s, fails + joined) in groups && !Clears(row, s, similar)
    ensures Group(s, fails + (joined + if Joins(groups, row, s, similar) then [row] else [])) in Absorb(groups, row, similar)
  {
    AbsorbKeeps(groups, row, s, fails + joined, similar);
    assert fails + joined + [row] == fails + (joined + [row]);
    assert fails + (joined + []) == fails + joined;
  }

  lemma {:induction false} GroupKept(events: seq<Row>, more: seq<Row>, s: Shape, fails: seq<Row>, similar: Similarity)
    requires Reflexive(similar) && Group(s, fails) in GroupsOf(events, similar) && NoneClears(more, s, similar)
    ensures Group(s, fails + Joined(events, more, s, similar)) in GroupsOf(events + more, similar)
  {
    if more == [] {
      assert events + more == events && fails + [] == fails;
    } else {
      var init, row := more[..|more| - 1], more[|more| - 1];
      GroupKept(events, init, s, fails, similar);
      GroupsWellGrouped(events + init, similar);
      KeptStep(GroupsOf(events + init, similar), row, s, fails, Joined(events, init, s, similar), similar);
      GroupsOfSplit(events, more, similar);
    }
  }

  ghost predicate NoGroup(groups: seq<Group>, s: Shape)
  {
    forall i :: 0 <= i < |groups| ==> groups[i].shape != s
  }

  /** A group that was not there is opened by a failure of its own shape. */
  lemma {:induction false} GroupOpened(events: seq<Row>, more: seq<Row>, s: Shape, fails: seq<Row>, similar: Similarity)
    returns (m: nat)
    requires Reflexive(similar) && NoGroup(GroupsOf(events, similar), s)
    requires Group(s, fails) in GroupsOf(events + more, similar)
    ensures m < |more| && fails != [] && fails[0] == more[m] && Failed(more[m]) && more[m].shape == s
  {
    m := 0;
    assert more == [] ==> events + more == events;
    if more != [] {
      var init, row := more[..|more| - 1], more[|more| - 1];
      GroupsOfSplit(events, more, similar);
      AbsorbOrigin(GroupsOf(events + init, similar), row, s, fails, similar);
      if Failed(row) && row.shape == s && fails == [row] {
        m := |more| - 1;
      } else {
        var f :| Group(s, f) in GroupsOf(events + init, similar) && f <= fails;
        m := GroupOpened(events, init, s, f, similar);
      }
    }
  }

  // ---------------------------------------------------------------------------
  // Reports
  // ---------------------------------------------------------------------------

  lemma ReportedGroup(events: seq<Row>, args: Args, similar: Similarity, e: Episode) returns (fails: seq<Row>)
    requires Reports(events, args, similar, Some(e))
    ensures Group(e.id.shape, fails) in GroupsOf(events, similar) && fails != []
    ensures e == EpisodeOf(Group(e.id.shape, fails), args)
  {
    var groups := GroupsOf(events, similar);
    var k: nat :| IsChosen(groups, k, args, similar) && e == EpisodeOf(groups[k], args);
    fails := groups[k].fails;
    assert groups[k] == Group(e.id.shape, fails);
  }

  /** Identity is stable, whatever other commands come in between: as long as no success clears the saddle, it is
      reported under the same identity, and its count grows by exactly the failures that joined it. */
  lemma IdentityStable(events: seq<Row>, more: seq<Row>, args: Args, args': Args, similar: Similarity,
                       before: Episode, after: Episode)
    requires Reflexive(similar) && args'.session == args.session
    requires Reports(events, args, similar, Some(before)) && Reports(events + more, args', similar, Some(after))
    requires after.id.shape == before.id.shape && NoneClears(more, before.id.shape, similar)
    ensures after.id == before.id
    ensures after.nFails == before.nFails + |Joined(events, more, before.id.shape, similar)|
  {
    var s := before.id.shape;
    var f := ReportedGroup(events, args, similar, before);
    var g := ReportedGroup(events + more, args', similar, after);
    GroupKept(events, more, s, f, similar);
    ShapeOnce(GroupsOf(events + more, similar), s, f + Joined(events, more, s, similar), g, similar);
  }

  lemma GroupCleared(events: seq<Row>, row: Row, s: Shape, similar: Similarity)
    requires Clears(row, s, similar)
    ensures NoGroup(GroupsOf(events + [row], similar), s)
  {
    GroupsSnoc(events, row, similar);
    var cleared := GroupsOf(events + [row], similar);
    forall i | 0 <= i < |cleared| ensures cleared[i].shape != s {
      AfterSuccess(GroupsOf(events, similar), row, similar, cleared[i]);
    }
  }

  /** Once a success has cleared a saddle, it is reported only under the time of a later failure of its shape. */
  lemma ClearedAnew(events: seq<Row>, more: seq<Row>, n: nat, args: Args, similar: Similarity, after: Episode)
    returns (m: nat)
    requires Reflexive(similar) && n < |more| && Clears(more[n], after.id.shape, similar)
    requires Reports(events + more, args, similar, Some(after))
    ensures n < m < |more| && Failed(more[m]) && more[m].shape == after.id.shape && after.id.firstTs == more[m].ts
  {
    var s, early, late := after.id.shape, events + more[..n], more[n + 1..];
    var fails := ReportedGroup(events + more, args, similar, after);
    GroupCleared(early, more[n], s, similar);
    assert early + [more[n]] + late == events + more;
    var k := GroupOpened(early + [more[n]], late, s, fails, similar);
    m := n + 1 + k;
  }

  // ---------------------------------------------------------------------------
  // Announcements
  // ---------------------------------------------------------------------------

  function OfShape(ids: seq<Identity>, s: Shape): seq<Identity>
  {
    if ids == [] then []
    else OfShape(ids[..|ids| - 1], s) + if ids[|ids| - 1].shape == s then [ids[|ids| - 1]] else []
  }

  lemma {:induction false} OnlyOne(ids: seq<Identity>, id: Identity)
    requires Distinct(ids) && forall x :: x in ids && x.shape == id.shape ==> x == id
    ensures OfShape(ids, id.shape) == if id in ids then [id] else []
  {
    if ids != [] {
      var init := ids[..|ids| - 1];
      OnlyOne(init, id);
      assert ids == init + [ids[|ids| - 1]];
    }
  }

  /** End to end: a saddle is reported, and after every further row, of whatever command, a check runs, for any
      command and threshold. As long as no success clears the saddle, its shape is announced once under its identity,
      or not at all if that was on file. */
  lemma RetriesAnnouncedOnce(events: seq<Row>, more: seq<Row>, args: seq<Args>, similar: Similarity,
                             episodes: seq<Option<Episode>>, notices: seq<Identity>, id: Identity)
    requires Reflexive(similar) && |args| == |episodes| == |more| + 1
    requires forall n :: 0 <= n <= |more| ==> args[n].session == id.session
    requires forall n :: 0 <= n <= |more| ==> Reports(events + more[..n], args[n], similar, episodes[n])
    requires episodes[0].Some? && episodes[0].value.id == id && NoneClears(more, id.shape, similar)
    ensures OfShape(Announced(notices, episodes), id.shape) == if id in notices then [] else [id]
  {
    forall n | 0 <= n <= |more| && episodes[n].Some? && episodes[n].value.id.shape == id.shape
      ensures episodes[n].value.id == id
    {
      SameSaddle(events, more, args, similar, episodes, id, n);
    }
    AnnouncedOnce(notices, episodes);
    assert Reported(episodes, id);
    var announced := Announced(notices, episodes);
    forall x | x in announced && x.shape == id.shape ensures x == id {
      var n :| 0 <= n < |episodes| && episodes[n].Some? && episodes[n].value.id == x;
    }
    OnlyOne(announced, id);
  }

  lemma SameSaddle(events: seq<Row>, more: seq<Row>, args: seq<Args>, similar: Similarity,
                   episodes: seq<Option<Episode>>, id: Identity, n: nat)
    requires Reflexive(similar) && |args| == |episodes| == |more| + 1 && n <= |more|
    requires args[0].session == args[n].session == id.session
    requires Reports(events + more[..0], args[0], similar, episodes[0])
    requires Reports(events + more[..n], args[n], similar, episodes[n])
    requires episodes[0].Some? && episodes[0].value.id == id && NoneClears(more, id.shape, similar)
    requires episodes[n].Some? && episodes[n].value.id.shape == id.shape
    ensures episodes[n].value.id == id
  {
    assert events + more[..0] == events;
    IdentityStable(events, more[..n], args[0], args[n], similar, episodes[0].value, episodes[n].value);
  }

  // ---------------------------------------------------------------------------
  // The time window
  // ---------------------------------------------------------------------------

  /** No failing command of another shape resembles `s`. */
  ghost predicate Apart(events: seq<Row>, s: Shape, similar: Similarity)
  {
    forall i :: 0 <= i < |events| && Failed(events[i]) && events[i].shape != s
      ==> !similar(s, events[i].shape) && !similar(events[i].shape, s)
  }

  /** The failures of shape `s` since the last success that clears it. */
  function Open(events: seq<Row>, s: Shape, similar: Similarity): seq<Row>
  {
    if events == [] then []
    else
      var before, row := Open(events[..|events| - 1], s, similar), events[|events| - 1];
      if Failed(row) && row.shape == s then before + [row]
      else if Clears(row, s, similar) then []
      else before
  }

  /** Groups are named after failing commands. */
  lemma {:induction false} GroupNamed(events: seq<Row>, similar: Similarity, g: Group)
    requires g in GroupsOf(events, similar)
    ensures exists i :: 0 <= i < |events| && Failed(events[i]) && events[i].shape == g.shape
  {
    var init, row := events[..|events| - 1], events[|events| - 1];
    AbsorbOrigin(GroupsOf(init, similar), row, g.shape, g.fails, similar);
    if !(Failed(row) && row.shape == g.shape) {
      var f :| Group(g.shape, f) in GroupsOf(init, similar) && f <= g.fails;
      GroupNamed(init, similar, Group(g.shape, f));
      var i :| 0 <= i < |init| && Failed(init[i]) && init[i].shape == g.shape;
      assert events[i] == init[i];
    }
  }

  /** A failure joins the group of shape `s` exactly if it is of that shape and there is such a group. */
  lemma JoinsApart(events: seq<Row>, row: Row, s: Shape, similar: Similarity)
    requires Reflexive(similar) && Failed(row) && Apart(events + [row], s, similar)
    ensures var groups := GroupsOf(events, similar);
            Joins(groups, row, s, similar) <==> row.shape == s && !NoGroup(groups, s)
    ensures var groups := GroupsOf(events, similar);
            row.shape == s && NoGroup(groups, s) ==> FirstMatch(groups, s, similar) == |groups|
  {
    var groups := GroupsOf(events, similar);
    var k := FirstMatch(groups, row.shape, similar);
    assert (events + [row])[|events|] == row;
    assert forall i :: 0 <= i < |events| ==> (events + [row])[i] == events[i];
    if k < |groups| && row.shape == s {
      GroupNamed(events, similar, groups[k]);
    }
  }

  /** Among commands that do not resemble it, the group of shape `s` is exactly its open failures. */
  lemma {:induction false} GroupIsOpen(events: seq<Row>, s: Shape, fails: seq<Row>, similar: Similarity)
    requires Reflexive(similar) && Apart(events, s, similar) && Group(s, fails) in GroupsOf(events, similar)
    ensures fails == Open(events, s, similar)
  {
    var init, row := events[..|events| - 1], events[|events| - 1];
    var groups := GroupsOf(init, similar);
    assert events == init + [row];
    assert forall i :: 0 <= i < |init| ==> init[i] == events[i];
    GroupsWellGrouped(init, similar);
    GroupsWellGrouped(events, similar);
    if NoGroup(groups, s) {
      NothingOpen(init, s, similar);
      AbsorbOrigin(groups, row, s, fails, similar);
    } else {
      var i :| 0 <= i < |groups| && groups[i].shape == s;
      var f := groups[i].fails;
      assert groups[i] == Group(s, f);
      GroupIsOpen(init, s, f, similar);
      if Clears(row, s, similar) {
        AfterSuccess(groups, row, similar, Group(s, fails));
      } else {
        AbsorbKeeps(groups, row, s, f, similar);
        if Failed(row) {
          JoinsApart(init, row, s, similar);
        }
        ShapeOnce(GroupsOf(events, similar), s, fails, if Joins(groups, row, s, similar) then f + [row] else f, similar);
      }
    }
  }

  lemma {:induction false} NothingOpen(events: seq<Row>, s: Shape, similar: Similarity)
    requires Reflexive(similar) && Apart(events, s, similar) && NoGroup(GroupsOf(events, similar), s)
    ensures Open(events, s, similar) == []
  {
    if events != [] {
      var init, row := events[..|events| - 1], events[|events| - 1];
      var groups := GroupsOf(init, similar);
      assert events == init + [row];
      assert forall i :: 0 <= i < |init| ==> init[i] == events[i];
      GroupsWellGrouped(init, similar);
      if !Clears(row, s, similar) {
        forall i | 0 <= i < |groups| ensures groups[i].shape != s {
          assert groups[i] == Group(groups[i].shape, groups[i].fails);
          if groups[i].shape == s {
            AbsorbKeeps(groups, row, s, groups[i].fails, similar);
          }
        }
        NothingOpen(init, s, similar);
        if Failed(row) && row.shape == s {
          JoinsApart(init, row, s, similar);
          AfterFailure(groups, row, similar, Group(s, [row]));
        }
      }
    }
  }

  /** Dropping rows at the front drops open failures at the front. */
  lemma {:induction false} OpenSuffix(events: seq<Row>, n: nat, s: Shape, similar: Similarity)
    requires n <= |events|
    ensures var all, left := Open(events, s, similar), Open(events[n..], s, similar);
            |left| <= |all| && left == all[|all| - |left|..]
  {
    if n < |events| {
      var init := events[..|events| - 1];
      OpenSuffix(init, n, s, similar);
      assert events[n..][..|events[n..]| - 1] == init[n..];
    } else {
      assert events[n..] == [];
    }
  }

  /** When the time window moves on, dropping any number of rows, the identity of a saddle that is still reported
      changes exactly if its first failure that is left has another time than its first failure before; as long as no
      open failure is dropped, it stays. If it changes, it is announced a second time. This takes that no failing
      command of another shape resembles it. */
  lemma WindowMoves(events: seq<Row>, n: nat, args: Args, args': Args, similar: Similarity, before: Episode, after: Episode)
    requires Reflexive(similar) && n <= |events| && args'.session == args.session
    requires Reports(events, args, similar, Some(before)) && Reports(events[n..], args', similar, Some(after))
    requires after.id.shape == before.id.shape && Apart(events, before.id.shape, similar)
    ensures var all, left := Open(events, before.id.shape, similar), Open(events[n..], before.id.shape, similar);
            && left != [] && |left| <= |all| && left == all[|all| - |left|..]
            && before.nFails == |all| && after.nFails == |left|
            && (before.id == after.id <==> all[0].ts == left[0].ts)
    ensures before.id != after.id ==> Announced([], [Some(before), Some(after)]) == [before.id, after.id]
  {
    var s := before.id.shape;
    var f := ReportedGroup(events, args, similar, before);
    var g := ReportedGroup(events[n..], args', similar, after);
    assert forall i :: 0 <= i < |events[n..]| ==> events[n..][i] == events[n + i];
    GroupIsOpen(events, s, f, similar);
    GroupIsOpen(events[n..], s, g, similar);
    OpenSuffix(events, n, s, similar);
    TwoAnnounced(before, after);
  }

  /** Failures of one shape make one group. */
  lemma {:induction false} OneShape(events: seq<Row>, similar: Similarity)
    requires Reflexive(similar) && events != []
    requires forall i :: 0 <= i < |events| ==> Failed(events[i]) && events[i].shape == events[0].shape
    ensures GroupsOf(events, similar) == [Group(events[0].shape, events)]
  {
    var init, row := events[..|events| - 1], events[|events| - 1];
    assert events == init + [row];
    if init == [] {
      assert GroupsOf(init, similar) == [] && events == [row];
    } else {
      OneShape(init, similar);
      var groups := GroupsOf(init, similar);
      assert FirstMatch(groups, row.shape, similar) == 0 by {
        assert similar(groups[0].shape, row.shape);
      }
    }
  }

  lemma OneShapeReports(events: seq<Row>, args: Args, similar: Similarity)
    requires Reflexive(similar) && events != [] && |events| >= args.minFails
    requires args.cmd.None? || similar(events[0].shape, args.cmd.value)
    requires forall i :: 0 <= i < |events| ==> Failed(events[i]) && events[i].shape == events[0].shape
    ensures Reports(events, args, similar, Some(EpisodeOf(Group(events[0].shape, events), args)))
  {
    OneShape(events, similar);
    GroupsWellGrouped(events, similar);
    assert IsChosen(GroupsOf(events, similar), 0, args, similar);
  }

  /** The simplest case: the window moves past the first of several failures of one command, and the saddle is
      announced a second time unless the next failure has the same time. */
  lemma SaddleRenamed(events: seq<Row>, args: Args, similar: Similarity)
    requires Reflexive(similar) && |events| > 1 && |events| > args.minFails && args.cmd.None?
    requires forall i :: 0 <= i < |events| ==> Failed(events[i]) && events[i].shape == events[0].shape
    ensures var before, after := EpisodeOf(Group(events[0].shape, events), args), EpisodeOf(Group(events[0].shape, events[1..]), args);
            && Reports(events, args, similar, Some(before)) && Reports(events[1..], args, similar, Some(after))
            && (before.id == after.id <==> events[0].ts == events[1].ts)
            && (events[0].ts != events[1].ts ==> Announced([], [Some(before), Some(after)]) == [before.id, after.id])
  {
    OneShapeReports(events, args, similar);
    OneShapeReports(events[1..], args, similar);
    var before, after := EpisodeOf(Group(events[0].shape, events), args), EpisodeOf(Group(events[0].shape, events[1..]), args);
    TwoAnnounced(before, after);
  }

  lemma TwoAnnounced(x: Episode, y: Episode)
    ensures x.id != y.id ==> Announced([], [Some(x), Some(y)]) == [x.id, y.id]
  {
    var both, one := [Some(x), Some(y)], [Some(x)];
    assert both[..1] == one && one[..0] == [];
    assert NotedAll([], one) == [x.id] && Announced([], one) == [x.id];
  }

  // ---------------------------------------------------------------------------
  // Nothing but retries
  // ---------------------------------------------------------------------------

  /** A retry that lands in the chosen group, not earlier than that group's last failure. */
  ghost predicate Retry(groups: seq<Group>, k: nat, row: Row, similar: Similarity)
    requires k < |groups| && groups[k].fails != []
  {
    Failed(row) && FirstMatch(groups, row.shape, similar) == k && LastTs(groups[k]) <= row.ts
  }

  /** `groups` after the failures `more`. */
  function AddFailures(groups: seq<Group>, more: seq<Row>, similar: Similarity): seq<Group>
  {
    if more == [] then groups
    else AddFailure(AddFailures(groups, more[..|more| - 1], similar), more[|more| - 1], similar)
  }

  /** Every row of `more`, in turn, is a retry of group `k`. */
  ghost predicate Retries(groups: seq<Group>, k: nat, more: seq<Row>, similar: Similarity)
  {
    more == []
    || var init, row := more[..|more| - 1], more[|more| - 1];
       var reached := AddFailures(groups, init, similar);
       && Retries(groups, k, init, similar)
       && k < |reached| && reached[k].fails != [] && Retry(reached, k, row, similar)
  }

  lemma RetryKeepsChoice(groups: seq<Group>, k: nat, row: Row, args: Args, similar: Similarity)
    requires WellGrouped(groups, similar) && Reflexive(similar)
    requires IsChosen(groups, k, args, similar) && Retry(groups, k, row, similar)
    ensures var groups' := AddFailure(groups, row, similar);
            && WellGrouped(groups', similar) && IsChosen(groups', k, args, similar)
            && EpisodeOf(groups'[k], args).id == EpisodeOf(groups[k], args).id
            && EpisodeOf(groups'[k], args).nFails == EpisodeOf(groups[k], args).nFails + 1
  {
    AbsorbWellGrouped(groups, row, similar);
    var groups' := AddFailure(groups, row, similar);
    assert forall i :: 0 <= i < |groups| && i != k ==> groups'[i] == groups[i];
  }

  predicate AllFailed(rows: seq<Row>)
  {
    forall i :: 0 <= i < |rows| ==> Failed(rows[i])
  }

  lemma {:induction false} GroupsOfFailures(events: seq<Row>, more: seq<Row>, similar: Similarity)
    requires AllFailed(more)
    ensures GroupsOf(events + more, similar) == AddFailures(GroupsOf(events, similar), more, similar)
  {
    if more == [] {
      assert events + more == events;
    } else {
      GroupsOfFailures(events, more[..|more| - 1], similar);
      GroupsOfSplit(events, more, similar);
    }
  }

  lemma {:induction false} RetriesFailed(groups: seq<Group>, k: nat, more: seq<Row>, similar: Similarity)
    requires Retries(groups, k, more, similar)
    ensures AllFailed(more)
  {
    if more != [] {
      RetriesFailed(groups, k, more[..|more| - 1], similar);
    }
  }

  lemma {:induction false} RetriesKeepChoice(groups: seq<Group>, more: seq<Row>, k: nat, args: Args, similar: Similarity)
    requires Reflexive(similar) && WellGrouped(groups, similar) && IsChosen(groups, k, args, similar)
    requires Retries(groups, k, more, similar)
    ensures var groups' := AddFailures(groups, more, similar);
            && WellGrouped(groups', similar) && IsChosen(groups', k, args, similar)
            && EpisodeOf(groups'[k], args).id == EpisodeOf(groups[k], args).id
            && EpisodeOf(groups'[k], args).nFails == EpisodeOf(groups[k], args).nFails + |more|
  {
    if more != [] {
      var init, row := more[..|more| - 1], more[|more| - 1];
      RetriesKeepChoice(groups, init, k, args, similar);
      RetryKeepsChoice(AddFailures(groups, init, similar), k, row, args, similar);
    }
  }

  /** Nothing but retries of the reported saddle, however many, leave it the reported one, under the same identity,
      with that many more failures. */
  lemma RetriesStayReported(events: seq<Row>, more: seq<Row>, k: nat, args: Args, similar: Similarity)
    requires Reflexive(similar)
    requires WellGrouped(GroupsOf(events, similar), similar) && IsChosen(GroupsOf(events, similar), k, args, similar)
    requires Retries(GroupsOf(events, similar), k, more, similar)
    ensures var groups, groups' := GroupsOf(events, similar), GroupsOf(events + more, similar);
            && WellGrouped(groups', similar) && IsChosen(groups', k, args, similar)
            && EpisodeOf(groups'[k], args).id == EpisodeOf(groups[k], args).id
            && EpisodeOf(groups'[k], args).nFails == EpisodeOf(groups[k], args).nFails + |more|
  {
    RetriesFailed(GroupsOf(events, similar), k, more, similar);
    GroupsOfFailures(events, more, similar);
    RetriesKeepChoice(GroupsOf(events, similar), more, k, args, similar);
  }
}
