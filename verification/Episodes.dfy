/** Saddle episodes over a session's whole history (chitta-mcp/saddle_detector.py,
    `find_episodes` and the totals of `report`). */
module Episodes {
  import opened Prelude
  import opened Saddle

  /** A ledger event of one session. */
  datatype Event = Bash(row: Row) | Injected(ids: seq<string>) | Other

  /** An episode by the positions of its events; the source reports `|fails|` as `n_fails`. */
  datatype Found = Found(fails: seq<nat>, escaped: bool, last: nat, injectedDuring: nat)

  predicate FailsAt(events: seq<Event>, i: nat)
  {
    i < |events| && events[i].Bash? && Failed(events[i].row)
  }

  predicate SucceedsAt(events: seq<Event>, i: nat)
  {
    i < |events| && events[i].Bash? && Succeeded(events[i].row)
  }

  /** The event at `i` is a command similar to the one at `anchor`. */
  predicate Like(events: seq<Event>, anchor: nat, i: nat, similar: Similarity)
  {
    && anchor < |events| && events[anchor].Bash?
    && i < |events| && events[i].Bash?
    && similar(events[anchor].row.shape, events[i].row.shape)
  }

  /** `bash` lists the positions of the shell commands of `events`, in order. */
  ghost predicate BashOf(events: seq<Event>, bash: seq<nat>)
  {
    && Increasing(bash)
    && (forall k :: 0 <= k < |bash| ==> bash[k] < |events|)
    && (forall i: nat :: i < |events| ==> (events[i].Bash? <==> i in bash))
  }

  /** The positions of the shell commands. */
  function Commands(events: seq<Event>): (bash: seq<nat>)
    ensures BashOf(events, bash)
  {
    if events == [] then []
    else
      var n := |events| - 1;
      Commands(events[..n]) + if events[n].Bash? then [n] else []
  }

  method BashPositions(events: seq<Event>) returns (bash: seq<nat>)
    ensures bash == Commands(events)
  {
    bash := [];
    for n := 0 to |events|
      invariant bash == Commands(events[..n])
    {
      assert events[..n + 1][..n] == events[..n];
      if events[n].Bash? {
        bash := bash + [n];
      }
    }
    assert events[..|events|] == events;
  }

  /** Whether the scan anchored at `bash[k]` must stop at position `p`: a command another episode owns, or
      a similar one that succeeded. */
  ghost predicate Stops(events: seq<Event>, bash: seq<nat>, k: nat, p: nat, used: set<nat>, similar: Similarity)
    requires k < |bash| && p < |bash|
  {
    bash[p] in used || (Like(events, bash[k], bash[p], similar) && SucceedsAt(events, bash[p]))
  }

  /** Where the Python slice `bash[k + 1 : k + 1 + window]` ends; a negative end counts from the end of the list,
      and a slice that would end before it starts is empty. */
  function WindowEnd(bash: seq<nat>, k: nat, window: int): (end: nat)
    requires k < |bash|
    ensures k < end <= |bash|
    ensures window >= 0 ==> end == if k + 1 + window < |bash| then k + 1 + window else |bash|
  {
    var stop := if k + 1 + window < 0 then k + 1 + window + |bash| else k + 1 + window;
    if stop <= k then k + 1 else if stop < |bash| then stop else |bash|
  }

  /** The scan anchored at `bash[k]` ends at `stop`: nothing stopped it before, and something or the window's
      end stopped it there. */
  ghost predicate IsStop(events: seq<Event>, bash: seq<nat>, k: nat, used: set<nat>, window: int, similar: Similarity,
                         stop: nat)
    requires k < |bash|
  {
    var end := WindowEnd(bash, k, window);
    && k < stop <= end
    && (forall p :: k < p < stop ==> !Stops(events, bash, k, p, used, similar))
    && (stop < end ==> Stops(events, bash, k, stop, used, similar))
  }

  /** Where the scan anchored at `bash[k]` ends, searched from `p` on. */
  ghost function StopFrom(events: seq<Event>, bash: seq<nat>, k: nat, used: set<nat>, window: int, similar: Similarity,
                          p: nat): (stop: nat)
    requires k < |bash| && k < p <= WindowEnd(bash, k, window)
    requires forall q :: k < q < p ==> !Stops(events, bash, k, q, used, similar)
    ensures IsStop(events, bash, k, used, window, similar, stop)
    decreases |bash| - p
  {
    if p == WindowEnd(bash, k, window) || Stops(events, bash, k, p, used, similar) then p
    else StopFrom(events, bash, k, used, window, similar, p + 1)
  }

  lemma StopUnique(events: seq<Event>, bash: seq<nat>, k: nat, used: set<nat>, window: int, similar: Similarity,
                   s: nat, t: nat)
    requires k < |bash|
    requires IsStop(events, bash, k, used, window, similar, s) && IsStop(events, bash, k, used, window, similar, t)
    ensures s == t
  {
  }

  ghost function StopOf(events: seq<Event>, bash: seq<nat>, k: nat, used: set<nat>, window: int, similar: Similarity)
      : (stop: nat)
    requires k < |bash|
    ensures IsStop(events, bash, k, used, window, similar, stop)
  {
    StopFrom(events, bash, k, used, window, similar, k + 1)
  }

  /** `fails` are, in order, the anchor `bash[k]` and the similar failures between it and `stop`. */
  ghost predicate IsLikeFails(events: seq<Event>, bash: seq<nat>, k: nat, stop: nat, similar: Similarity, fails: seq<nat>)
    requires k < stop <= |bash|
  {
    && fails != [] && fails[0] == bash[k] && Increasing(fails)
    && (forall p :: k < p < stop ==> (bash[p] in fails <==> Like(events, bash[k], bash[p], similar) && FailsAt(events, bash[p])))
    && (forall i :: i in fails ==> exists p :: k <= p < stop && bash[p] == i)
  }

  function LikeFails(events: seq<Event>, bash: seq<nat>, k: nat, stop: nat, similar: Similarity): seq<nat>
    requires k < stop <= |bash|
  {
    if stop == k + 1 then [bash[k]]
    else
      LikeFails(events, bash, k, stop - 1, similar)
      + if Like(events, bash[k], bash[stop - 1], similar) && FailsAt(events, bash[stop - 1]) then [bash[stop - 1]] else []
  }

  lemma {:induction false} LikeFailsOrdered(events: seq<Event>, bash: seq<nat>, k: nat, stop: nat, similar: Similarity)
    requires k < stop <= |bash| && Increasing(bash)
    ensures var fails := LikeFails(events, bash, k, stop, similar);
            && fails != [] && fails[0] == bash[k] && Increasing(fails)
            && forall x :: 0 <= x < |fails| ==> fails[x] <= bash[stop - 1]
  {
    if stop > k + 1 {
      LikeFailsOrdered(events, bash, k, stop - 1, similar);
      assert bash[stop - 2] < bash[stop - 1];
    }
  }

  lemma {:induction false} LikeFailsExact(events: seq<Event>, bash: seq<nat>, k: nat, stop: nat, similar: Similarity)
    requires k < stop <= |bash| && Increasing(bash)
    ensures IsLikeFails(events, bash, k, stop, similar, LikeFails(events, bash, k, stop, similar))
  {
    LikeFailsOrdered(events, bash, k, stop, similar);
    if stop > k + 1 {
      LikeFailsExact(events, bash, k, stop - 1, similar);
      var before, last := LikeFails(events, bash, k, stop - 1, similar), bash[stop - 1];
      assert forall i :: i in before ==> i != last;
      assert forall i :: i in LikeFails(events, bash, k, stop, similar) ==> i in before || i == last;
    }
  }

  /** The latest command before `stop` that is similar to the anchor, or the anchor itself. */
  function LastLike(events: seq<Event>, bash: seq<nat>, k: nat, stop: nat, similar: Similarity): (last: nat)
    requires k < stop <= |bash| && Increasing(bash)
    ensures bash[k] <= last <= bash[stop - 1]
    ensures last == bash[k] || Like(events, bash[k], last, similar)
    ensures forall q :: k < q < stop && Like(events, bash[k], bash[q], similar) ==> bash[q] <= last
  {
    if stop == k + 1 then bash[k]
    else if Like(events, bash[k], bash[stop - 1], similar) then bash[stop - 1]
    else LastLike(events, bash, k, stop - 1, similar)
  }

  /** What the scan anchored at `bash[k]` finds when it ends at `stop`: it escaped if a similar success, and not
      a command of another episode, ended it. */
  function FoundAt(events: seq<Event>, bash: seq<nat>, k: nat, used: set<nat>, window: int, similar: Similarity,
                   stop: nat): Found
    requires k < |bash| && k < stop <= WindowEnd(bash, k, window) && Increasing(bash)
    requires forall p :: 0 <= p < |bash| ==> bash[p] < |events|
  {
    var escaped := stop < WindowEnd(bash, k, window) && bash[stop] !in used;
    var last := if escaped then bash[stop] else LastLike(events, bash, k, stop, similar);
    Found(LikeFails(events, bash, k, stop, similar), escaped, last, CountInjected(events[bash[k]..last + 1]))
  }

  /** The inner loop of `find_episodes` before position `p`. */
  ghost predicate Scanning(events: seq<Event>, bash: seq<nat>, k: nat, used: set<nat>, similar: Similarity,
                           p: nat, fails: seq<nat>, last: nat)
    requires k < p <= |bash| && Increasing(bash)
  {
    && (forall q :: k < q < p ==> !Stops(events, bash, k, q, used, similar))
    && fails == LikeFails(events, bash, k, p, similar) && last == LastLike(events, bash, k, p, similar)
  }

  /** A command that does not stop the scan moves it on. */
  lemma ScanStep(events: seq<Event>, bash: seq<nat>, k: nat, used: set<nat>, similar: Similarity, p: nat,
                 fails: seq<nat>, last: nat)
    requires k < p < |bash| && Increasing(bash) && Scanning(events, bash, k, used, similar, p, fails, last)
    requires !Stops(events, bash, k, p, used, similar)
    ensures var like := Like(events, bash[k], bash[p], similar);
            Scanning(events, bash, k, used, similar, p + 1, if like && FailsAt(events, bash[p]) then fails + [bash[p]] else fails,
                     if like then bash[p] else last)
  {
  }

  /** Where the loop is left is where the scan ends. */
  lemma ScanEnds(events: seq<Event>, bash: seq<nat>, k: nat, used: set<nat>, window: int, similar: Similarity, p: nat)
    requires k < |bash| && k < p <= WindowEnd(bash, k, window)
    requires forall q :: k < q < p ==> !Stops(events, bash, k, q, used, similar)
    requires p < WindowEnd(bash, k, window) ==> Stops(events, bash, k, p, used, similar)
    ensures p == StopOf(events, bash, k, used, window, similar)
  {
    StopUnique(events, bash, k, used, window, similar, p, StopOf(events, bash, k, used, window, similar));
  }

  /** The inner loop of `find_episodes`. */
  method Scan(events: seq<Event>, bash: seq<nat>, k: nat, used: set<nat>, window: int, similar: Similarity)
    returns (fails: seq<nat>, escaped: bool, last: nat)
    requires BashOf(events, bash) && k < |bash|
    ensures var stop := StopOf(events, bash, k, used, window, similar);
            && fails == LikeFails(events, bash, k, stop, similar)
            && (escaped <==> stop < WindowEnd(bash, k, window) && bash[stop] !in used)
            && last == if escaped then bash[stop] else LastLike(events, bash, k, stop, similar)
  {
    var end := WindowEnd(bash, k, window);
    fails, escaped, last := [bash[k]], false, bash[k];
    var p := k + 1;
    while p < end
      invariant k < p <= end && !escaped
      invariant Scanning(events, bash, k, used, similar, p, fails, last)
    {
      var i := bash[p];
      if i in used {
        break;
      }
      var like := Like(events, bash[k], i, similar);
      if like && SucceedsAt(events, i) {
        last, escaped := i, true;
        break;
      }
      ScanStep(events, bash, k, used, similar, p, fails, last);
      if like {
        last := i;
        if FailsAt(events, i) {
          fails := fails + [i];
        }
      }
      p := p + 1;
    }
    ScanEnds(events, bash, k, used, window, similar, p);
  }

  // ---------------------------------------------------------------------------
  // All episodes
  // ---------------------------------------------------------------------------

  /** Enough failures, in order, all failing commands similar to the first and at most `window` commands
      after it. */
  ghost predicate Sound(events: seq<Event>, bash: seq<nat>, e: Found, minFails: int, window: int, similar: Similarity)
  {
    && e.fails != [] && |e.fails| >= minFails && Increasing(e.fails)
    && (forall i :: i in e.fails ==> FailsAt(events, i) && Like(events, e.fails[0], i, similar))
    && (exists k :: 0 <= k < |bash| && bash[k] == e.fails[0]
          && forall i :: i in e.fails ==> Near(bash, k, window, i))
    && e.fails[0] <= e.last < |events| && e.injectedDuring == CountInjected(events[e.fails[0]..e.last + 1])
  }

  /** Event `i` is one of the `window` commands that follow position `k`, or that one itself. */
  ghost predicate Near(bash: seq<nat>, k: nat, window: int, i: nat)
    requires k < |bash|
  {
    exists p :: k <= p < WindowEnd(bash, k, window) && bash[p] == i && (window >= 0 ==> p <= k + window)
  }

  function CountInjected(events: seq<Event>): nat
  {
    if events == [] then 0
    else CountInjected(events[..|events| - 1]) + if events[|events| - 1].Injected? then 1 else 0
  }

  ghost function Owned(episodes: seq<Found>): set<nat>
  {
    if episodes == [] then {} else Owned(episodes[..|episodes| - 1]) + Elements(episodes[|episodes| - 1].fails)
  }

  function TotalFails(episodes: seq<Found>): nat
  {
    if episodes == [] then 0 else TotalFails(episodes[..|episodes| - 1]) + |episodes[|episodes| - 1].fails|
  }

  /** No failure belongs to two episodes. */
  ghost predicate Disjoint(episodes: seq<Found>)
  {
    forall a, b :: 0 <= a < b < |episodes| ==> Elements(episodes[a].fails) !! Elements(episodes[b].fails)
  }

  lemma {:induction false} OwnedContains(episodes: seq<Found>, a: nat)
    requires a < |episodes|
    ensures Elements(episodes[a].fails) <= Owned(episodes)
  {
    if a < |episodes| - 1 {
      OwnedContains(episodes[..|episodes| - 1], a);
    }
  }

  lemma ScannedAt(events: seq<Event>, bash: seq<nat>, k: nat, used: set<nat>, window: int, similar: Similarity,
                  stop: nat, i: nat)
    requires Reflexive(similar) && BashOf(events, bash) && k < |bash| && FailsAt(events, bash[k]) && bash[k] !in used
    requires IsStop(events, bash, k, used, window, similar, stop) && i in LikeFails(events, bash, k, stop, similar)
    ensures FailsAt(events, i) && Like(events, bash[k], i, similar) && i !in used
    ensures Near(bash, k, window, i)
  {
    LikeFailsExact(events, bash, k, stop, similar);
    var p :| k <= p < stop && bash[p] == i;
    if p > k {
      assert !Stops(events, bash, k, p, used, similar);
    }
  }

  /** A finished scan with enough failures is a sound episode of events no other episode owns. */
  lemma ScannedSound(events: seq<Event>, bash: seq<nat>, k: nat, used: set<nat>, minFails: int, window: int,
                     similar: Similarity, stop: nat)
    requires Reflexive(similar) && BashOf(events, bash) && k < |bash| && FailsAt(events, bash[k]) && bash[k] !in used
    requires IsStop(events, bash, k, used, window, similar, stop)
    requires |LikeFails(events, bash, k, stop, similar)| >= minFails
    ensures var e := FoundAt(events, bash, k, used, window, similar, stop);
            Sound(events, bash, e, minFails, window, similar) && Elements(e.fails) !! used && e.fails[0] == bash[k]
  {
    var e := FoundAt(events, bash, k, used, window, similar, stop);
    LikeFailsOrdered(events, bash, k, stop, similar);
    forall i | i in e.fails
      ensures FailsAt(events, i) && Like(events, bash[k], i, similar) && i !in used && Near(bash, k, window, i)
    {
      ScannedAt(events, bash, k, used, window, similar, stop, i);
    }
    assert bash[k] == e.fails[0] && forall i :: i in e.fails ==> Near(bash, k, window, i);
  }

  // ---------------------------------------------------------------------------
  // Which episodes, exactly
  // ---------------------------------------------------------------------------

  /** The episode that command `k` opens while `used` belongs to earlier ones: none if it is used itself or did
      not fail, or if its scan finds too few failures. */
  ghost function Turn(events: seq<Event>, bash: seq<nat>, k: nat, used: set<nat>, minFails: int, window: int,
                      similar: Similarity): Option<Found>
    requires BashOf(events, bash) && k < |bash|
  {
    var stop := StopOf(events, bash, k, used, window, similar);
    if bash[k] in used || !FailsAt(events, bash[k]) || |LikeFails(events, bash, k, stop, similar)| < minFails then None
    else Some(FoundAt(events, bash, k, used, window, similar, stop))
  }

  /** What a command opens, given the failures that earlier episodes own. */
  type Turns = (nat, set<nat>) -> Option<Found>

  ghost function TurnsOf(events: seq<Event>, minFails: int, window: int, similar: Similarity): Turns
  {
    (k: nat, used: set<nat>) =>
      if k < |Commands(events)| then Turn(events, Commands(events), k, used, minFails, window, similar) else None
  }

  /** The episodes that the first `n` commands open in turn, each with the failures of the earlier episodes out
      of reach. */
  ghost function InTurn(n: nat, turn: Turns): seq<Found>
  {
    if n == 0 then []
    else
      var before := InTurn(n - 1, turn);
      var r := turn(n - 1, Owned(before));
      if r.Some? then before + [r.value] else before
  }

  /** All episodes of a session. */
  ghost function EpisodesOf(events: seq<Event>, minFails: int, window: int, similar: Similarity): seq<Found>
  {
    InTurn(|Commands(events)|, TurnsOf(events, minFails, window, similar))
  }

  lemma OwnedGrows(episodes: seq<Found>, e: Found)
    ensures Owned(episodes + [e]) == Owned(episodes) + Elements(e.fails)
    ensures TotalFails(episodes + [e]) == TotalFails(episodes) + |e.fails|
  {
    assert (episodes + [e])[..|episodes|] == episodes;
  }

  /** Later turns take nothing back. */
  lemma {:induction false} InTurnGrows(k: nat, n: nat, turn: Turns)
    requires k <= n
    ensures Owned(InTurn(k, turn)) <= Owned(InTurn(n, turn))
  {
    if k < n {
      InTurnGrows(k, n - 1, turn);
      var before := InTurn(n - 1, turn);
      var r := turn(n - 1, Owned(before));
      if r.Some? {
        OwnedGrows(before, r.value);
      }
    }
  }

  /** If the episode a command opens would hold `i`, and no episode holds it in the end, the command opened none. */
  lemma InTurnMissed(k: nat, n: nat, turn: Turns, i: nat)
    requires k < n && i !in Owned(InTurn(n, turn))
    requires var r := turn(k, Owned(InTurn(k, turn))); r.Some? ==> i in Elements(r.value.fails)
    ensures turn(k, Owned(InTurn(k, turn))) == None && i !in Owned(InTurn(k, turn))
  {
    InTurnGrows(k, n, turn);
    InTurnGrows(k + 1, n, turn);
    var before := InTurn(k, turn);
    var r := turn(k, Owned(before));
    if r.Some? {
      OwnedGrows(before, r.value);
    }
  }

  /** An episode holds the command that opened it. */
  lemma TurnAnchors(events: seq<Event>, bash: seq<nat>, k: nat, used: set<nat>, minFails: int, window: int,
                    similar: Similarity)
    requires BashOf(events, bash) && k < |bash|
    ensures var r := Turn(events, bash, k, used, minFails, window, similar);
            r.Some? ==> bash[k] in Elements(r.value.fails)
  {
    LikeFailsOrdered(events, bash, k, StopOf(events, bash, k, used, window, similar), similar);
  }

  /** The failures that belong to episodes before command `k` has its turn. */
  ghost function OwnedBefore(events: seq<Event>, k: nat, minFails: int, window: int, similar: Similarity): set<nat>
  {
    Owned(InTurn(k, TurnsOf(events, minFails, window, similar)))
  }

  /** No saddle is missed: a failing command that ended up in no episode had, before the end of its scan, fewer
      than `minFails` similar failures that earlier episodes had left over. */
  lemma MissedFailure(events: seq<Event>, minFails: int, window: int, similar: Similarity, k: nat)
    requires k < |Commands(events)| && FailsAt(events, Commands(events)[k])
    requires Commands(events)[k] !in Owned(EpisodesOf(events, minFails, window, similar))
    ensures var bash, used := Commands(events), OwnedBefore(events, k, minFails, window, similar);
            |LikeFails(events, bash, k, StopOf(events, bash, k, used, window, similar), similar)| < minFails
  {
    var bash, turn := Commands(events), TurnsOf(events, minFails, window, similar);
    var used := Owned(InTurn(k, turn));
    assert turn(k, used) == Turn(events, bash, k, used, minFails, window, similar);
    TurnAnchors(events, bash, k, used, minFails, window, similar);
    InTurnMissed(k, |bash|, turn, bash[k]);
  }

  /** With a threshold of one every failure is inside an episode. */
  lemma AllOwned(events: seq<Event>, minFails: int, window: int, similar: Similarity, i: nat)
    requires minFails <= 1 && FailsAt(events, i)
    ensures i in Owned(EpisodesOf(events, minFails, window, similar))
  {
    var bash := Commands(events);
    var k :| 0 <= k < |bash| && bash[k] == i;
    if i !in Owned(EpisodesOf(events, minFails, window, similar)) {
      MissedFailure(events, minFails, window, similar, k);
      var used := OwnedBefore(events, k, minFails, window, similar);
      LikeFailsOrdered(events, bash, k, StopOf(events, bash, k, used, window, similar), similar);
    }
  }

  ghost function SoundIn(events: seq<Event>, minFails: int, window: int, similar: Similarity): Found -> bool
  {
    (e: Found) => Sound(events, Commands(events), e, minFails, window, similar)
  }

  /** Sound episodes that share no failure. */
  ghost predicate Collected(episodes: seq<Found>, sound: Found -> bool)
  {
    && (forall a :: 0 <= a < |episodes| ==> sound(episodes[a]))
    && Disjoint(episodes)
    && TotalFails(episodes) == |Owned(episodes)|
  }

  lemma OwnedSnoc(episodes: seq<Found>, e: Found)
    requires Increasing(e.fails) && Elements(e.fails) !! Owned(episodes)
    ensures Owned(episodes + [e]) == Owned(episodes) + Elements(e.fails)
    ensures |Owned(episodes + [e])| == |Owned(episodes)| + |e.fails|
    ensures TotalFails(episodes + [e]) == TotalFails(episodes) + |e.fails|
  {
    OwnedGrows(episodes, e);
    assert Distinct(e.fails);
    ElementsSize(e.fails);
  }

  lemma DisjointSnoc(episodes: seq<Found>, e: Found)
    requires Disjoint(episodes) && Elements(e.fails) !! Owned(episodes)
    ensures Disjoint(episodes + [e])
  {
    forall a | 0 <= a < |episodes| ensures Elements(episodes[a].fails) !! Elements(e.fails) {
      OwnedContains(episodes, a);
    }
  }

  lemma AddEpisode(episodes: seq<Found>, e: Found, sound: Found -> bool)
    requires Collected(episodes, sound) && sound(e)
    requires Increasing(e.fails) && Elements(e.fails) !! Owned(episodes)
    ensures Collected(episodes + [e], sound)
  {
    OwnedSnoc(episodes, e);
    DisjointSnoc(episodes, e);
  }

  /** Whatever a command opens is sound and takes nothing from earlier episodes. */
  ghost predicate SoundTurns(turn: Turns, n: nat, sound: Found -> bool)
  {
    forall k, used :: 0 <= k < n && turn(k, used).Some? ==>
      var e := turn(k, used).value; sound(e) && Increasing(e.fails) && Elements(e.fails) !! used
  }

  lemma {:induction false} InTurnCollected(n: nat, turn: Turns, sound: Found -> bool)
    requires SoundTurns(turn, n, sound)
    ensures Collected(InTurn(n, turn), sound)
  {
    if n > 0 {
      InTurnCollected(n - 1, turn, sound);
      var before := InTurn(n - 1, turn);
      var r := turn(n - 1, Owned(before));
      if r.Some? {
        AddEpisode(before, r.value, sound);
      }
    }
  }

  /** The episodes of a session are sound and share no failure. */
  lemma EpisodesCollected(events: seq<Event>, minFails: int, window: int, similar: Similarity)
    requires Reflexive(similar)
    ensures Collected(EpisodesOf(events, minFails, window, similar), SoundIn(events, minFails, window, similar))
  {
    var bash, turn, sound := Commands(events), TurnsOf(events, minFails, window, similar), SoundIn(events, minFails, window, similar);
    forall k, used | 0 <= k < |bash| && turn(k, used).Some?
      ensures var e := turn(k, used).value; sound(e) && Increasing(e.fails) && Elements(e.fails) !! used
    {
      TurnSound(events, bash, k, used, minFails, window, similar);
    }
    InTurnCollected(|bash|, turn, sound);
  }

  /** Every failure an episode owns is a failing command. */
  lemma OwnedFail(events: seq<Event>, minFails: int, window: int, similar: Similarity, episodes: seq<Found>, i: nat)
    requires forall a :: 0 <= a < |episodes| ==> SoundIn(events, minFails, window, similar)(episodes[a])
    requires i in Owned(episodes)
    ensures FailsAt(events, i)
  {
    var a := OwnedBy(episodes, i);
    assert SoundIn(events, minFails, window, similar)(episodes[a]);
  }

  lemma {:induction false} OwnedBy(episodes: seq<Found>, i: nat) returns (a: nat)
    requires i in Owned(episodes)
    ensures a < |episodes| && i in episodes[a].fails
  {
    a := |episodes| - 1;
    if i !in Elements(episodes[a].fails) {
      a := OwnedBy(episodes[..a], i);
    }
  }

  lemma TurnSound(events: seq<Event>, bash: seq<nat>, k: nat, used: set<nat>, minFails: int, window: int,
                  similar: Similarity)
    requires Reflexive(similar) && BashOf(events, bash) && k < |bash|
    requires Turn(events, bash, k, used, minFails, window, similar).Some?
    ensures var e := Turn(events, bash, k, used, minFails, window, similar).value;
            Sound(events, bash, e, minFails, window, similar) && Elements(e.fails) !! used
  {
    ScannedSound(events, bash, k, used, minFails, window, similar, StopOf(events, bash, k, used, window, similar));
  }

  /** One turn of the outer loop: the episode anchored at `bash[k]`, if it qualifies. */
  method EpisodeAt(events: seq<Event>, bash: seq<nat>, k: nat, used: set<nat>, minFails: int, window: int,
                   similar: Similarity) returns (r: Option<Found>)
    requires BashOf(events, bash) && k < |bash|
    ensures r == Turn(events, bash, k, used, minFails, window, similar)
  {
    if bash[k] in used || !FailsAt(events, bash[k]) {
      return None;
    }
    var fails, escaped, last := Scan(events, bash, k, used, window, similar);
    if |fails| < minFails {
      return None;
    }
    LikeFailsOrdered(events, bash, k, StopOf(events, bash, k, used, window, similar), similar);
    return Some(Found(fails, escaped, last, CountInjected(events[fails[0]..last + 1])));
  }

  method TakeTurn(events: seq<Event>, bash: seq<nat>, k: nat, used: set<nat>, minFails: int, window: int,
                  similar: Similarity) returns (r: Option<Found>)
    requires bash == Commands(events) && k < |bash|
    ensures r == TurnsOf(events, minFails, window, similar)(k, used)
  {
    r := EpisodeAt(events, bash, k, used, minFails, window, similar);
  }

  /** `find_episodes` */
  method FindEpisodes(events: seq<Event>, minFails: int, window: int, similar: Similarity) returns (episodes: seq<Found>)
    ensures episodes == EpisodesOf(events, minFails, window, similar)
  {
    var bash := BashPositions(events);
    ghost var turn := TurnsOf(events, minFails, window, similar);
    episodes := [];
    var used: set<nat> := {};
    for k := 0 to |bash|
      invariant episodes == InTurn(k, turn) && used == Owned(episodes)
    {
      var e := TakeTurn(events, bash, k, used, minFails, window, similar);
      if e.Some? {
        OwnedGrows(episodes, e.value);
        episodes, used := episodes + [e.value], used + Elements(e.value.fails);
      }
    }
  }

  // ---------------------------------------------------------------------------
  // The report's totals
  // ---------------------------------------------------------------------------

  function CountFails(events: seq<Event>): nat
  {
    if events == [] then 0
    else CountFails(events[..|events| - 1]) + if FailsAt(events, |events| - 1) then 1 else 0
  }

  lemma {:induction false} FailSetSize(events: seq<Event>, owned: set<nat>)
    requires forall i :: i in owned ==> FailsAt(events, i)
    ensures |owned| <= CountFails(events)
  {
    if events == [] {
      assert owned == {};
    } else {
      var n := |events| - 1;
      var rest := owned - {n};
      forall i | i in rest ensures FailsAt(events[..n], i) {}
      FailSetSize(events[..n], rest);
      assert n in owned ==> owned == rest + {n};
      assert n !in owned ==> owned == rest;
    }
  }

  /** If the failures are all in `owned`, they are exactly as many. */
  lemma {:induction false} FailSetFull(events: seq<Event>, owned: set<nat>)
    requires forall i :: FailsAt(events, i) ==> i in owned
    ensures CountFails(events) <= |owned|
  {
    if events != [] {
      var n := |events| - 1;
      var rest := if FailsAt(events, n) then owned - {n} else owned;
      forall i | FailsAt(events[..n], i) ensures i in rest {
        assert FailsAt(events, i);
      }
      FailSetFull(events[..n], rest);
    }
  }

  datatype Totals = Totals(bash: nat, fails: nat, failsInside: nat, sessionsWith: nat, episodes: nat, escaped: nat,
                           injected: nat, escapedInjected: nat, escapedAlone: nat)

  function NoTotals(): Totals
  {
    Totals(0, 0, 0, 0, 0, 0, 0, 0, 0)
  }

  function CountIf(episodes: seq<Found>, counts: Found -> bool): nat
  {
    if episodes == [] then 0
    else CountIf(episodes[..|episodes| - 1], counts) + if counts(episodes[|episodes| - 1]) then 1 else 0
  }

  function Escaped(): Found -> bool
  {
    (e: Found) => e.escaped
  }

  function WithInjection(): Found -> bool
  {
    (e: Found) => e.injectedDuring > 0
  }

  function Both(p: Found -> bool, q: Found -> bool): Found -> bool
  {
    (e: Found) => p(e) && q(e)
  }

  function Only(p: Found -> bool, q: Found -> bool): Found -> bool
  {
    (e: Found) => p(e) && !q(e)
  }

  lemma {:induction false} CountIfSplits(episodes: seq<Found>, p: Found -> bool, q: Found -> bool)
    ensures CountIf(episodes, p) <= |episodes| && CountIf(episodes, q) <= |episodes|
    ensures CountIf(episodes, p) == CountIf(episodes, Both(p, q)) + CountIf(episodes, Only(p, q))
    ensures CountIf(episodes, Both(p, q)) <= CountIf(episodes, q)
  {
    if episodes != [] {
      CountIfSplits(episodes[..|episodes| - 1], p, q);
    }
  }

  lemma {:induction false} BashSize(events: seq<Event>, bash: seq<nat>)
    requires BashOf(events, bash)
    ensures CountFails(events) <= |bash|
  {
    if events != [] {
      var n := |events| - 1;
      if events[n].Bash? {
        assert n in bash;
        var k :| 0 <= k < |bash| && bash[k] == n;
        assert k == |bash| - 1 by { assert bash[|bash| - 1] <= n; }
        assert bash == bash[..k] + [n];
        BashSize(events[..n], bash[..k]);
      } else {
        BashSize(events[..n], bash);
      }
    }
  }

  function Sum(a: Totals, b: Totals): Totals
  {
    Totals(a.bash + b.bash, a.fails + b.fails, a.failsInside + b.failsInside, a.sessionsWith + b.sessionsWith,
           a.episodes + b.episodes, a.escaped + b.escaped, a.injected + b.injected,
           a.escapedInjected + b.escapedInjected, a.escapedAlone + b.escapedAlone)
  }

  /** What bounds what in a report over `n` sessions; with a threshold of one the episodes hold every failure. */
  predicate Consistent(t: Totals, n: nat, minFails: int)
  {
    && t.failsInside <= t.fails <= t.bash
    && (minFails <= 1 ==> t.failsInside == t.fails)
    && minFails * t.episodes <= t.failsInside
    && t.escaped <= t.episodes && t.sessionsWith <= t.episodes && t.sessionsWith <= n
    && t.escaped == t.escapedInjected + t.escapedAlone && t.escapedInjected <= t.injected <= t.episodes
  }

  /** The contribution of one session whose episodes are `found`. */
  function TotalsOf(events: seq<Event>, found: seq<Found>): Totals
  {
    Totals(|Commands(events)|, CountFails(events), TotalFails(found), if found != [] then 1 else 0, |found|,
           CountIf(found, Escaped()), CountIf(found, WithInjection()),
           CountIf(found, Both(Escaped(), WithInjection())), CountIf(found, Only(Escaped(), WithInjection())))
  }

  lemma {:induction false} FailsPerEpisode(found: seq<Found>, minFails: int)
    requires forall a :: 0 <= a < |found| ==> |found[a].fails| >= minFails
    ensures minFails * |found| <= TotalFails(found)
  {
    if found != [] {
      var n := |found| - 1;
      FailsPerEpisode(found[..n], minFails);
      assert minFails * |found| == minFails * n + minFails;
    }
  }

  /** The failures inside episodes are at most all failures, and all of them for a threshold of one. */
  lemma InsideBounded(events: seq<Event>, minFails: int, window: int, similar: Similarity)
    requires Reflexive(similar)
    ensures TotalFails(EpisodesOf(events, minFails, window, similar)) <= CountFails(events)
    ensures minFails <= 1 ==> TotalFails(EpisodesOf(events, minFails, window, similar)) == CountFails(events)
  {
    var found := EpisodesOf(events, minFails, window, similar);
    EpisodesCollected(events, minFails, window, similar);
    forall i | i in Owned(found) ensures FailsAt(events, i) {
      OwnedFail(events, minFails, window, similar, found, i);
    }
    FailSetSize(events, Owned(found));
    if minFails <= 1 {
      forall i | FailsAt(events, i) ensures i in Owned(found) {
        AllOwned(events, minFails, window, similar, i);
      }
      FailSetFull(events, Owned(found));
    }
  }

  lemma TotalsConsistent(events: seq<Event>, minFails: int, window: int, similar: Similarity)
    requires Reflexive(similar)
    ensures Consistent(TotalsOf(events, EpisodesOf(events, minFails, window, similar)), 1, minFails)
  {
    var found := EpisodesOf(events, minFails, window, similar);
    InsideBounded(events, minFails, window, similar);
    BashSize(events, Commands(events));
    assert minFails * |found| <= TotalFails(found) by {
      EpisodesCollected(events, minFails, window, similar);
      forall a | 0 <= a < |found| ensures |found[a].fails| >= minFails {
        assert SoundIn(events, minFails, window, similar)(found[a]);
      }
      FailsPerEpisode(found, minFails);
    }
    CountIfSplits(found, Escaped(), WithInjection());
  }

  lemma SumConsistent(a: Totals, b: Totals, n: nat, minFails: int)
    requires Consistent(a, n, minFails) && Consistent(b, 1, minFails)
    ensures Consistent(Sum(a, b), n + 1, minFails)
  {
    assert minFails * (a.episodes + b.episodes) == minFails * a.episodes + minFails * b.episodes;
  }

  /** The totals over all sessions. */
  ghost function Reported(sessions: seq<seq<Event>>, minFails: int, window: int, similar: Similarity): Totals
  {
    if sessions == [] then NoTotals()
    else
      var n := |sessions| - 1;
      Sum(Reported(sessions[..n], minFails, window, similar),
          TotalsOf(sessions[n], EpisodesOf(sessions[n], minFails, window, similar)))
  }

  method SessionTotals(events: seq<Event>, minFails: int, window: int, similar: Similarity) returns (t: Totals)
    ensures t == TotalsOf(events, EpisodesOf(events, minFails, window, similar))
  {
    var found := FindEpisodes(events, minFails, window, similar);
    t := TotalsOf(events, found);
  }

  /** The totals of `report` add up the episodes of all sessions. */
  method Report(sessions: seq<seq<Event>>, minFails: int, window: int, similar: Similarity) returns (t: Totals)
    ensures t == Reported(sessions, minFails, window, similar)
    ensures Reflexive(similar) ==> Consistent(t, |sessions|, minFails)
  {
    t := NoTotals();
    for n := 0 to |sessions|
      invariant t == Reported(sessions[..n], minFails, window, similar)
    {
      assert sessions[..n + 1][..n] == sessions[..n];
      var more := SessionTotals(sessions[n], minFails, window, similar);
      t := Sum(t, more);
    }
    assert sessions[..|sessions|] == sessions;
    if Reflexive(similar) {
      ReportConsistent(sessions, minFails, window, similar);
    }
  }

  /** In every report failures inside episodes never exceed all failures, nor escapes the episodes. */
  lemma {:induction false} ReportConsistent(sessions: seq<seq<Event>>, minFails: int, window: int, similar: Similarity)
    requires Reflexive(similar)
    ensures Consistent(Reported(sessions, minFails, window, similar), |sessions|, minFails)
  {
    if sessions != [] {
      var n := |sessions| - 1;
      var last := TotalsOf(sessions[n], EpisodesOf(sessions[n], minFails, window, similar));
      ReportConsistent(sessions[..n], minFails, window, similar);
      TotalsConsistent(sessions[n], minFails, window, similar);
      SumConsistent(Reported(sessions[..n], minFails, window, similar), last, n, minFails);
    }
  }
}
