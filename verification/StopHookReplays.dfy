/** Commits of the Stop hook that are not in turn, and what committing in turn counts twice
    (hooks/stop-transcript-snapshot.py). */
module StopHookReplays {
  import opened Prelude
  import opened TranscriptWindow
  import opened StopHook
  import opened StopHookRuns

  // ---------------------------------------------------------------------------
  // At least once
  // ---------------------------------------------------------------------------

  /** The snapshot a commit persists lost nothing to the bounds, whatever cursor it was built from. */
  ghost predicate Lossless(w: World, e: Event)
    requires Known(w) && Possible(w, e)
  {
    CommittedBy(w, e).Some?
    ==> var s := CommittedBy(w, e).value; s.window.Dropped() == 0 && (s.base.None? ==> s.window.origin == 0)
  }

  /** The transcript is only appended to, and no committed snapshot lost anything. Commits come in any order and any
      number of times, and the cursor may be lost. */
  ghost predicate AnyOrder(w: World, events: seq<Event>, parse: Parser)
    requires Known(w) && Legal(w, events, parse)
  {
    events == []
    || var init, e := events[..|events| - 1], events[|events| - 1];
       AnyOrder(w, init, parse) && !e.Replace? && Lossless(After(w, init, parse), e)
  }

  /** Every byte of `from..to` is in some window. */
  ghost predicate Covered(windows: seq<Window>, from: nat, to: nat)
  {
    forall i :: from <= i < to ==> InSome(windows, i)
  }

  ghost predicate InSome(windows: seq<Window>, i: nat)
  {
    exists k :: 0 <= k < |windows| && windows[k].start <= i < windows[k].next
  }

  /** The snapshot goes on from a boundary below which everything since `from` is in the windows. */
  ghost predicate Grounded(m: World, s: Snapshot, windows: seq<Window>, from: nat)
    requires Known(m)
  {
    s.nextState.Some? ==>
      && s.inode == m.inode && AtBoundary(m.files[m.inode], OffsetFrom(s.base))
      && Covered(windows, from, OffsetFrom(s.base))
  }

  /** Below the cursor, and below the cursor of every snapshot, everything since `from` is in the windows. */
  ghost predicate Replayed(m: World, windows: seq<Window>, from: nat)
  {
    && Known(m) && Anchored(m) && Covered(windows, from, OffsetFrom(m.cursor))
    && forall i :: 0 <= i < |m.taken| ==> Grounded(m, m.taken[i], windows, from)
  }

  lemma CoveredMore(windows: seq<Window>, w: Window, from: nat, to: nat)
    requires Covered(windows, from, to)
    ensures Covered(windows + [w], from, to)
    ensures w.start <= to ==> Covered(windows + [w], from, w.next)
  {
    var all := windows + [w];
    forall i: nat | InSome(windows, i) ensures InSome(all, i) {
      var k :| 0 <= k < |windows| && windows[k].start <= i < windows[k].next;
      assert all[k] == windows[k];
    }
    forall i: nat | w.start <= i < w.next ensures InSome(all, i) {
      assert all[|windows|] == w;
    }
  }

  lemma GroundedKeeps(m: World, m': World, s: Snapshot, windows: seq<Window>, from: nat)
    requires Known(m) && Known(m') && m'.inode == m.inode && m.files[m.inode] <= m'.files[m'.inode]
    requires Grounded(m, s, windows, from)
    ensures Grounded(m', s, windows, from)
  {
  }

  /** A snapshot is built from the cursor as it stands. */
  lemma TakenGrounded(m: World, e: Event, windows: seq<Window>, from: nat, parse: Parser)
    requires Replayed(m, windows, from) && Possible(m, e) && e.Take?
    ensures Grounded(m, TakenBy(m, e, parse), windows, from)
  {
    assert LoadCursor(m.cursor, m.inode, |m.files[m.inode]|) == m.cursor;
  }

  lemma CommitReplays(m: World, e: Event, windows: seq<Window>, from: nat, parse: Parser)
    requires AllFaithful(m, parse) && Replayed(m, windows, from) && Possible(m, e) && Lossless(m, e)
    requires CommittedBy(m, e).Some?
    ensures Replayed(Step(m, e, parse), windows + [CommittedBy(m, e).value.window], from)
  {
    var s := CommittedBy(m, e).value;
    assert Faithful(m.files, s, parse) && Grounded(m, s, windows, from);
    CoveredMore(windows, s.window, from, OffsetFrom(s.base));
    forall i | 0 <= i < |m.taken| ensures Grounded(Step(m, e, parse), m.taken[i], windows + [s.window], from) {
      assert Grounded(m, m.taken[i], windows, from);
      if m.taken[i].nextState.Some? {
        CoveredMore(windows, s.window, from, OffsetFrom(m.taken[i].base));
      }
    }
  }

  lemma OtherReplays(m: World, e: Event, windows: seq<Window>, from: nat, parse: Parser)
    requires Replayed(m, windows, from) && Possible(m, e) && !e.Replace? && CommittedBy(m, e).None?
    ensures Replayed(Step(m, e, parse), windows, from)
  {
    var m' := Step(m, e, parse);
    if e.Take? {
      TakenGrounded(m, e, windows, from, parse);
      GroundedKeeps(m, m', TakenBy(m, e, parse), windows, from);
    }
    forall i | 0 <= i < |m'.taken| ensures Grounded(m', m'.taken[i], windows, from) {
      if i < |m.taken| {
        assert m'.taken[i] == m.taken[i];
        GroundedKeeps(m, m', m.taken[i], windows, from);
      }
    }
  }

  /** At least once: from a cursor on a boundary, or from none, commits in any order leave every byte below the cursor
      in some committed window, as long as no committed snapshot lost anything. */
  lemma {:induction false} AtLeastOnce(w: World, events: seq<Event>, parse: Parser)
    requires Known(w) && w.taken == [] && Anchored(w)
    requires Legal(w, events, parse) && AnyOrder(w, events, parse)
    ensures Replayed(After(w, events, parse), Committed(w, events, parse), OffsetFrom(w.cursor))
  {
    if events != [] {
      var init, e := events[..|events| - 1], events[|events| - 1];
      AtLeastOnce(w, init, parse);
      RunFaithful(w, init, parse);
      if CommittedBy(After(w, init, parse), e).Some? {
        CommitReplays(After(w, init, parse), e, Committed(w, init, parse), OffsetFrom(w.cursor), parse);
      } else {
        OtherReplays(After(w, init, parse), e, Committed(w, init, parse), OffsetFrom(w.cursor), parse);
        assert Committed(w, events, parse) == Committed(w, init, parse);
      }
    }
  }

  // ---------------------------------------------------------------------------
  // A message counted twice
  // ---------------------------------------------------------------------------

  /** A user says the same thing on every line. */
  function Echo(): Parser
  {
    (line: Bytes) => Some(UserRow("x"))
  }

  /** One line. */
  function Line(): Bytes
  {
    [120, NL]
  }

  lemma ShortLine(d: Bytes)
    requires |d| == 2 && d[0] != NL && d[0] != CR && d[1] == NL
    ensures LineEnd(d) == 1 && AfterLine(d) == []
  {
    var rest := d[1..];
    assert rest[0] == NL && LineEnd(rest) == 0;
  }

  lemma RowsOfOne(lines: seq<Bytes>, parse: Parser)
    requires |lines| == 1 && lines[0] != [] && parse(lines[0]).Some?
    ensures RowsOf(lines, parse) == [parse(lines[0]).value]
  {
    assert |lines[..0]| == 0;
  }

  lemma NoLines(d: Bytes)
    requires d == []
    ensures SplitLines(d) == []
  {
  }

  lemma LineRows()
    ensures RowsOf(SplitLines(Line()), Echo()) == [UserRow("x")]
  {
    var line, rest: Bytes := Line(), [];
    ShortLine(line);
    SplitFirst(line, 1, rest);
    NoLines(rest);
    assert SplitLines(line) == [line[..1]];
    RowsOfOne(SplitLines(line), Echo());
  }

  /** A snapshot of the whole rest is built. */
  function TakeAll(w: World): Event
    requires Known(w)
  {
    Take(w.files[w.inode], |w.files[w.inode]|, "", FLOOR, FLOOR)
  }

  /** And committed. */
  function Deliver(w: World): World
    requires Known(w)
  {
    Step(Step(w, TakeAll(w), Echo()), Commit(|w.taken|), Echo())
  }

  /** The rest of a small transcript behind an anchored cursor is one line. */
  ghost predicate OneLineLeft(w: World)
  {
    && AllFaithful(w, Echo()) && Anchored(w)
    && var file, offset := w.files[w.inode], OffsetFrom(w.cursor);
       |file| <= FLOOR && offset <= |file| && file[offset..] == Line()
  }

  /** A cursor behind which no line ends stands at the end of a file that ends with a line. */
  lemma EndsAt(file: Bytes, offset: nat, next: nat)
    requires offset <= |file| && file[offset..] == Line() && next <= |file|
    requires forall i :: next <= i < |file| ==> file[i] != NL
    ensures next == |file|
  {
    assert file[offset..][1] == NL && |file| == offset + 2;
    assert file[|file| - 1] == NL;
  }

  lemma LineScanned(file: Bytes, offset: nat)
    requires offset <= |file| && file[offset..] == Line()
    ensures Seen(Scan(file, offset, |file|, Echo()), "") == [UserRow("x")]
  {
    var none: seq<Row>, row := [], UserRow("x");
    assert file[offset..|file|] == Line();
    LineRows();
    assert [row][..0] == none && Seen(none, "") == none;
  }

  /** Delivering it in turn moves the cursor to the end and counts one user message. */
  lemma DeliversLine(w: World)
    requires OneLineLeft(w)
    ensures InTurn(Step(w, TakeAll(w), Echo()), Commit(|w.taken|))
    ensures var w' := Deliver(w);
            && AllFaithful(w', Echo()) && Anchored(w') && w'.files == w.files && w'.inode == w.inode
            && w'.cursor.Some? && OffsetFrom(w'.cursor) == |w.files[w.inode]|
            && TallyFrom(w'.cursor).counts.user == TallyFrom(w.cursor).counts.user + 1
  {
    CaughtUp(w, "", FLOOR, FLOOR, Echo());
    StepFaithful(w, TakeAll(w), Echo());
    var taken := Step(w, TakeAll(w), Echo());
    StepFaithful(taken, Commit(|w.taken|), Echo());
    DeliversRow(w, taken);
  }

  lemma DeliversRow(w: World, taken: World)
    requires OneLineLeft(w) && AllFaithful(taken, Echo()) && Anchored(taken)
    requires taken.files == w.files && taken.inode == w.inode && taken.cursor == w.cursor
    requires |w.taken| < |taken.taken| && taken.taken[|w.taken|].turn == "" && taken.taken[|w.taken|].nextState.Some?
    requires InTurn(taken, Commit(|w.taken|))
    requires var w' := Step(taken, Commit(|w.taken|), Echo());
             forall i :: OffsetFrom(w'.cursor) <= i < |w.files[w.inode]| ==> w.files[w.inode][i] != NL
    ensures var w' := Step(taken, Commit(|w.taken|), Echo());
            && OffsetFrom(w'.cursor) == |w.files[w.inode]|
            && TallyFrom(w'.cursor).counts.user == TallyFrom(w.cursor).counts.user + 1
  {
    var file, offset := w.files[w.inode], OffsetFrom(w.cursor);
    AnchoredStep(taken, Commit(|w.taken|), Echo());
    EndsAt(file, offset, OffsetFrom(Step(taken, Commit(|w.taken|), Echo()).cursor));
    LineScanned(file, offset);
    OneMore(TallyFrom(w.cursor));
  }

  lemma OneMore(t: Tally)
    requires t.lastUser == ""
    ensures AbsorbAll(t, [UserRow("x")]).counts.user == t.counts.user + 1
  {
    var none: seq<Row>, row := [], UserRow("x");
    assert [row] == none + [row];
    AbsorbSnoc(t, none, row);
  }

  /** A transcript of one line, which no hook has seen. */
  function Begun(): World
  {
    World(map[0 := Line()], 0, None, [])
  }

  /** A message counted twice: a line is delivered in turn, the same line is appended, and it is delivered in turn. The
      cursor then counts two user messages, a single scan of the transcript one. */
  lemma CountedTwice()
    ensures OneLineLeft(Begun()) && OneLineLeft(Step(Deliver(Begun()), Append(Line()), Echo()))
    ensures var w := Deliver(Step(Deliver(Begun()), Append(Line()), Echo()));
            && w.inode in w.files && w.files[w.inode] == Line() + Line() && OffsetFrom(w.cursor) == 2 * |Line()|
            && TallyFrom(w.cursor).counts.user == 2
            && AbsorbAll(TallyFrom(None), Scan(w.files[w.inode], 0, 2 * |Line()|, Echo())).counts.user == 1
  {
    assert Line()[0..] == Line();
    DeliversLine(Begun());
    AppendsLine(Deliver(Begun()));
    DeliversLine(Step(Deliver(Begun()), Append(Line()), Echo()));
    TwoLines(Line() + Line());
  }

  lemma AppendsLine(w: World)
    requires AllFaithful(w, Echo()) && Anchored(w) && OffsetFrom(w.cursor) == |w.files[w.inode]| <= FLOOR - |Line()|
    ensures var w' := Step(w, Append(Line()), Echo());
            OneLineLeft(w') && w'.files[w'.inode] == w.files[w.inode] + Line() && w'.cursor == w.cursor
  {
    StepFaithful(w, Append(Line()), Echo());
    assert (w.files[w.inode] + Line())[|w.files[w.inode]|..] == Line();
  }

  lemma TwoLines(file: Bytes)
    requires file == Line() + Line()
    ensures AbsorbAll(TallyFrom(None), Scan(file, 0, 2 * |Line()|, Echo())).counts.user == 1
  {
    var row := UserRow("x");
    assert file[0..2] == Line() && file[2..4] == Line();
    LineRows();
    ScanTile(file, 0, 2, 4, Echo());
    SplitCountsTwice("x");
    assert [row] + [row] == Scan(file, 0, 4, Echo());
  }
}
