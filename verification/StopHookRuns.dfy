/** Whole runs of the Stop hook: transcripts grow or are replaced, snapshots are built, and some of
    them, in any order, are committed. */
module StopHookRuns {
  import opened Prelude
  import opened TranscriptWindow
  import opened StopHook

  /** `files` holds every transcript there ever was, by inode; `inode` is the current one. */
  datatype World = World(files: map<nat, Bytes>, inode: nat, cursor: Option<Cursor>, taken: seq<Snapshot>)

  datatype Event =
    | Append(bytes: Bytes)
    | Replace(freshInode: nat, bytes: Bytes)
    /** A snapshot of a turn is built. The transcript may grow between its first stat and its second, which finds
        `size` bytes, and until it is read, when it is `content`. */
    | Take(content: Bytes, size: nat, turn: string, bootstrapBytes: int, maxIncrement: int)
    /** The hook failed and fell back to a snapshot without a next state. */
    | TakeFallback
    | Commit(index: nat)
    | LoseCursor

  predicate Known(w: World)
  {
    w.inode in w.files
  }

  predicate Possible(w: World, e: Event)
    requires Known(w)
  {
    match e
    case Replace(freshInode, _) => freshInode !in w.files
    case Commit(index) => index < |w.taken|
    case Take(content, size, _, _, _) => w.files[w.inode] <= content && |w.files[w.inode]| <= size <= |content|
    case _ => true
  }

  const FALLBACK_WINDOW := Window(0, 0, 0, 0, 0, true)

  /** The snapshot that a `Take` builds. */
  function TakenBy(w: World, e: Event, parse: Parser): Snapshot
    requires Known(w) && Possible(w, e) && e.Take?
  {
    SnapshotOf(e.content, |w.files[w.inode]|, e.size, w.inode, w.cursor, e.bootstrapBytes, e.maxIncrement, e.turn, parse)
  }

  function Remember(w: World, s: Snapshot): World
  {
    w.(taken := w.taken + [s])
  }

  function Step(w: World, e: Event, parse: Parser): (w': World)
    requires Known(w) && Possible(w, e)
    ensures Known(w')
  {
    match e
    case Append(bytes) => w.(files := w.files[w.inode := w.files[w.inode] + bytes])
    case Replace(freshInode, bytes) => w.(files := w.files[freshInode := bytes], inode := freshInode)
    case Take(content, _, _, _, _) => Remember(w.(files := w.files[w.inode := content]), TakenBy(w, e, parse))
    case TakeFallback => Remember(w, Snapshot(w.inode, w.cursor, FALLBACK_WINDOW, [], "", None))
    case Commit(index) =>
      if w.taken[index].nextState.Some? then w.(cursor := w.taken[index].nextState) else w
    case LoseCursor => w.(cursor := None)
  }

  ghost predicate Legal(w: World, events: seq<Event>, parse: Parser)
    requires Known(w)
    decreases |events|, 0
  {
    events == []
    || (Legal(w, events[..|events| - 1], parse)
        && Possible(After(w, events[..|events| - 1], parse), events[|events| - 1]))
  }

  ghost function After(w: World, events: seq<Event>, parse: Parser): (w': World)
    requires Known(w) && Legal(w, events, parse)
    ensures Known(w')
    decreases |events|, 1
  {
    if events == [] then w
    else Step(After(w, events[..|events| - 1], parse), events[|events| - 1], parse)
  }

  // ---------------------------------------------------------------------------
  // No torn lines, ever
  // ---------------------------------------------------------------------------

  /** What a snapshot parsed, judged against the transcript it came from. */
  ghost predicate Faithful(files: map<nat, Bytes>, s: Snapshot, parse: Parser)
  {
    && s.inode in files
    && var file, w := files[s.inode], s.window;
    && w.start <= w.next <= |file|
    && (w.start < w.next ==> AtBoundary(file, w.start) && file[w.next - 1] == NL)
    && s.rows == RowsOf(LinesOf(file, w), parse)
    && (s.nextState.Some? ==>
          && (s.base.Some? ==> s.base.value.inode == s.inode && s.base.value.offset <= |file|)
          && Resumes(file, s)
          && var tally := AbsorbAll(TallyFrom(s.base), Seen(s.rows, s.turn));
             s.nextState.value == Cursor(s.inode, w.next, tally.counts, FinalUsage(tally)))
  }

  /** Where reading goes on from; without a cursor, at the start of the file. */
  function OffsetFrom(cursor: Option<Cursor>): nat
  {
    match cursor case Some(c) => c.offset case None => 0
  }

  /** A snapshot built from a cursor on a boundary, or of a whole file, with nothing dropped, continues exactly
      there. */
  ghost predicate Resumes(file: Bytes, s: Snapshot)
  {
    (s.base.None? ==> s.window.origin == 0) && AtBoundary(file, OffsetFrom(s.base)) && s.window.Dropped() == 0
    ==> s.window.start == OffsetFrom(s.base) && AtBoundary(file, s.window.next)
  }

  ghost predicate AllFaithful(w: World, parse: Parser)
  {
    Known(w) && forall i :: 0 <= i < |w.taken| ==> Faithful(w.files, w.taken[i], parse)
  }

  predicate Extends(files: map<nat, Bytes>, files': map<nat, Bytes>)
  {
    forall i :: i in files ==> i in files' && files[i] <= files'[i]
  }

  lemma BoundaryKeeps(file: Bytes, file': Bytes, offset: nat)
    requires file <= file' && offset <= |file|
    ensures AtBoundary(file', offset) <==> AtBoundary(file, offset)
  {
    assert offset > 0 ==> file'[offset - 1] == file[offset - 1];
  }

  lemma LinesKeep(file: Bytes, file': Bytes, w: Window)
    requires file <= file' && w.start <= w.next <= |file|
    ensures LinesOf(file', w) == LinesOf(file, w)
    ensures w.start < w.next ==> file'[w.next - 1] == file[w.next - 1]
  {
    assert file'[w.start..w.next] == file[w.start..w.next];
  }

  lemma ResumesKeeps(file: Bytes, file': Bytes, s: Snapshot)
    requires file <= file' && Resumes(file, s) && OffsetFrom(s.base) <= |file| && s.window.next <= |file|
    ensures Resumes(file', s)
  {
    BoundaryKeeps(file, file', OffsetFrom(s.base));
    BoundaryKeeps(file, file', s.window.next);
  }

  lemma FaithfulGrows(files: map<nat, Bytes>, files': map<nat, Bytes>, s: Snapshot, parse: Parser)
    requires Faithful(files, s, parse) && Extends(files, files')
    ensures Faithful(files', s, parse)
  {
    var file, file' := files[s.inode], files'[s.inode];
    LinesKeep(file, file', s.window);
    BoundaryKeeps(file, file', s.window.start);
    if s.nextState.Some? {
      ResumesKeeps(file, file', s);
    }
  }

  lemma FaithfulWhole(files: map<nat, Bytes>, s: Snapshot, parse: Parser)
    requires Faithful(files, s, parse)
    ensures WholeLines(files[s.inode], s.window)
  {
    WindowWhole(files[s.inode], s.window);
  }

  /** A window over `file` with whole lines that continues from `base` where it can. */
  ghost predicate Fits(file: Bytes, base: Option<Cursor>, w: Window)
  {
    && w.start <= w.next <= |file|
    && (w.start < w.next ==> AtBoundary(file, w.start) && file[w.next - 1] == NL)
    && ((base.None? ==> w.origin == 0) && AtBoundary(file, OffsetFrom(base)) && w.Dropped() == 0
        ==> w.start == OffsetFrom(base) && AtBoundary(file, w.next))
  }

  lemma WindowFits(file: Bytes, size: nat, base: Option<Cursor>, boot: nat, bound: nat)
    requires size <= |file| && (base.Some? ==> base.value.offset <= size)
    ensures Fits(file, base, WindowOf(file, size, OffsetOf(base), boot, bound))
  {
    WindowClean(file, size, OffsetOf(base), boot, bound);
    if base.Some? && AtBoundary(file, base.value.offset) {
      WindowResumes(file, size, base.value.offset, boot, bound);
    }
  }

  lemma FaithfulFrom(files: map<nat, Bytes>, s: Snapshot, parse: Parser)
    requires s.inode in files && Fits(files[s.inode], s.base, s.window)
    requires s.base.Some? ==> s.base.value.inode == s.inode && s.base.value.offset <= |files[s.inode]|
    requires s.rows == RowsOf(LinesOf(files[s.inode], s.window), parse)
    requires var tally := AbsorbAll(TallyFrom(s.base), Seen(s.rows, s.turn));
             s.nextState == Some(Cursor(s.inode, s.window.next, tally.counts, FinalUsage(tally)))
    ensures Faithful(files, s, parse)
  {
  }

  lemma TakeFaithful(files: map<nat, Bytes>, content: Bytes, known: nat, size: nat, inode: nat, cursor: Option<Cursor>,
                     boot: int, inc: int, turn: string, parse: Parser)
    requires inode in files && files[inode] == content && known <= size <= |content|
    ensures Faithful(files, SnapshotOf(content, known, size, inode, cursor, boot, inc, turn, parse), parse)
  {
    WindowFits(content, size, LoadCursor(cursor, inode, known), AtLeastFloor(boot), AtLeastFloor(inc));
    FaithfulFrom(files, SnapshotOf(content, known, size, inode, cursor, boot, inc, turn, parse), parse);
  }

  lemma StepExtends(w: World, e: Event, parse: Parser)
    requires Known(w) && Possible(w, e)
    ensures Extends(w.files, Step(w, e, parse).files)
  {
  }

  lemma TakenFaithful(w: World, e: Event, files: map<nat, Bytes>, parse: Parser)
    requires Known(w) && Possible(w, e) && e.Take?
    requires w.inode in files && files[w.inode] == e.content
    ensures Faithful(files, TakenBy(w, e, parse), parse)
  {
    TakeFaithful(files, e.content, |w.files[w.inode]|, e.size, w.inode, w.cursor, e.bootstrapBytes, e.maxIncrement, e.turn, parse);
  }

  lemma RememberFaithful(w: World, s: Snapshot, parse: Parser)
    requires AllFaithful(w, parse) && Faithful(w.files, s, parse)
    ensures AllFaithful(Remember(w, s), parse)
  {
  }

  lemma GrownFaithful(w: World, files: map<nat, Bytes>, parse: Parser)
    requires AllFaithful(w, parse) && Extends(w.files, files)
    ensures AllFaithful(w.(files := files), parse)
  {
    forall i | 0 <= i < |w.taken| ensures Faithful(files, w.taken[i], parse) {
      FaithfulGrows(w.files, files, w.taken[i], parse);
    }
  }

  lemma StepFaithful(w: World, e: Event, parse: Parser)
    requires AllFaithful(w, parse) && Possible(w, e)
    ensures AllFaithful(Step(w, e, parse), parse)
  {
    if e.Take? {
      TakeStepFaithful(w, e, parse);
    } else {
      StepExtends(w, e, parse);
      GrownFaithful(w, Step(w, e, parse).files, parse);
    }
  }

  lemma TakeStepFaithful(w: World, e: Event, parse: Parser)
    requires AllFaithful(w, parse) && Possible(w, e) && e.Take?
    ensures AllFaithful(Step(w, e, parse), parse)
  {
    var files := w.files[w.inode := e.content];
    GrownFaithful(w, files, parse);
    TakenFaithful(w, e, files, parse);
    RememberFaithful(w.(files := files), TakenBy(w, e, parse), parse);
  }

  lemma {:induction false} RunFaithful(w: World, events: seq<Event>, parse: Parser)
    requires AllFaithful(w, parse) && Legal(w, events, parse)
    ensures AllFaithful(After(w, events, parse), parse)
  {
    if events != [] {
      RunFaithful(w, events[..|events| - 1], parse);
      StepFaithful(After(w, events[..|events| - 1], parse), events[|events| - 1], parse);
    }
  }

  /** In every run, with cuts and commits wherever they fall, every line a snapshot parsed is a whole line
      of its transcript as that transcript stands now: the parsed lines are consecutive lines of the file. */
  lemma NeverTorn(w: World, events: seq<Event>, i: nat, parse: Parser)
    requires Known(w) && w.taken == [] && Legal(w, events, parse)
    requires i < |After(w, events, parse).taken|
    ensures var w' := After(w, events, parse);
            var s := w'.taken[i];
            && s.inode in w'.files && s.window.start <= s.window.next <= |w'.files[s.inode]|
            && WholeLines(w'.files[s.inode], s.window)
            && s.rows == RowsOf(LinesOf(w'.files[s.inode], s.window), parse)
  {
    RunFaithful(w, events, parse);
    var w' := After(w, events, parse);
    FaithfulWhole(w'.files, w'.taken[i], parse);
  }

  // ---------------------------------------------------------------------------
  // Exactly once
  // ---------------------------------------------------------------------------

  /** The snapshot that `e` commits, if any. */
  function CommittedBy(w: World, e: Event): Option<Snapshot>
    requires Known(w) && Possible(w, e)
  {
    if e.Commit? && w.taken[e.index].nextState.Some? then Some(w.taken[e.index]) else None
  }

  /** The commit found the cursor as the snapshot had loaded it, and the snapshot lost nothing to the bounds:
      nothing was dropped, and without a cursor it read the current file from its start. */
  ghost predicate InTurn(w: World, e: Event)
    requires Known(w) && Possible(w, e)
  {
    CommittedBy(w, e).Some?
    ==> var s := CommittedBy(w, e).value;
        s.base == w.cursor && s.window.Dropped() == 0 && (s.base.None? ==> s.inode == w.inode && s.window.origin == 0)
  }

  /** The transcript is only appended to, and every commit is in turn. Snapshots may be built, fail and be
      forgotten at will. */
  ghost predicate Orderly(w: World, events: seq<Event>, parse: Parser)
    requires Known(w) && Legal(w, events, parse)
  {
    events == []
    || var init, e := events[..|events| - 1], events[|events| - 1];
       Orderly(w, init, parse) && !e.Replace? && !e.LoseCursor? && InTurn(After(w, init, parse), e)
  }

  /** The windows a run commits, in order. */
  ghost function Committed(w: World, events: seq<Event>, parse: Parser): seq<Window>
    requires Known(w) && Legal(w, events, parse)
  {
    if events == [] then []
    else
      var init, e := events[..|events| - 1], events[|events| - 1];
      var s := CommittedBy(After(w, init, parse), e);
      Committed(w, init, parse) + if s.Some? then [s.value.window] else []
  }

  /** The rows a run commits, in order. */
  ghost function CommittedRows(w: World, events: seq<Event>, parse: Parser): seq<Row>
    requires Known(w) && Legal(w, events, parse)
  {
    if events == [] then []
    else
      var init, e := events[..|events| - 1], events[|events| - 1];
      var s := CommittedBy(After(w, init, parse), e);
      CommittedRows(w, init, parse) + if s.Some? then s.value.rows else []
  }

  /** Consecutive windows that tile `from..to`. */
  ghost predicate Tiles(windows: seq<Window>, from: nat, to: nat)
  {
    if windows == [] then from == to
    else
      var last := windows[|windows| - 1];
      last.next == to && Tiles(windows[..|windows| - 1], from, last.start)
  }

  /** The cursor, if there is one, stands on a boundary of the current transcript. */
  ghost predicate Anchored(w: World)
    requires Known(w)
  {
    w.cursor.Some? ==> w.cursor.value.inode == w.inode && AtBoundary(w.files[w.inode], w.cursor.value.offset)
  }

  lemma AnchoredStep(w: World, e: Event, parse: Parser)
    requires AllFaithful(w, parse) && Possible(w, e) && Anchored(w)
    requires !e.Replace? && !e.LoseCursor? && InTurn(w, e)
    ensures var w' := Step(w, e, parse);
            && w'.inode == w.inode && w.files[w.inode] <= w'.files[w.inode]
            && Anchored(w')
            && match CommittedBy(w, e)
               case None => w'.cursor == w.cursor
               case Some(s) =>
                 && s.window.start == OffsetFrom(w.cursor) <= s.window.next == OffsetFrom(w'.cursor)
                 && s.window.next <= |w.files[w.inode]|
                 && s.rows == Scan(w.files[w.inode], s.window.start, s.window.next, parse)
                 && var tally := AbsorbAll(TallyFrom(w.cursor), Seen(s.rows, s.turn));
                    TallyFrom(w'.cursor) == FreshTally(tally.counts, FinalUsage(tally))
  {
    StepExtends(w, e, parse);
    if CommittedBy(w, e).Some? {
      var s := CommittedBy(w, e).value;
      assert Faithful(w.files, s, parse);
      assert s.base == w.cursor;
    }
  }

  /** The rows of one scan of `file[a..b]`. */
  function Scan(file: Bytes, a: nat, b: nat, parse: Parser): seq<Row>
    requires a <= b <= |file|
  {
    RowsOf(SplitLines(file[a..b]), parse)
  }

  lemma ScanKeeps(file: Bytes, file': Bytes, a: nat, b: nat, parse: Parser)
    requires a <= b <= |file| && file <= file'
    ensures Scan(file', a, b, parse) == Scan(file, a, b, parse)
  {
    assert file'[a..b] == file[a..b];
  }

  lemma ScanNothing(file: Bytes, a: nat, parse: Parser)
    requires a <= |file|
    ensures Scan(file, a, a, parse) == []
  {
    assert file[a..a] == [];
  }

  /** Scanning on from a boundary appends the rows of the new part. */
  lemma ScanTile(file: Bytes, a: nat, b: nat, c: nat, parse: Parser)
    requires a <= b <= c <= |file| && AtBoundary(file, a) && AtBoundary(file, b)
    ensures Scan(file, a, c, parse) == Scan(file, a, b, parse) + Scan(file, b, c, parse)
  {
    assert file[a..c] == file[a..b] + file[b..c];
    SplitLinesConcat(file[a..b], file[b..c]);
    RowsConcat(SplitLines(file[a..b]), SplitLines(file[b..c]), parse);
  }

  /** One more window keeps the accumulated usage equal to that of a single scan. */
  lemma UsageTile(t: Tally, mid: Tally, a: seq<Row>, b: seq<Row>, turn: string)
    requires NoCodexTotal(a + b) && mid.codex.None?
    requires mid.usage == AbsorbAll(t, a).usage
    ensures FinalUsage(AbsorbAll(mid, Seen(b, turn))) == AbsorbAll(t, a + b).usage
  {
    assert NoCodexTotal(b) by { assert forall i :: 0 <= i < |b| ==> b[i] == (a + b)[|a| + i]; }
    AbsorbConcat(t, a, b);
    UsageOnly(mid, AbsorbAll(t, a), b);
    CodexStays(mid, b);
    SeenUsage(mid, b, turn);
  }

  /** The windows tile the transcript from the first cursor to the last, and the rows are those of one scan of
      that range: each once and in order. */
  ghost predicate Delivered(w: World, w': World, windows: seq<Window>, rows: seq<Row>, parse: Parser)
    requires Known(w) && Known(w')
  {
    && w'.inode == w.inode && w.files[w.inode] <= w'.files[w.inode]
    && AtBoundary(w.files[w.inode], OffsetFrom(w.cursor)) && Anchored(w')
    && OffsetFrom(w.cursor) <= OffsetFrom(w'.cursor)
    && Tiles(windows, OffsetFrom(w.cursor), OffsetFrom(w'.cursor))
    && rows == Scan(w'.files[w.inode], OffsetFrom(w.cursor), OffsetFrom(w'.cursor), parse)
  }

  lemma TilesSnoc(windows: seq<Window>, last: Window, from: nat)
    requires Tiles(windows, from, last.start)
    ensures Tiles(windows + [last], from, last.next)
  {
    assert (windows + [last])[..|windows|] == windows;
  }

  lemma DeliveredStep(w: World, m: World, e: Event, windows: seq<Window>, rows: seq<Row>, parse: Parser)
    requires Known(w) && AllFaithful(m, parse) && Possible(m, e) && Delivered(w, m, windows, rows, parse)
    requires !e.Replace? && !e.LoseCursor? && InTurn(m, e)
    ensures var s := CommittedBy(m, e);
            Delivered(w, Step(m, e, parse), windows + if s.Some? then [s.value.window] else [],
                      rows + if s.Some? then s.value.rows else [], parse)
  {
    var w' := Step(m, e, parse);
    AnchoredStep(m, e, parse);
    var a, b, c := OffsetFrom(w.cursor), OffsetFrom(m.cursor), OffsetFrom(w'.cursor);
    var file, file' := m.files[w.inode], w'.files[w.inode];
    ScanKeeps(file, file', a, b, parse);
    if CommittedBy(m, e).Some? {
      TilesSnoc(windows, CommittedBy(m, e).value.window, a);
      ScanKeeps(file, file', b, c, parse);
      ScanTile(file', a, b, c, parse);
    } else {
      assert windows + [] == windows && rows + [] == rows;
    }
  }

  /** What a run has committed was delivered once. */
  ghost predicate DeliveredOnce(w: World, events: seq<Event>, parse: Parser)
    requires Known(w) && Legal(w, events, parse)
  {
    Delivered(w, After(w, events, parse), Committed(w, events, parse), CommittedRows(w, events, parse), parse)
  }

  lemma DeliveredNext(w: World, events: seq<Event>, parse: Parser)
    requires AllFaithful(w, parse) && Anchored(w) && events != []
    requires Legal(w, events, parse) && Orderly(w, events, parse)
    requires DeliveredOnce(w, events[..|events| - 1], parse)
    ensures DeliveredOnce(w, events, parse)
  {
    var init, e := events[..|events| - 1], events[|events| - 1];
    RunFaithful(w, init, parse);
    DeliveredStep(w, After(w, init, parse), e, Committed(w, init, parse), CommittedRows(w, init, parse), parse);
  }

  lemma DeliveredNothing(w: World, events: seq<Event>, parse: Parser)
    requires Known(w) && Anchored(w) && Legal(w, events, parse) && events == []
    ensures DeliveredOnce(w, events, parse)
  {
    ScanNothing(w.files[w.inode], OffsetFrom(w.cursor), parse);
  }

  /** Exactly once: from a cursor on a record boundary, or from no cursor at all, whatever snapshots are built and
      dropped in between, in-turn commits deliver every record up to the last cursor once and in order. */
  lemma {:induction false} ExactlyOnce(w: World, events: seq<Event>, parse: Parser)
    requires AllFaithful(w, parse) && Anchored(w)
    requires Legal(w, events, parse) && Orderly(w, events, parse)
    ensures DeliveredOnce(w, events, parse)
  {
    if events == [] {
      DeliveredNothing(w, events, parse);
    } else {
      ExactlyOnce(w, events[..|events| - 1], parse);
      DeliveredNext(w, events, parse);
    }
  }

  /** Unless the delivered range holds a Codex total, the persisted usage is that of a single scan of it. */
  lemma {:induction false} UsageOfOneScan(w: World, events: seq<Event>, parse: Parser)
    requires AllFaithful(w, parse) && Anchored(w)
    requires Legal(w, events, parse) && Orderly(w, events, parse)
    requires NoCodexTotal(CommittedRows(w, events, parse))
    ensures TallyFrom(After(w, events, parse).cursor).usage
         == AbsorbAll(TallyFrom(w.cursor), CommittedRows(w, events, parse)).usage
  {
    if events != [] {
      var init, e := events[..|events| - 1], events[|events| - 1];
      var m, rows := After(w, init, parse), CommittedRows(w, init, parse);
      assert NoCodexTotal(rows) by {
        assert forall i :: 0 <= i < |rows| ==> rows[i] == CommittedRows(w, events, parse)[i];
      }
      UsageOfOneScan(w, init, parse);
      ExactlyOnce(w, init, parse);
      RunFaithful(w, init, parse);
      AnchoredStep(m, e, parse);
      if CommittedBy(m, e).Some? {
        var s := CommittedBy(m, e).value;
        UsageTile(TallyFrom(w.cursor), TallyFrom(m.cursor), rows, s.rows, s.turn);
      } else {
        assert CommittedRows(w, events, parse) == rows;
      }
    }
  }

  /** The rows a run commits, in order, as each snapshot saw them in its turn. */
  ghost function CommittedSeen(w: World, events: seq<Event>, parse: Parser): seq<Row>
    requires Known(w) && Legal(w, events, parse)
  {
    if events == [] then []
    else
      var init, e := events[..|events| - 1], events[|events| - 1];
      var s := CommittedBy(After(w, init, parse), e);
      CommittedSeen(w, init, parse) + if s.Some? then Seen(s.value.rows, s.value.turn) else []
  }

  /** The committed windows that open with the text that was delivered last. */
  ghost function Repeats(w: World, events: seq<Event>, role: Role, parse: Parser): nat
    requires Known(w) && Legal(w, events, parse)
  {
    if events == [] then 0
    else
      var init, e := events[..|events| - 1], events[|events| - 1];
      var s := CommittedBy(After(w, init, parse), e);
      Repeats(w, init, role, parse)
      + if s.Some? && Repeated(AbsorbAll(TallyFrom(w.cursor), CommittedSeen(w, init, parse)),
                               Seen(s.value.rows, s.value.turn), role) then 1 else 0
  }

  predicate Repeated(t: Tally, rows: seq<Row>, role: Role)
  {
    FirstText(rows, role) != "" && FirstText(rows, role) == LastOf(t, role)
  }

  /** One more window: the count goes on from `mid`, where a single scan goes on from `t` after `a`. */
  lemma CountTile(t: Tally, mid: Tally, a: seq<Row>, b: seq<Row>, role: Role)
    requires LastOf(mid, role) == ""
    ensures CountOf(AbsorbAll(mid, b).counts, role) - CountOf(mid.counts, role)
         == CountOf(AbsorbAll(t, a + b).counts, role) - CountOf(AbsorbAll(t, a).counts, role)
            + if Repeated(AbsorbAll(t, a), b, role) then 1 else 0
  {
    AbsorbConcat(t, a, b);
    CountShift(mid, AbsorbAll(t, a), b, role);
  }

  /** Message counts over a whole run: the persisted count exceeds that of a single scan by exactly the number of
      windows that open with the text delivered last. */
  lemma {:induction false} CountsOfOneScan(w: World, events: seq<Event>, role: Role, parse: Parser)
    requires AllFaithful(w, parse) && Anchored(w)
    requires Legal(w, events, parse) && Orderly(w, events, parse)
    ensures CountOf(TallyFrom(After(w, events, parse).cursor).counts, role)
         == CountOf(AbsorbAll(TallyFrom(w.cursor), CommittedSeen(w, events, parse)).counts, role)
            + Repeats(w, events, role, parse)
  {
    if events != [] {
      var init, e := events[..|events| - 1], events[|events| - 1];
      var m, rows := After(w, init, parse), CommittedSeen(w, init, parse);
      CountsOfOneScan(w, init, role, parse);
      ExactlyOnce(w, init, parse);
      RunFaithful(w, init, parse);
      AnchoredStep(m, e, parse);
      if CommittedBy(m, e).Some? {
        var s := CommittedBy(m, e).value;
        CountTile(TallyFrom(w.cursor), TallyFrom(m.cursor), rows, Seen(s.rows, s.turn), role);
      } else {
        assert CommittedSeen(w, events, parse) == rows;
      }
    }
  }

  /** Catching up: if the gap is within the bounds, building a snapshot and committing it is in turn and leaves no
      finished record behind the cursor. */
  lemma CaughtUp(w: World, turn: string, boot: int, inc: int, parse: Parser)
    requires Known(w) && Anchored(w) && |w.files[w.inode]| - OffsetFrom(w.cursor) <= AtLeastFloor(inc)
    requires w.cursor.None? ==> |w.files[w.inode]| <= AtLeastFloor(boot)
    ensures var taken := Step(w, Take(w.files[w.inode], |w.files[w.inode]|, turn, boot, inc), parse);
            var commit := Commit(|w.taken|);
            var after := Step(taken, commit, parse);
            && InTurn(taken, commit) && Anchored(after) && after.cursor.Some? && after.files == w.files
            && forall i :: OffsetFrom(after.cursor) <= i < |w.files[w.inode]| ==> w.files[w.inode][i] != NL
  {
    var file := w.files[w.inode];
    SnapshotCatchesUp(file, w.inode, w.cursor, boot, inc, turn, parse);
    CommitCatchesUp(w, SnapshotOf(file, |file|, |file|, w.inode, w.cursor, boot, inc, turn, parse), parse);
  }

  /** The snapshot reads the whole rest of the file. */
  ghost predicate CatchesUp(file: Bytes, inode: nat, cursor: Option<Cursor>, s: Snapshot)
  {
    && s.inode == inode && s.base == cursor && s.window.Dropped() == 0 && (cursor.None? ==> s.window.origin == 0)
    && s.nextState.Some? && s.nextState.value.inode == inode && s.nextState.value.offset == s.window.next
    && AtBoundary(file, s.window.next) && forall i :: s.window.next <= i < |file| ==> file[i] != NL
  }

  lemma CommitCatchesUp(w: World, s: Snapshot, parse: Parser)
    requires Known(w) && CatchesUp(w.files[w.inode], w.inode, w.cursor, s)
    ensures var taken, commit := w.(taken := w.taken + [s]), Commit(|w.taken|);
            var after := Step(taken, commit, parse);
            && InTurn(taken, commit) && Anchored(after) && after.cursor.Some? && after.files == w.files
            && forall i :: OffsetFrom(after.cursor) <= i < |w.files[w.inode]| ==> w.files[w.inode][i] != NL
  {
  }

  lemma SnapshotCatchesUp(file: Bytes, inode: nat, cursor: Option<Cursor>, boot: int, inc: int, turn: string, parse: Parser)
    requires cursor.Some? ==> cursor.value.inode == inode && AtBoundary(file, cursor.value.offset)
    requires |file| - OffsetFrom(cursor) <= AtLeastFloor(inc) && (cursor.None? ==> |file| <= AtLeastFloor(boot))
    ensures CatchesUp(file, inode, cursor, SnapshotOf(file, |file|, |file|, inode, cursor, boot, inc, turn, parse))
  {
    var boot, inc := AtLeastFloor(boot), AtLeastFloor(inc);
    NextAtBoundaryIff(file, |file|, OffsetOf(cursor), boot, inc);
    WindowClean(file, |file|, OffsetOf(cursor), boot, inc);
  }

  // ---------------------------------------------------------------------------
  // Where commits leave the cursor
  // ---------------------------------------------------------------------------

  /** Later events only add to the transcripts and to the snapshots. */
  lemma {:induction false} RunExtends(w: World, events: seq<Event>, parse: Parser)
    requires Known(w) && Legal(w, events, parse)
    ensures Extends(w.files, After(w, events, parse).files) && w.taken <= After(w, events, parse).taken
  {
    if events != [] {
      var init := events[..|events| - 1];
      RunExtends(w, init, parse);
      StepExtends(After(w, init, parse), events[|events| - 1], parse);
    }
  }

  /** Where the snapshot that a `Take` builds starts to read. */
  function ReadsFrom(w: World, e: Event): nat
    requires Known(w) && Possible(w, e) && e.Take?
  {
    Requested(e.size, OffsetOf(LoadCursor(w.cursor, w.inode, |w.files[w.inode]|)),
              AtLeastFloor(e.bootstrapBytes), AtLeastFloor(e.maxIncrement))
  }

  /** Whenever a snapshot is committed, the cursor then points right after a newline of its transcript (or at the
      start) exactly if the snapshot's read was a clean cut: it started on a boundary, or some record ended at or
      after its start. */
  lemma CommitAnchoredIff(w: World, e: Event, more: seq<Event>, parse: Parser)
    requires Known(w) && Possible(w, e) && e.Take? && Legal(Step(w, e, parse), more, parse)
    ensures var later := After(Step(w, e, parse), more, parse);
            && Possible(later, Commit(|w.taken|))
            && var after := Step(later, Commit(|w.taken|), parse);
               && after.cursor.Some? && after.cursor.value.inode == w.inode && w.inode in after.files
               && (AtBoundary(after.files[w.inode], after.cursor.value.offset) <==> CleanCut(e.content, ReadsFrom(w, e)))
  {
    var taken := Step(w, e, parse);
    RunExtends(taken, more, parse);
    TakenAnchoredIff(w, e, parse);
    CommitStands(After(taken, more, parse), |w.taken|, TakenBy(w, e, parse), e.content, parse);
  }

  lemma TakenAnchoredIff(w: World, e: Event, parse: Parser)
    requires Known(w) && Possible(w, e) && e.Take?
    ensures var s := TakenBy(w, e, parse);
            && s.nextState.Some? && s.nextState.value.inode == w.inode && s.nextState.value.offset <= |e.content|
            && (AtBoundary(e.content, s.nextState.value.offset) <==> CleanCut(e.content, ReadsFrom(w, e)))
  {
    SnapshotAnchoredIff(e.content, |w.files[w.inode]|, e.size, w.inode, w.cursor, e.bootstrapBytes, e.maxIncrement, e.turn, parse);
  }

  lemma SnapshotAnchoredIff(content: Bytes, known: nat, size: nat, inode: nat, cursor: Option<Cursor>,
                            boot: int, inc: int, turn: string, parse: Parser)
    requires known <= size <= |content|
    ensures var s := SnapshotOf(content, known, size, inode, cursor, boot, inc, turn, parse);
            && s.nextState.Some? && s.nextState.value.inode == inode && s.nextState.value.offset <= |content|
            && (AtBoundary(content, s.nextState.value.offset)
                <==> CleanCut(content, Requested(size, OffsetOf(LoadCursor(cursor, inode, known)), AtLeastFloor(boot), AtLeastFloor(inc))))
  {
    NextAtBoundaryIff(content, size, OffsetOf(LoadCursor(cursor, inode, known)), AtLeastFloor(boot), AtLeastFloor(inc));
  }

  /** A commit leaves the cursor where the snapshot says, which later growth of the file does not change. */
  lemma CommitStands(later: World, i: nat, s: Snapshot, content: Bytes, parse: Parser)
    requires Known(later) && i < |later.taken| && later.taken[i] == s && s.nextState.Some?
    requires var c := s.nextState.value; c.inode in later.files && content <= later.files[c.inode] && c.offset <= |content|
    ensures var after := Step(later, Commit(i), parse);
            after.cursor == s.nextState && after.files == later.files
    ensures var c := s.nextState.value; AtBoundary(later.files[c.inode], c.offset) <==> AtBoundary(content, c.offset)
  {
  }

  /** A file of one long unfinished record. */
  function Unfinished(n: nat): Bytes
  {
    seq(n, _ => 65)
  }

  /** A cursor can be committed inside a record: the first snapshot of one record, longer than the bootstrap bound
      and not finished yet, leaves the cursor at its end. */
  lemma CursorInsideRecord(inode: nat, parse: Parser)
    ensures var file := Unfinished(FLOOR + 1);
            var w := World(map[inode := file], inode, None, []);
            var after := Step(Step(w, Take(file, |file|, "", FLOOR, FLOOR), parse), Commit(0), parse);
            after.cursor.Some? && after.files[inode] == file && !AtBoundary(file, after.cursor.value.offset)
  {
    var file := Unfinished(FLOOR + 1);
    var w := World(map[inode := file], inode, None, []);
    NextAtBoundaryIff(file, |file|, None, FLOOR, FLOOR);
    var taken := Step(w, Take(file, |file|, "", FLOOR, FLOOR), parse);
    assert taken.taken[0] == SnapshotOf(file, |file|, |file|, inode, None, FLOOR, FLOOR, "", parse);
  }
}
