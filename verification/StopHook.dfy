/** The Stop hook's snapshot and commit (hooks/stop-transcript-snapshot.py): what one snapshot
    accumulates from its window, and what committing it persists. */
module StopHook {
  import opened Prelude
  import opened TranscriptWindow

  datatype Tokens = Tokens(input: int, output: int, cacheRead: int, cacheCreation: int)

  datatype Usage = Usage(tokens: Tokens, messages: int)

  datatype Role = User | Assistant

  /** What a parsed transcript row contributes to the persisted state. Texts are already cleaned;
      an empty text contributes nothing. A completed Codex item says something only in its own turn. */
  datatype Row =
    | UserRow(text: string)
    | AssistantRow(text: string, usage: Option<Tokens>)
    | CodexTotal(total: Tokens)
    | ItemRow(turn: string, role: Role, text: string)
    | OtherRow

  /** `json.loads` followed by the dispatch on the row's type; None for what is not a JSON object. */
  type Parser = Bytes -> Option<Row>

  datatype Counts = Counts(user: int, assistant: int)

  /** The persisted cursor. */
  datatype Cursor = Cursor(inode: nat, offset: nat, counts: Counts, usage: Usage)

  const NO_USAGE := Usage(Tokens(0, 0, 0, 0), 0)

  /** `_load_cursor`: a cursor of another file, or one past the end, is ignored. */
  function LoadCursor(cursor: Option<Cursor>, inode: nat, size: nat): (r: Option<Cursor>)
    ensures r.Some? ==> r == cursor && r.value.inode == inode && r.value.offset <= size
    ensures cursor.Some? && cursor.value.inode == inode && cursor.value.offset <= size ==> r == cursor
  {
    if cursor.Some? && cursor.value.inode == inode && cursor.value.offset <= size then cursor else None
  }

  function OffsetOf(cursor: Option<Cursor>): Option<nat>
  {
    match cursor case Some(c) => Some(c.offset) case None => None
  }

  /** The rows of the non-empty lines that parse. */
  function RowsOf(lines: seq<Bytes>, parse: Parser): seq<Row>
  {
    if lines == [] then []
    else
      var line := lines[|lines| - 1];
      RowsOf(lines[..|lines| - 1], parse)
      + if line != [] && parse(line).Some? then [parse(line).value] else []
  }

  lemma {:induction false} RowsConcat(a: seq<Bytes>, b: seq<Bytes>, parse: Parser)
    ensures RowsOf(a + b, parse) == RowsOf(a, parse) + RowsOf(b, parse)
  {
    if b == [] {
      assert a + b == a;
    } else {
      var init := b[..|b| - 1];
      assert (a + b)[..|a + b| - 1] == a + init;
      RowsConcat(a, init, parse);
    }
  }

  // ---------------------------------------------------------------------------
  // Accumulation over one window
  // ---------------------------------------------------------------------------

  /** The locals of `build_snapshot` that feed the next cursor. */
  datatype Tally = Tally(counts: Counts, usage: Usage, lastUser: string, lastAssistant: string, codex: Option<Tokens>)

  function AddTokens(a: Tokens, b: Tokens): Tokens
  {
    Tokens(a.input + b.input, a.output + b.output, a.cacheRead + b.cacheRead, a.cacheCreation + b.cacheCreation)
  }

  /** A text is counted unless it is empty or repeats the one before it in the same window. */
  function Counted(text: string, last: string): int
  {
    if text != "" && text != last then 1 else 0
  }

  function Later(text: string, last: string): string
  {
    if text != "" then text else last
  }

  function Absorb(t: Tally, row: Row): Tally
  {
    match row
    case UserRow(text) =>
      t.(counts := t.counts.(user := t.counts.user + Counted(text, t.lastUser)), lastUser := Later(text, t.lastUser))
    case AssistantRow(text, usage) =>
      var t := t.(counts := t.counts.(assistant := t.counts.assistant + Counted(text, t.lastAssistant)),
                  lastAssistant := Later(text, t.lastAssistant));
      if usage.Some? then t.(usage := Usage(AddTokens(t.usage.tokens, usage.value), t.usage.messages + 1)) else t
    case CodexTotal(total) => t.(codex := Some(total))
    case ItemRow(_, _, _) => t
    case OtherRow => t
  }

  /** The row as a hook of the given turn sees it; a hook that knows no turn sees all of them. */
  function See(row: Row, turn: string): Row
  {
    if !row.ItemRow? then row
    else if turn != "" && row.turn != turn then OtherRow
    else if row.role.User? then UserRow(row.text)
    else AssistantRow(row.text, None)
  }

  function Seen(rows: seq<Row>, turn: string): seq<Row>
  {
    if rows == [] then [] else Seen(rows[..|rows| - 1], turn) + [See(rows[|rows| - 1], turn)]
  }

  function AbsorbAll(t: Tally, rows: seq<Row>): Tally
  {
    if rows == [] then t else Absorb(AbsorbAll(t, rows[..|rows| - 1]), rows[|rows| - 1])
  }

  function FreshTally(counts: Counts, usage: Usage): Tally
  {
    Tally(counts, usage, "", "", None)
  }

  /** The usage a snapshot reports: a Codex running total replaces what was added up. */
  function FinalUsage(t: Tally): Usage
  {
    match t.codex
    case None => t.usage
    case Some(total) =>
      Usage(total, if t.usage.messages >= t.counts.assistant then t.usage.messages else t.counts.assistant)
  }

  /** A snapshot; `base` is the cursor it was built from, `nextState` what a commit of it persists.
      The fallback snapshot of a failed hook has no next state. */
  datatype Snapshot = Snapshot(inode: nat, base: Option<Cursor>, window: Window, rows: seq<Row>, turn: string,
                               nextState: Option<Cursor>)

  const FLOOR := 64 * 1024

  function AtLeastFloor(n: int): nat
  {
    if n < FLOOR then FLOOR else n
  }

  /** `build_snapshot` of a turn, for a file that had `known` bytes when the cursor was judged, `size` bytes when the
      window was chosen, and `content` when it was read. */
  function SnapshotOf(content: Bytes, known: nat, size: nat, inode: nat, cursor: Option<Cursor>,
                      bootstrapBytes: int, maxIncrement: int, turn: string, parse: Parser): (s: Snapshot)
    requires known <= size <= |content|
  {
    var base := LoadCursor(cursor, inode, known);
    var w := WindowOf(content, size, OffsetOf(base), AtLeastFloor(bootstrapBytes), AtLeastFloor(maxIncrement));
    var rows := RowsOf(LinesOf(content, w), parse);
    var tally := AbsorbAll(TallyFrom(base), Seen(rows, turn));
    Snapshot(inode, base, w, rows, turn, Some(Cursor(inode, w.next, tally.counts, FinalUsage(tally))))
  }

  function TallyFrom(base: Option<Cursor>): Tally
  {
    match base
    case Some(c) => FreshTally(c.counts, c.usage)
    case None => FreshTally(Counts(0, 0), NO_USAGE)
  }

  /** The row loop of `_read_window`. */
  method ParseRows(lines: seq<Bytes>, parse: Parser) returns (rows: seq<Row>)
    ensures rows == RowsOf(lines, parse)
  {
    rows := [];
    for i := 0 to |lines|
      invariant rows == RowsOf(lines[..i], parse)
    {
      assert lines[..i + 1][..i] == lines[..i];
      var raw := lines[i];
      if raw != [] {
        var row := parse(raw);
        if row.Some? {
          rows := rows + [row.value];
        }
      }
    }
    assert lines[..|lines|] == lines;
  }

  /** The row loop of `build_snapshot`. */
  method Accumulate(start: Tally, rows: seq<Row>, turn: string) returns (tally: Tally)
    ensures tally == AbsorbAll(start, Seen(rows, turn))
  {
    tally := start;
    for i := 0 to |rows|
      invariant tally == AbsorbAll(start, Seen(rows[..i], turn))
    {
      assert rows[..i + 1][..i] == rows[..i];
      AbsorbSnoc(start, Seen(rows[..i], turn), See(rows[i], turn));
      tally := Absorb(tally, See(rows[i], turn));
    }
    assert rows[..|rows|] == rows;
  }

  lemma AbsorbSnoc(t: Tally, rows: seq<Row>, row: Row)
    ensures AbsorbAll(t, rows + [row]) == Absorb(AbsorbAll(t, rows), row)
  {
    assert (rows + [row])[..|rows|] == rows;
  }

  /** The hook with its persisted cursor. */
  class Hook {
    var cursor: Option<Cursor>

    constructor ()
      ensures cursor == None
    {
      cursor := None;
    }

    /** Building a snapshot reads the file and the cursor and changes neither. */
    method Build(content: Bytes, known: nat, size: nat, inode: nat, bootstrapBytes: int, maxIncrement: int,
                 turn: string, parse: Parser) returns (s: Snapshot)
      requires known <= size <= |content|
      ensures s == SnapshotOf(content, known, size, inode, cursor, bootstrapBytes, maxIncrement, turn, parse)
    {
      var base := LoadCursor(cursor, inode, known);
      var w := WindowOf(content, size, OffsetOf(base), AtLeastFloor(bootstrapBytes), AtLeastFloor(maxIncrement));
      var rows := ParseRows(LinesOf(content, w), parse);
      var tally := Accumulate(TallyFrom(base), rows, turn);
      s := Snapshot(inode, base, w, rows, turn, Some(Cursor(inode, w.next, tally.counts, FinalUsage(tally))));
    }

    /** `_commit`: a fallback snapshot leaves the cursor alone. */
    method Commit(s: Snapshot)
      modifies this
      ensures cursor == if s.nextState.Some? then s.nextState else old(cursor)
    {
      if s.nextState.Some? {
        cursor := s.nextState;
      }
    }
  }

  // ---------------------------------------------------------------------------
  // One scan or several
  // ---------------------------------------------------------------------------

  predicate NoCodexTotal(rows: seq<Row>)
  {
    forall i :: 0 <= i < |rows| ==> !rows[i].CodexTotal?
  }

  lemma {:induction false} AbsorbConcat(t: Tally, a: seq<Row>, b: seq<Row>)
    ensures AbsorbAll(t, a + b) == AbsorbAll(AbsorbAll(t, a), b)
  {
    if b == [] {
      assert a + b == a;
    } else {
      assert (a + b)[..|a + b| - 1] == a + b[..|b| - 1];
      AbsorbConcat(t, a, b[..|b| - 1]);
    }
  }

  /** Usage does not depend on anything but the usage so far. */
  lemma {:induction false} UsageOnly(t: Tally, u: Tally, rows: seq<Row>)
    requires t.usage == u.usage
    ensures AbsorbAll(t, rows).usage == AbsorbAll(u, rows).usage
  {
    if rows != [] {
      UsageOnly(t, u, rows[..|rows| - 1]);
    }
  }

  /** The turn makes no difference to usage. */
  lemma {:induction false} SeenUsage(t: Tally, rows: seq<Row>, turn: string)
    ensures AbsorbAll(t, Seen(rows, turn)).usage == AbsorbAll(t, rows).usage
    ensures AbsorbAll(t, Seen(rows, turn)).codex == AbsorbAll(t, rows).codex
  {
    if rows != [] {
      var init, row := rows[..|rows| - 1], rows[|rows| - 1];
      SeenUsage(t, init, turn);
      AbsorbSnoc(t, Seen(init, turn), See(row, turn));
      SeeUsage(AbsorbAll(t, Seen(init, turn)), AbsorbAll(t, init), row, turn);
    }
  }

  lemma SeeUsage(t: Tally, u: Tally, row: Row, turn: string)
    requires t.usage == u.usage && t.codex == u.codex
    ensures Absorb(t, See(row, turn)).usage == Absorb(u, row).usage && Absorb(t, See(row, turn)).codex == Absorb(u, row).codex
  {
  }

  lemma {:induction false} CodexStays(t: Tally, rows: seq<Row>)
    requires NoCodexTotal(rows)
    ensures AbsorbAll(t, rows).codex == t.codex
  {
    if rows != [] {
      CodexStays(t, rows[..|rows| - 1]);
    }
  }

  /** What the row says in the given role, if anything. */
  function TextOf(row: Row, role: Role): string
  {
    if role.User? && row.UserRow? then row.text
    else if role.Assistant? && row.AssistantRow? then row.text
    else ""
  }

  function CountOf(counts: Counts, role: Role): int
  {
    if role.User? then counts.user else counts.assistant
  }

  function LastOf(t: Tally, role: Role): string
  {
    if role.User? then t.lastUser else t.lastAssistant
  }

  /** The first text of the given role, or "" if there is none. */
  function FirstText(rows: seq<Row>, role: Role): string
  {
    if rows == [] then ""
    else
      var before := FirstText(rows[..|rows| - 1], role);
      if before != "" then before else TextOf(rows[|rows| - 1], role)
  }

  lemma AbsorbText(t: Tally, row: Row, role: Role)
    ensures CountOf(Absorb(t, row).counts, role) == CountOf(t.counts, role) + Counted(TextOf(row, role), LastOf(t, role))
    ensures LastOf(Absorb(t, row), role) == Later(TextOf(row, role), LastOf(t, role))
  {
  }

  /** A window counts from scratch: one text more than a scan that comes from before, exactly when its first text
      repeats the last one of that scan. */
  lemma {:induction false} CountShift(t: Tally, u: Tally, rows: seq<Row>, role: Role)
    requires LastOf(t, role) == ""
    ensures var a, b, first := AbsorbAll(t, rows), AbsorbAll(u, rows), FirstText(rows, role);
            && CountOf(a.counts, role) - CountOf(t.counts, role)
               == CountOf(b.counts, role) - CountOf(u.counts, role) + (if first != "" && first == LastOf(u, role) then 1 else 0)
            && LastOf(b, role) == (if first == "" then LastOf(u, role) else LastOf(a, role))
            && (first == "" <==> LastOf(a, role) == "")
  {
    if rows != [] {
      var init, row := rows[..|rows| - 1], rows[|rows| - 1];
      CountShift(t, u, init, role);
      AbsorbText(AbsorbAll(t, init), row, role);
      AbsorbText(AbsorbAll(u, init), row, role);
    }
  }

  /** Message counts, unlike usage, depend on where windows are cut: splitting a range in two counts one text
      more exactly when the second part opens with the text the first part ended on. */
  lemma SplitCounts(t: Tally, a: seq<Row>, b: seq<Row>, role: Role)
    ensures var first := AbsorbAll(t, a);
            var split := CountOf(AbsorbAll(FreshTally(first.counts, FinalUsage(first)), b).counts, role);
            var single := CountOf(AbsorbAll(t, a + b).counts, role);
            split == single + if FirstText(b, role) != "" && FirstText(b, role) == LastOf(first, role) then 1 else 0
  {
    var first := AbsorbAll(t, a);
    AbsorbConcat(t, a, b);
    CountShift(FreshTally(first.counts, FinalUsage(first)), first, b, role);
  }

  /** The smallest case: one text, said twice, is one message to a single scan and two if the windows are cut between. */
  lemma SplitCountsTwice(text: string)
    requires text != ""
    ensures var t, rows := FreshTally(Counts(0, 0), NO_USAGE), [UserRow(text)];
            var first := AbsorbAll(t, rows);
            && AbsorbAll(t, rows + rows).counts.user == 1
            && AbsorbAll(FreshTally(first.counts, FinalUsage(first)), rows).counts.user == 2
  {
    var t, none: seq<Row>, row := FreshTally(Counts(0, 0), NO_USAGE), [], UserRow(text);
    var first := AbsorbAll(t, [row]);
    assert [row] == none + [row];
    AbsorbSnoc(t, none, row);
    AbsorbSnoc(t, [row], row);
    AbsorbSnoc(FreshTally(first.counts, FinalUsage(first)), none, row);
  }
}
