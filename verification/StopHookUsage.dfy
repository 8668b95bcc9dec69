/** What the Stop hook's totals add up to, told by the fields of the rows alone
    (hooks/stop-transcript-snapshot.py, 258-327 and 397-404). */
module StopHookUsage {
  import opened Prelude
  import opened TranscriptWindow
  import opened StopHook
  import opened StopHookRuns

  // ---------------------------------------------------------------------------
  // Token usage
  // ---------------------------------------------------------------------------

  /** One field of the usage reports of the assistant rows, added up. */
  function Spent(rows: seq<Row>, field: Tokens -> int): int
  {
    if rows == [] then 0
    else
      var row := rows[|rows| - 1];
      Spent(rows[..|rows| - 1], field) + if row.AssistantRow? && row.usage.Some? then field(row.usage.value) else 0
  }

  /** How many assistant rows report usage. */
  function Reports(rows: seq<Row>): nat
  {
    if rows == [] then 0
    else
      var row := rows[|rows| - 1];
      Reports(rows[..|rows| - 1]) + if row.AssistantRow? && row.usage.Some? then 1 else 0
  }

  function Inputs(): Tokens -> int
  {
    (t: Tokens) => t.input
  }

  function Outputs(): Tokens -> int
  {
    (t: Tokens) => t.output
  }

  function CacheReads(): Tokens -> int
  {
    (t: Tokens) => t.cacheRead
  }

  function CacheCreations(): Tokens -> int
  {
    (t: Tokens) => t.cacheCreation
  }

  /** `after` is `before` with the usage of `rows` added, field by field. */
  ghost predicate AddsUp(before: Usage, rows: seq<Row>, after: Usage)
  {
    && after.tokens.input == before.tokens.input + Spent(rows, Inputs())
    && after.tokens.output == before.tokens.output + Spent(rows, Outputs())
    && after.tokens.cacheRead == before.tokens.cacheRead + Spent(rows, CacheReads())
    && after.tokens.cacheCreation == before.tokens.cacheCreation + Spent(rows, CacheCreations())
    && after.messages == before.messages + Reports(rows)
  }

  /** Each kind of token, and the number of messages, is what it was plus what the rows report. */
  lemma {:induction false} UsageAddsUp(t: Tally, rows: seq<Row>)
    ensures AddsUp(t.usage, rows, AbsorbAll(t, rows).usage)
  {
    if rows != [] {
      UsageAddsUp(t, rows[..|rows| - 1]);
    }
  }

  /** Over an orderly run, what the cursor says was spent is what it said at first plus what the delivered rows
      report, each of them once. */
  lemma CursorAddsUp(w: World, events: seq<Event>, parse: Parser)
    requires AllFaithful(w, parse) && Anchored(w)
    requires Legal(w, events, parse) && Orderly(w, events, parse)
    requires NoCodexTotal(CommittedRows(w, events, parse))
    ensures AddsUp(TallyFrom(w.cursor).usage, CommittedRows(w, events, parse), TallyFrom(After(w, events, parse).cursor).usage)
  {
    UsageOfOneScan(w, events, parse);
    UsageAddsUp(TallyFrom(w.cursor), CommittedRows(w, events, parse));
  }

  /** The last Codex total among the rows. */
  function LastTotal(rows: seq<Row>): Option<Tokens>
  {
    if rows == [] then None
    else if rows[|rows| - 1].CodexTotal? then Some(rows[|rows| - 1].total)
    else LastTotal(rows[..|rows| - 1])
  }

  lemma {:induction false} CodexIsLast(t: Tally, rows: seq<Row>)
    ensures AbsorbAll(t, rows).codex == if LastTotal(rows).Some? then LastTotal(rows) else t.codex
  {
    if rows != [] {
      CodexIsLast(t, rows[..|rows| - 1]);
    }
  }

  /** A Codex total replaces what was added up: the tokens are those of the last total, and the messages the larger
      of the messages with usage and the assistant texts. */
  lemma CodexReplaces(counts: Counts, usage: Usage, rows: seq<Row>)
    ensures var t := AbsorbAll(FreshTally(counts, usage), rows);
            match LastTotal(rows)
            case None => FinalUsage(t) == t.usage
            case Some(total) =>
              var u := FinalUsage(t);
              && u.tokens.input == total.input && u.tokens.output == total.output
              && u.tokens.cacheRead == total.cacheRead && u.tokens.cacheCreation == total.cacheCreation
              && u.messages >= usage.messages + Reports(rows) && u.messages >= t.counts.assistant
              && (u.messages == usage.messages + Reports(rows) || u.messages == t.counts.assistant)
  {
    CodexIsLast(FreshTally(counts, usage), rows);
    UsageAddsUp(FreshTally(counts, usage), rows);
  }

  // ---------------------------------------------------------------------------
  // Message counts
  // ---------------------------------------------------------------------------

  /** The non-empty texts of a role. */
  function Texts(rows: seq<Row>, role: Role): seq<string>
  {
    if rows == [] then []
    else
      var row := rows[|rows| - 1];
      Texts(rows[..|rows| - 1], role)
      + match row
        case UserRow(text) => if role == User && text != "" then [text] else []
        case AssistantRow(text, _) => if role == Assistant && text != "" then [text] else []
        case _ => []
  }

  /** How many texts differ from the one before, the first from `last`. */
  function Changes(texts: seq<string>, last: string): nat
  {
    if texts == [] then 0
    else
      var n := |texts| - 1;
      Changes(texts[..n], last) + if texts[n] != (if n == 0 then last else texts[n - 1]) then 1 else 0
  }

  function Latest(texts: seq<string>, last: string): string
  {
    if texts == [] then last else texts[|texts| - 1]
  }

  lemma ChangesSnoc(texts: seq<string>, text: string, last: string)
    ensures Changes(texts + [text], last) == Changes(texts, last) + if text != Latest(texts, last) then 1 else 0
  {
    assert (texts + [text])[..|texts|] == texts;
  }

  /** Messages are counted once for each change of text. */
  lemma {:induction false} CountsAddUp(t: Tally, rows: seq<Row>, role: Role)
    ensures CountOf(AbsorbAll(t, rows).counts, role) == CountOf(t.counts, role) + Changes(Texts(rows, role), LastOf(t, role))
    ensures LastOf(AbsorbAll(t, rows), role) == Latest(Texts(rows, role), LastOf(t, role))
  {
    if rows != [] {
      var init, row := rows[..|rows| - 1], rows[|rows| - 1];
      CountsAddUp(t, init, role);
      var texts := Texts(init, role);
      if row.UserRow? {
        ChangesSnoc(texts, row.text, LastOf(t, role));
      } else if row.AssistantRow? {
        ChangesSnoc(texts, row.text, LastOf(t, role));
      }
      assert texts + [] == texts;
    }
  }

  /** A completed item speaks to the hooks of its own turn, and to those that know no turn. */
  lemma ItemSeen(item: string, turn: string, role: Role, text: string)
    ensures Texts([See(ItemRow(item, role, text), turn)], role) == if text != "" && (turn == "" || turn == item) then [text] else []
    ensures See(ItemRow(item, role, text), turn).OtherRow? <==> turn != "" && turn != item
  {
    var rows := [See(ItemRow(item, role, text), turn)];
    assert |rows[..0]| == 0;
  }

  // ---------------------------------------------------------------------------
  // Literal rows
  // ---------------------------------------------------------------------------

  lemma OneRow(t: Tally, row: Row)
    ensures AbsorbAll(t, [row]) == Absorb(t, row)
  {
    var none: seq<Row> := [];
    assert [row] == none + [row];
    AbsorbSnoc(t, none, row);
  }

  /** One assistant row, to a hook without a cursor. */
  lemma FirstRow()
    ensures AbsorbAll(TallyFrom(None), [AssistantRow("hi", Some(Tokens(10, 5, 3, 2)))])
         == Tally(Counts(0, 1), Usage(Tokens(10, 5, 3, 2), 1), "", "hi", None)
  {
    OneRow(TallyFrom(None), AssistantRow("hi", Some(Tokens(10, 5, 3, 2))));
  }

  /** A Codex total, to a hook without a cursor. */
  lemma FirstTotal()
    ensures FinalUsage(AbsorbAll(TallyFrom(None), [CodexTotal(Tokens(40, 30, 20, 10))])) == Usage(Tokens(40, 30, 20, 10), 0)
  {
    OneRow(TallyFrom(None), CodexTotal(Tokens(40, 30, 20, 10)));
  }

  /** The window's rows are what its lines parse to: each row comes from a non-empty line, and each such line that
      parses gives one. */
  lemma {:induction false} RowsExactly(lines: seq<Bytes>, parse: Parser)
    ensures |RowsOf(lines, parse)| == Parsed(lines, parse)
    ensures forall row :: row in RowsOf(lines, parse) <==> exists i :: 0 <= i < |lines| && lines[i] != [] && parse(lines[i]) == Some(row)
  {
    if lines != [] {
      var init, line := lines[..|lines| - 1], lines[|lines| - 1];
      RowsExactly(init, parse);
      assert lines == init + [line];
      forall row ensures row in RowsOf(lines, parse) <==> exists i :: 0 <= i < |lines| && lines[i] != [] && parse(lines[i]) == Some(row) {
        ParsedFrom(init, line, parse, row);
      }
    }
  }

  function Parsed(lines: seq<Bytes>, parse: Parser): nat
  {
    if lines == [] then 0
    else Parsed(lines[..|lines| - 1], parse) + if lines[|lines| - 1] != [] && parse(lines[|lines| - 1]).Some? then 1 else 0
  }

  lemma ParsedFrom(init: seq<Bytes>, line: Bytes, parse: Parser, row: Row)
    ensures var lines := init + [line];
            (exists i :: 0 <= i < |lines| && lines[i] != [] && parse(lines[i]) == Some(row))
            <==> (exists i :: 0 <= i < |init| && init[i] != [] && parse(init[i]) == Some(row))
                 || (line != [] && parse(line) == Some(row))
  {
    var lines := init + [line];
    if i :| 0 <= i < |init| && init[i] != [] && parse(init[i]) == Some(row) {
      assert lines[i] == init[i];
    }
    if line != [] && parse(line) == Some(row) {
      assert lines[|init|] == line;
    }
  }

  // ---------------------------------------------------------------------------
  // How much a snapshot reads
  // ---------------------------------------------------------------------------

  function Least(a: int, b: int): int
  {
    if a <= b then a else b
  }

  function Most(a: int, b: int): int
  {
    if a >= b then a else b
  }

  /** A snapshot asks for what its cursor leaves, or without one for the bootstrap bytes, and never for more than the
      increment; neither bound is less than 64 KiB, whatever the arguments say. */
  lemma SnapshotAsks(content: Bytes, known: nat, size: nat, inode: nat, cursor: Option<Cursor>, bootstrapBytes: int,
                     maxIncrement: int, turn: string, parse: Parser)
    requires known <= size <= |content|
    ensures var s := SnapshotOf(content, known, size, inode, cursor, bootstrapBytes, maxIncrement, turn, parse);
            && s.window.size == size && s.base == LoadCursor(cursor, inode, known)
            && size - s.window.requested
               == Least(if s.base.Some? then size - s.base.value.offset else Least(size, Most(65536, bootstrapBytes)),
                        Most(65536, maxIncrement))
  {
    AsksFor(size, OffsetOf(LoadCursor(cursor, inode, known)), AtLeastFloor(bootstrapBytes), AtLeastFloor(maxIncrement));
  }
}
