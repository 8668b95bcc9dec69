/** Which inactive session to resume (chitta-mcp/resume_selector.py, `select_resume`): records merged
    from three sources, locks from liveness and leases, a score, and a choice with a margin. */
module ResumeSelector {
  import opened Prelude

  datatype Value = Null | Flag(flag: bool) | Number(number: real) | Text(text: string)

  /** A JSON object. Session, thread, path, project and status fields hold text if anything. */
  type Row = map<string, Value>

  function Field(row: Row, key: string): Value
  {
    if key in row then row[key] else Null
  }

  /** `str(row.get(key) or "")` */
  function TextOf(row: Row, key: string): string
  {
    if Field(row, key).Text? then Field(row, key).text else ""
  }

  /** `row.get(key) or 0` */
  function NumberOf(row: Row, key: string): real
  {
    if Field(row, key).Number? then Field(row, key).number else 0.0
  }

  function Or(a: string, b: string): string
  {
    if a != "" then a else b
  }

  predicate Truthy(v: Value)
  {
    match v
    case Null => false
    case Flag(b) => b
    case Number(n) => n != 0.0
    case Text(s) => s != ""
  }

  // ---------------------------------------------------------------------------
  // Inputs
  // ---------------------------------------------------------------------------

  datatype Inventory = Inventory(
    transcripts: seq<Row>,
    ledger: seq<Row>,
    daemon: seq<Row>,
    leases: seq<Row>,
    available: bool)

  /** The arguments, and the world as the selector sees it: time, files, processes and git. */
  datatype Query = Query(
    now: real,
    project: string,
    projectGit: string,
    current: string,
    session: string,
    thread: string,
    margin: int,
    canonical: string -> string,
    gitRoot: string -> string,
    mtime: string -> real,
    pidAlive: Value -> bool)

  /** `_entry_live` */
  predicate EntryLive(row: Row, q: Query)
  {
    if "is_live" in row then Truthy(row["is_live"])
    else if Field(row, "status") !in {Null, Text(""), Text("active")} then false
    else
      var beat := if NumberOf(row, "last_heartbeat_ms") != 0.0 then NumberOf(row, "last_heartbeat_ms") else NumberOf(row, "ts_ms");
      (beat.Floor > 1000000000000 && (q.now * 1000.0).Floor - beat.Floor <= 900000) || q.pidAlive(Field(row, "pid"))
  }

  // ---------------------------------------------------------------------------
  // Records, by session
  // ---------------------------------------------------------------------------

  function SessionId(row: Row): string
  {
    TextOf(row, "session_id")
  }

  function TranscriptId(row: Row): string
  {
    Or(TextOf(row, "session_id"), TextOf(row, "transcript_id"))
  }

  /** The last row with the given session id: what a dict comprehension over the rows keeps. */
  function LastRow(rows: seq<Row>, sid: string): Option<Row>
  {
    if rows == [] || sid == "" then None
    else if SessionId(rows[|rows| - 1]) == sid then Some(rows[|rows| - 1])
    else LastRow(rows[..|rows| - 1], sid)
  }

  /** All transcript rows of a session, later fields over earlier ones. */
  function Transcript(rows: seq<Row>, sid: string): Option<Row>
  {
    if rows == [] || sid == "" then None
    else
      var before := Transcript(rows[..|rows| - 1], sid);
      if TranscriptId(rows[|rows| - 1]) == sid then Some(Base(before) + rows[|rows| - 1]) else before
  }

  function Base(row: Option<Row>): Row
  {
    if row.Some? then row.value else map[]
  }

  function NonEmpty(row: Row): Row
  {
    map k | k in row && row[k] != Null && row[k] != Text("") :: row[k]
  }

  /** `records.setdefault(sid, {}).update(non-empty fields)`, if the source has a row. */
  function Overlay(record: Option<Row>, row: Option<Row>): Option<Row>
  {
    if row.None? then record else Some(Base(record) + NonEmpty(row.value))
  }

  /** The merged record of a session. */
  function RecordOf(inv: Inventory, sid: string): Option<Row>
  {
    Overlay(Overlay(Transcript(inv.transcripts, sid), LastRow(inv.ledger, sid)), LastRow(inv.daemon, sid))
  }

  /** A dict of rows: keys in order of insertion. */
  datatype Table = Table(order: seq<string>, rows: map<string, Row>)

  function RowIn(t: Table, sid: string): Option<Row>
  {
    if sid in t.rows then Some(t.rows[sid]) else None
  }

  ghost predicate Consistent(t: Table)
  {
    Distinct(t.order) && t.rows.Keys == Elements(t.order)
  }

  function Put(t: Table, sid: string, row: Row): (r: Table)
    requires Consistent(t)
    ensures Consistent(r) && r.rows == t.rows[sid := row]
    ensures r.order == if sid in t.order then t.order else t.order + [sid]
  {
    assert sid in t.order <==> sid in Elements(t.order);
    if sid in t.rows then t.(rows := t.rows[sid := row])
    else
      assert Elements(t.order + [sid]) == Elements(t.order) + {sid};
      Table(t.order + [sid], t.rows[sid := row])
  }

  /** `order` with the ids that are new to it, in order of appearance; empty ids do not count. */
  function Extend(order: seq<string>, ids: seq<string>): seq<string>
  {
    if ids == [] then order
    else
      var before, id := Extend(order, ids[..|ids| - 1]), ids[|ids| - 1];
      if id == "" || id in before then before else before + [id]
  }

  function IdsOf(rows: seq<Row>, id: Row -> string): seq<string>
  {
    seq(|rows|, i requires 0 <= i < |rows| => id(rows[i]))
  }

  /** The ids of all rows, source by source, as the merge meets them. */
  function AllIds(inv: Inventory): seq<string>
  {
    IdsOf(inv.transcripts, TranscriptId) + IdsOf(inv.ledger, SessionId) + IdsOf(inv.daemon, SessionId)
  }

  /** The keys of `records` in order of insertion. */
  function OrderOf(inv: Inventory): seq<string>
  {
    Extend([], AllIds(inv))
  }

  lemma ExtendSnoc(order: seq<string>, ids: seq<string>, id: string)
    ensures Extend(order, ids + [id])
         == var before := Extend(order, ids); if id == "" || id in before then before else before + [id]
  {
    assert (ids + [id])[..|ids|] == ids;
  }

  lemma {:induction false} ExtendConcat(order: seq<string>, a: seq<string>, b: seq<string>)
    ensures Extend(order, a + b) == Extend(Extend(order, a), b)
  {
    if b == [] {
      assert a + b == a;
    } else {
      var init, id := b[..|b| - 1], b[|b| - 1];
      ExtendConcat(order, a, init);
      ExtendSnoc(order, a + init, id);
      assert a + b == (a + init) + [id];
    }
  }

  lemma {:induction false} ExtendHas(order: seq<string>, ids: seq<string>, id: string)
    ensures id in Extend(order, ids) <==> id in order || (id != "" && id in ids)
  {
    if ids != [] {
      ExtendHas(order, ids[..|ids| - 1], id);
      assert ids == ids[..|ids| - 1] + [ids[|ids| - 1]];
    }
  }

  /** A dict of rows has each id once, which makes no difference to who extends with it. */
  lemma {:induction false} ExtendOnce(order: seq<string>, ids: seq<string>)
    ensures Extend(order, Extend([], ids)) == Extend(order, ids)
  {
    if ids != [] {
      var init, id := ids[..|ids| - 1], ids[|ids| - 1];
      var once := Extend([], init);
      ExtendOnce(order, init);
      if id == "" || id in once {
        assert Extend([], ids) == once;
        ExtendHas([], init, id);
        ExtendHas(order, init, id);
      } else {
        ExtendSnoc(order, once, id);
      }
    }
  }

  lemma IdsSnoc(rows: seq<Row>, row: Row, id: Row -> string)
    ensures IdsOf(rows + [row], id) == IdsOf(rows, id) + [id(row)]
  {
  }

  lemma LastRowSnoc(rows: seq<Row>, row: Row, sid: string)
    ensures LastRow(rows + [row], sid) == if sid != "" && SessionId(row) == sid then Some(row) else LastRow(rows, sid)
  {
    assert (rows + [row])[..|rows|] == rows;
  }

  lemma TranscriptSnoc(rows: seq<Row>, row: Row, sid: string)
    ensures Transcript(rows + [row], sid)
         == if sid != "" && TranscriptId(row) == sid then Some(Base(Transcript(rows, sid)) + row) else Transcript(rows, sid)
  {
    assert (rows + [row])[..|rows|] == rows;
  }

  /** `t` is the dict of the last row of each session, in order of appearance. */
  ghost predicate IsById(t: Table, rows: seq<Row>)
  {
    && Consistent(t) && t.order == Extend([], IdsOf(rows, SessionId))
    && forall sid :: RowIn(t, sid) == LastRow(rows, sid)
  }

  lemma ByIdStep(t: Table, rows: seq<Row>, row: Row, r: Table)
    requires IsById(t, rows) && r == if SessionId(row) != "" then Put(t, SessionId(row), row) else t
    ensures IsById(r, rows + [row])
  {
    IdsSnoc(rows, row, SessionId);
    ExtendSnoc([], IdsOf(rows, SessionId), SessionId(row));
    forall sid ensures RowIn(r, sid) == LastRow(rows + [row], sid) {
      LastRowSnoc(rows, row, sid);
      assert RowIn(t, sid) == LastRow(rows, sid);
    }
  }

  /** `{str(row["session_id"]): dict(row) for row in rows if row.get("session_id")}` */
  method ById(rows: seq<Row>) returns (t: Table)
    ensures IsById(t, rows)
  {
    t := Table([], map[]);
    ghost var done: seq<Row> := [];
    for n := 0 to |rows|
      invariant done == rows[..n] && IsById(t, done)
    {
      var next := if SessionId(rows[n]) != "" then Put(t, SessionId(rows[n]), rows[n]) else t;
      ByIdStep(t, done, rows[n], next);
      t, done := next, done + [rows[n]];
    }
    assert done == rows;
  }

  /** `t` is the dict of each session's merged transcript rows, in order of appearance. */
  ghost predicate IsMerged(t: Table, rows: seq<Row>)
  {
    && Consistent(t) && t.order == Extend([], IdsOf(rows, TranscriptId))
    && forall sid :: RowIn(t, sid) == Transcript(rows, sid)
  }

  lemma MergedStep(t: Table, rows: seq<Row>, row: Row, r: Table)
    requires IsMerged(t, rows)
    requires var id := TranscriptId(row); r == if id != "" then Put(t, id, Base(RowIn(t, id)) + row) else t
    ensures IsMerged(r, rows + [row])
  {
    IdsSnoc(rows, row, TranscriptId);
    ExtendSnoc([], IdsOf(rows, TranscriptId), TranscriptId(row));
    forall sid ensures RowIn(r, sid) == Transcript(rows + [row], sid) {
      TranscriptSnoc(rows, row, sid);
      assert RowIn(t, sid) == Transcript(rows, sid);
    }
  }

  method MergeTranscripts(rows: seq<Row>) returns (t: Table)
    ensures IsMerged(t, rows)
  {
    t := Table([], map[]);
    ghost var done: seq<Row> := [];
    for n := 0 to |rows|
      invariant done == rows[..n] && IsMerged(t, done)
    {
      var id := TranscriptId(rows[n]);
      var next := if id != "" then Put(t, id, Base(RowIn(t, id)) + rows[n]) else t;
      MergedStep(t, done, rows[n], next);
      t, done := next, done + [rows[n]];
    }
    assert done == rows;
  }

  /** `r` is `t` with the rows of the ids in `done` laid over it. */
  ghost predicate Overlaid(t: Table, source: Table, done: seq<string>, r: Table)
  {
    && Consistent(r) && r.order == Extend(t.order, done)
    && forall sid :: RowIn(r, sid) == if sid in done then Overlay(RowIn(t, sid), RowIn(source, sid)) else RowIn(t, sid)
  }

  lemma OverlaidStep(t: Table, source: Table, done: seq<string>, r: Table, sid: string)
    requires Overlaid(t, source, done, r) && sid !in done && sid != "" && sid in source.rows
    ensures Overlaid(t, source, done + [sid], Put(r, sid, Base(RowIn(r, sid)) + NonEmpty(source.rows[sid])))
  {
    var row := Base(RowIn(r, sid)) + NonEmpty(source.rows[sid]);
    assert RowIn(r, sid) == RowIn(t, sid);
    assert Overlay(RowIn(t, sid), RowIn(source, sid)) == Some(row);
    OverlaidPut(t, source, done, r, sid, row);
  }

  lemma OverlaidPut(t: Table, source: Table, done: seq<string>, r: Table, sid: string, row: Row)
    requires Overlaid(t, source, done, r) && sid !in done && sid != ""
    requires Overlay(RowIn(t, sid), RowIn(source, sid)) == Some(row)
    ensures Overlaid(t, source, done + [sid], Put(r, sid, row))
  {
    ExtendSnoc(t.order, done, sid);
    forall x
      ensures RowIn(Put(r, sid, row), x)
              == if x in done + [sid] then Overlay(RowIn(t, x), RowIn(source, x)) else RowIn(t, x)
    {
      InSnoc(done, sid, x);
      RowPut(r, sid, row, x);
    }
  }

  lemma RowPut(t: Table, sid: string, row: Row, x: string)
    requires Consistent(t)
    ensures RowIn(Put(t, sid, row), x) == if x == sid then Some(row) else RowIn(t, x)
  {
  }

  method OverlayAll(t: Table, source: Table) returns (r: Table)
    requires Consistent(t) && Consistent(source) && "" !in source.order
    ensures Consistent(r) && r.order == Extend(t.order, source.order)
    ensures forall sid :: RowIn(r, sid) == Overlay(RowIn(t, sid), RowIn(source, sid))
  {
    r := t;
    ghost var done: seq<string> := [];
    for n := 0 to |source.order|
      invariant done == source.order[..n] && Overlaid(t, source, done, r)
    {
      var sid := source.order[n];
      assert sid in Elements(source.order);
      OverlaidStep(t, source, done, r, sid);
      r := Put(r, sid, Base(RowIn(r, sid)) + NonEmpty(source.rows[sid]));
      done := done + [sid];
    }
    assert done == source.order;
    OverlaidAll(t, source, r);
  }

  lemma OverlaidAll(t: Table, source: Table, r: Table)
    requires Consistent(source) && Overlaid(t, source, source.order, r)
    ensures forall sid :: RowIn(r, sid) == Overlay(RowIn(t, sid), RowIn(source, sid))
  {
    forall sid ensures RowIn(r, sid) == Overlay(RowIn(t, sid), RowIn(source, sid)) {
      assert sid in source.order <==> sid in Elements(source.order);
    }
  }

  /** The three merge loops. */
  method MergeRecords(inv: Inventory) returns (records: Table)
    ensures Consistent(records) && records.order == OrderOf(inv)
    ensures forall sid :: RowIn(records, sid) == RecordOf(inv, sid)
  {
    var daemon := ById(inv.daemon);
    var ledger := ById(inv.ledger);
    var transcripts := MergeTranscripts(inv.transcripts);
    MergedOrder(inv);
    var middle := OverlayAll(transcripts, ledger);
    records := OverlayAll(middle, daemon);
  }

  lemma MergedOrder(inv: Inventory)
    ensures var ts, ls, ds := IdsOf(inv.transcripts, TranscriptId), IdsOf(inv.ledger, SessionId), IdsOf(inv.daemon, SessionId);
            && Extend(Extend(Extend([], ts), Extend([], ls)), Extend([], ds)) == OrderOf(inv)
            && "" !in Extend([], ls) && "" !in Extend([], ds)
  {
    var ts, ls, ds := IdsOf(inv.transcripts, TranscriptId), IdsOf(inv.ledger, SessionId), IdsOf(inv.daemon, SessionId);
    ExtendOnce(Extend([], ts), ls);
    ExtendOnce(Extend([], ts + ls), ds);
    ExtendConcat([], ts, ls);
    ExtendConcat([], ts + ls, ds);
    ExtendHas([], ls, "");
    ExtendHas([], ds, "");
  }

  // ---------------------------------------------------------------------------
  // Candidates
  // ---------------------------------------------------------------------------

  /** Who holds an unexpired lease on the thread; the last row decides. */
  function LeaseOwner(leases: seq<Row>, thread: string, now: real): string
  {
    if leases == [] || thread == "" then ""
    else
      var last := leases[|leases| - 1];
      if TextOf(last, "thread_id") == thread && NumberOf(last, "expires_at") > now then TextOf(last, "session_id")
      else LeaseOwner(leases[..|leases| - 1], thread, now)
  }

  datatype Candidate = Candidate(sid: string, live: bool, locked: bool, score: int, mtime: real)

  predicate IsLive(inv: Inventory, sid: string, q: Query)
  {
    LastRow(inv.daemon, sid).Some? && EntryLive(LastRow(inv.daemon, sid).value, q)
  }

  predicate LeasedAway(inv: Inventory, record: Row, q: Query)
  {
    LeaseOwner(inv.leases, TextOf(record, "thread_id"), q.now) !in {"", q.current}
  }

  function PathOf(record: Row): string
  {
    Or(TextOf(record, "transcript_path"), TextOf(record, "path"))
  }

  /** Points for closeness to the project; None if the record is of another project and nothing was asked for by name. */
  function ProjectPoints(record: Row, q: Query): Option<int>
  {
    var dir := q.canonical(TextOf(record, "project_dir"));
    if q.project != "" && dir == q.project then Some(60)
    else if q.projectGit != "" && (if dir != "" then q.gitRoot(dir) else "") == q.projectGit then Some(50)
    else if q.session == "" && q.thread == "" then None
    else Some(0)
  }

  function RecencyPoints(record: Row, q: Query): int
  {
    var m := q.mtime(PathOf(record));
    var hours := (q.now - (if m != 0.0 then m else NumberOf(record, "last_active_at"))) / 3600.0;
    var whole := if hours > 0.0 then hours.Floor else 0;
    if whole >= 20 then 0 else 20 - whole
  }

  /** The body of the candidate loop: the session asked for by name, thread or project, scored. */
  function CandidateOf(inv: Inventory, sid: string, q: Query): Option<Candidate>
  {
    var merged := RecordOf(inv, sid);
    if merged.None? || sid == q.current then None
    else
      var record := merged.value;
      var project := ProjectPoints(record, q);
      if (q.session != "" && sid != q.session) || (q.thread != "" && TextOf(record, "thread_id") != q.thread) || project.None? then None
      else
        var live := IsLive(inv, sid, q);
        Some(Candidate(sid, live, live || LeasedAway(inv, record, q),
          (if q.session != "" then 200 else 0) + (if q.thread != "" then 120 else 0) + project.value
          + (if TextOf(record, "status") in {"ended", "interrupted"} then 10 else 0) + RecencyPoints(record, q),
          q.mtime(PathOf(record))))
  }

  /** The candidates of the sessions in `order`, in that order. */
  function CandidatesIn(inv: Inventory, order: seq<string>, q: Query): seq<Candidate>
  {
    if order == [] then []
    else
      var c := CandidateOf(inv, order[|order| - 1], q);
      CandidatesIn(inv, order[..|order| - 1], q) + if c.Some? then [c.value] else []
  }

  method CollectCandidates(inv: Inventory, order: seq<string>, q: Query) returns (candidates: seq<Candidate>)
    ensures candidates == CandidatesIn(inv, order, q)
  {
    candidates := [];
    for n := 0 to |order|
      invariant candidates == CandidatesIn(inv, order[..n], q)
    {
      assert order[..n + 1][..n] == order[..n];
      var c := CandidateOf(inv, order[n], q);
      if c.Some? {
        candidates := candidates + [c.value];
      }
    }
    assert order[..|order|] == order;
  }

  // ---------------------------------------------------------------------------
  // The choice
  // ---------------------------------------------------------------------------

  datatype Status = NoneFound | Selected | Ambiguous | Locked | RegistryUnavailable

  /** Descending by score, then by modification time. */
  predicate Ahead(a: Candidate, b: Candidate)
  {
    a.score > b.score || (a.score == b.score && a.mtime >= b.mtime)
  }

  function Unlocked(candidates: seq<Candidate>): seq<Candidate>
  {
    if candidates == [] then []
    else (if candidates[0].locked then [] else [candidates[0]]) + Unlocked(candidates[1..])
  }

  /** The part of `select_resume` after the candidate loop. */
  function Choose(candidates: seq<Candidate>, q: Query, available: bool): (Status, Option<Candidate>)
  {
    var sorted := StableSort(candidates, Ahead);
    if !available then (RegistryUnavailable, None) else Pick(sorted, Unlocked(sorted), q)
  }

  function Pick(sorted: seq<Candidate>, unlocked: seq<Candidate>, q: Query): (Status, Option<Candidate>)
  {
    if q.session != "" && sorted != [] && sorted[0].locked then (Locked, None)
    else if unlocked != [] then
      if |unlocked| == 1 || unlocked[0].score - unlocked[1].score >= q.margin then (Selected, Some(unlocked[0]))
      else (Ambiguous, None)
    else if sorted != [] then (Locked, None)
    else (NoneFound, None)
  }

  /** `candidates` are the candidates of the inventory. */
  ghost predicate Candidates(inv: Inventory, q: Query, candidates: seq<Candidate>)
  {
    && (forall c :: c in candidates <==> CandidateOf(inv, c.sid, q) == Some(c))
    && (forall i, j :: 0 <= i < j < |candidates| ==> candidates[i].sid != candidates[j].sid)
  }

  /** What `select_resume` decides. */
  function Selection(inv: Inventory, q: Query): (Status, Option<Candidate>)
  {
    Choose(CandidatesIn(inv, OrderOf(inv), q), q, inv.available)
  }

  method SelectResume(inv: Inventory, q: Query) returns (status: Status, selected: Option<Candidate>)
    ensures (status, selected) == Selection(inv, q)
  {
    var records := MergeRecords(inv);
    var candidates := CollectCandidates(inv, records.order, q);
    var result := Choose(candidates, q, inv.available);
    status, selected := result.0, result.1;
  }

  lemma {:induction false} CandidatesInHas(inv: Inventory, order: seq<string>, q: Query, c: Candidate)
    ensures c in CandidatesIn(inv, order, q) <==> c.sid in order && CandidateOf(inv, c.sid, q) == Some(c)
  {
    if order != [] {
      var init, last := order[..|order| - 1], order[|order| - 1];
      CandidatesInHas(inv, init, q, c);
      CandidateNamed(inv, last, q);
      InSnoc(init, last, c.sid);
      InAppended(CandidatesIn(inv, init, q), CandidateOf(inv, last, q), c);
      assert order == init + [last];
    }
  }

  lemma CandidateNamed(inv: Inventory, sid: string, q: Query)
    ensures CandidateOf(inv, sid, q).Some? ==> CandidateOf(inv, sid, q).value.sid == sid
  {
  }

  lemma InSnoc<T>(s: seq<T>, last: T, x: T)
    ensures x in s + [last] <==> x in s || x == last
  {
  }

  lemma InAppended<T>(s: seq<T>, last: Option<T>, x: T)
    ensures x in s + (if last.Some? then [last.value] else []) <==> x in s || last == Some(x)
  {
  }

  lemma {:induction false} LastRowSome(rows: seq<Row>, sid: string)
    ensures LastRow(rows, sid).Some? <==> sid != "" && sid in IdsOf(rows, SessionId)
  {
    if rows != [] {
      var n := |rows| - 1;
      LastRowSome(rows[..n], sid);
      IdsSnoc(rows[..n], rows[n], SessionId);
      assert rows[..n] + [rows[n]] == rows;
    }
  }

  lemma {:induction false} TranscriptSome(rows: seq<Row>, sid: string)
    ensures Transcript(rows, sid).Some? <==> sid != "" && sid in IdsOf(rows, TranscriptId)
  {
    if rows != [] {
      var n := |rows| - 1;
      TranscriptSome(rows[..n], sid);
      IdsSnoc(rows[..n], rows[n], TranscriptId);
      assert rows[..n] + [rows[n]] == rows;
    }
  }

  /** The merge has a record for exactly the ids of the rows. */
  lemma OrderHas(inv: Inventory, sid: string)
    ensures sid in OrderOf(inv) <==> RecordOf(inv, sid).Some?
  {
    ExtendHas([], AllIds(inv), sid);
    TranscriptSome(inv.transcripts, sid);
    LastRowSome(inv.ledger, sid);
    LastRowSome(inv.daemon, sid);
  }

  lemma {:induction false} ExtendDistinct(order: seq<string>, ids: seq<string>)
    requires Distinct(order)
    ensures Distinct(Extend(order, ids))
  {
    if ids != [] {
      ExtendDistinct(order, ids[..|ids| - 1]);
    }
  }

  lemma {:induction false} CandidatesInDistinct(inv: Inventory, order: seq<string>, q: Query)
    requires Distinct(order)
    ensures var cs := CandidatesIn(inv, order, q); forall i, j :: 0 <= i < j < |cs| ==> cs[i].sid != cs[j].sid
  {
    if order != [] {
      var init, last := order[..|order| - 1], order[|order| - 1];
      CandidatesInDistinct(inv, init, q);
      var cs := CandidatesIn(inv, init, q);
      forall i | 0 <= i < |cs| ensures cs[i].sid != last {
        CandidatesInHas(inv, init, q, cs[i]);
      }
    }
  }

  /** The candidates that are chosen from are exactly those of the inventory, one for each session. */
  lemma AllCandidates(inv: Inventory, q: Query)
    ensures Candidates(inv, q, CandidatesIn(inv, OrderOf(inv), q)) && Distinct(CandidatesIn(inv, OrderOf(inv), q))
  {
    ExtendDistinct([], AllIds(inv));
    CandidatesInDistinct(inv, OrderOf(inv), q);
    forall c ensures c in CandidatesIn(inv, OrderOf(inv), q) <==> CandidateOf(inv, c.sid, q) == Some(c) {
      CandidatesInHas(inv, OrderOf(inv), q, c);
      OrderHas(inv, c.sid);
    }
  }

  /** Beats every other unlocked candidate by the margin. */
  ghost predicate Winner(candidates: seq<Candidate>, margin: int, c: Candidate)
  {
    && c in candidates && !c.locked
    && (forall d :: d in candidates && !d.locked && d != c ==> c.score - d.score >= margin)
  }

  lemma {:induction false} UnlockedHas(s: seq<Candidate>)
    ensures forall c :: c in Unlocked(s) <==> c in s && !c.locked
    ensures Distinct(s) ==> Distinct(Unlocked(s))
  {
    if s != [] {
      UnlockedHas(s[1..]);
      assert s == [s[0]] + s[1..];
    }
  }

  lemma {:induction false} UnlockedSorted(s: seq<Candidate>)
    requires SortedBy(s, Ahead)
    ensures SortedBy(Unlocked(s), Ahead)
  {
    if s != [] {
      UnlockedSorted(s[1..]);
      UnlockedHas(s[1..]);
      var u := Unlocked(s[1..]);
      forall i | 0 <= i < |u| ensures Ahead(s[0], u[i]) {
        assert u[i] in s[1..];
      }
    }
  }

  lemma AheadOrders()
    ensures TotalPreorder(Ahead)
  {
  }

  /** The unlocked candidates as `Choose` sees them: in order, without repetition, none missing. */
  lemma UnlockedInOrder(candidates: seq<Candidate>)
    requires Distinct(candidates)
    ensures var u := Unlocked(StableSort(candidates, Ahead));
            && (forall c :: c in u <==> c in candidates && !c.locked)
            && SortedBy(u, Ahead) && Distinct(u)
    ensures forall c :: c in StableSort(candidates, Ahead) <==> c in candidates
  {
    AheadOrders();
    var sorted := StableSort(candidates, Ahead);
    StableSortCorrect(candidates, Ahead);
    PermutationFacts(candidates, sorted);
    UnlockedHas(sorted);
    UnlockedSorted(sorted);
  }

  /** The first of two or more beats all others by what it beats the second by. */
  lemma FirstWins(u: seq<Candidate>, candidates: seq<Candidate>, margin: int)
    requires u != [] && SortedBy(u, Ahead) && forall c :: c in u <==> c in candidates && !c.locked
    requires |u| == 1 || u[0].score - u[1].score >= margin
    ensures Winner(candidates, margin, u[0])
  {
    assert u[0] in u;
    forall d | d in candidates && !d.locked && d != u[0] ensures u[0].score - d.score >= margin {
      assert d in u;
      var i :| 0 <= i < |u| && u[i] == d;
      assert i > 1 ==> Ahead(u[1], d);
    }
  }

  /** With a positive margin a winner is first, and ahead of the second by the margin. */
  lemma WinnerIsFirst(u: seq<Candidate>, candidates: seq<Candidate>, margin: int, c: Candidate)
    requires SortedBy(u, Ahead) && Distinct(u) && forall c :: c in u <==> c in candidates && !c.locked
    requires margin >= 1 && Winner(candidates, margin, c)
    ensures u != [] && u[0] == c && (|u| == 1 || u[0].score - u[1].score >= margin)
  {
    assert c in u;
    var i :| 0 <= i < |u| && u[i] == c;
    assert u[0] in u;
    assert i > 0 ==> Ahead(u[0], c);
    if |u| > 1 {
      assert u[1] in u && u[1] != u[0];
    }
  }

  /** What is selected beats every other unlocked candidate by the margin, and nothing is selected while the
      registry is unavailable. */
  lemma ChosenIsWinner(candidates: seq<Candidate>, q: Query, available: bool)
    requires Distinct(candidates)
    ensures var (status, selected) := Choose(candidates, q, available);
            && (selected.Some? <==> status.Selected?)
            && (selected.Some? ==> available && Winner(candidates, q.margin, selected.value))
  {
    var sorted := StableSort(candidates, Ahead);
    UnlockedInOrder(candidates);
    PickIsWinner(sorted, Unlocked(sorted), candidates, q);
  }

  lemma PickIsWinner(sorted: seq<Candidate>, u: seq<Candidate>, candidates: seq<Candidate>, q: Query)
    requires SortedBy(u, Ahead) && forall c :: c in u <==> c in candidates && !c.locked
    ensures var (status, selected) := Pick(sorted, u, q);
            && (selected.Some? <==> status.Selected?)
            && (selected.Some? ==> Winner(candidates, q.margin, selected.value))
  {
    if u != [] && (|u| == 1 || u[0].score - u[1].score >= q.margin) {
      FirstWins(u, candidates, q.margin);
    }
  }

  /** A request by name has at most one candidate. */
  ghost predicate Asked(candidates: seq<Candidate>, q: Query)
  {
    q.session != "" ==> |candidates| <= 1
  }

  /** With a positive margin exactly a winner is selected. */
  lemma WinnerIsChosen(candidates: seq<Candidate>, q: Query, c: Candidate)
    requires Distinct(candidates) && q.margin >= 1 && Asked(candidates, q)
    ensures Winner(candidates, q.margin, c) <==> Choose(candidates, q, true).1 == Some(c)
  {
    ChosenIsWinner(candidates, q, true);
    if Winner(candidates, q.margin, c) {
      UnlockedInOrder(candidates);
      StableSortCorrect(candidates, Ahead);
      WinnerIsFirst(Unlocked(StableSort(candidates, Ahead)), candidates, q.margin, c);
    }
  }

  /** The other outcomes, told without an order. */
  lemma StatusByMembership(candidates: seq<Candidate>, q: Query)
    requires Distinct(candidates) && Asked(candidates, q)
    ensures var (status, selected) := Choose(candidates, q, true);
            && (status.Selected? || status.Ambiguous? <==> exists c :: c in candidates && !c.locked)
            && (status.Locked? <==> candidates != [] && forall c :: c in candidates ==> c.locked)
            && (status.NoneFound? <==> candidates == [])
  {
    var sorted := StableSort(candidates, Ahead);
    UnlockedInOrder(candidates);
    StableSortCorrect(candidates, Ahead);
    PickByMembership(sorted, Unlocked(sorted), candidates, q);
  }

  lemma PickByMembership(sorted: seq<Candidate>, u: seq<Candidate>, candidates: seq<Candidate>, q: Query)
    requires |sorted| == |candidates| && Asked(candidates, q) && forall c :: c in sorted <==> c in candidates
    requires forall c :: c in u <==> c in candidates && !c.locked
    ensures var (status, selected) := Pick(sorted, u, q);
            && (status.Selected? || status.Ambiguous? <==> exists c :: c in candidates && !c.locked)
            && (status.Locked? <==> candidates != [] && forall c :: c in candidates ==> c.locked)
            && (status.NoneFound? <==> candidates == [])
  {
    if u != [] {
      assert u[0] in u;
    }
    if sorted != [] {
      assert sorted[0] in sorted && candidates[0] in candidates;
    }
    if c :| c in candidates && !c.locked {
      assert c in u;
    }
  }

  /** A selected session is not the current one, not live, not leased to another session, and beats every
      other unlocked candidate by the margin; and the registry was available. */
  lemma SelectionSafe(inv: Inventory, q: Query, c: Candidate)
    requires Selection(inv, q).1 == Some(c)
    ensures inv.available && c.sid != q.current && !IsLive(inv, c.sid, q)
    ensures RecordOf(inv, c.sid).Some? && !LeasedAway(inv, RecordOf(inv, c.sid).value, q)
    ensures CandidateOf(inv, c.sid, q) == Some(c)
    ensures forall d: Candidate :: CandidateOf(inv, d.sid, q) == Some(d) && !d.locked && d != c ==> c.score - d.score >= q.margin
  {
    var candidates := CandidatesIn(inv, OrderOf(inv), q);
    AllCandidates(inv, q);
    ChosenIsWinner(candidates, q, inv.available);
    assert c in candidates;
  }

  /** Nothing is selected, and the status says so, while the registry is unavailable. */
  lemma FailsClosed(inv: Inventory, q: Query)
    ensures Selection(inv, q).0.RegistryUnavailable? <==> !inv.available
    ensures Selection(inv, q).1.Some? <==> Selection(inv, q).0.Selected?
  {
    AllCandidates(inv, q);
    ChosenIsWinner(CandidatesIn(inv, OrderOf(inv), q), q, inv.available);
  }

  lemma RequestedAlone(inv: Inventory, q: Query)
    ensures Asked(CandidatesIn(inv, OrderOf(inv), q), q)
  {
    var cs := CandidatesIn(inv, OrderOf(inv), q);
    AllCandidates(inv, q);
    if q.session != "" && |cs| > 1 {
      RequestedAt(inv, q, cs, 0);
      RequestedAt(inv, q, cs, 1);
    }
  }

  lemma RequestedAt(inv: Inventory, q: Query, candidates: seq<Candidate>, i: nat)
    requires Candidates(inv, q, candidates) && q.session != "" && i < |candidates|
    ensures candidates[i].sid == q.session
  {
    assert candidates[i] in candidates;
  }
}
