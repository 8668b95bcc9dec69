/** What resume selection reads from its rows, told by their fields (chitta-mcp/resume_selector.py): which sessions are
    running, which threads are leased, which source a field comes from, and what a candidate scores. */
module ResumeFields {
  import opened Prelude
  import opened ResumeSelector

  predicate Names(row: Row, key: string, text: string)
  {
    key in row && row[key] == Text(text)
  }

  predicate Falsy(v: Value)
  {
    v == Null || v == Flag(false) || v == Number(0.0) || v == Text("")
  }

  function NumberIn(row: Row, key: string): real
  {
    if key in row && row[key].Number? then row[key].number else 0.0
  }

  /** `rows[i]` is the last row that names the session. */
  ghost predicate LastNaming(rows: seq<Row>, key: string, text: string, i: nat)
  {
    i < |rows| && Names(rows[i], key, text) && forall j :: i < j < |rows| ==> !Names(rows[j], key, text)
  }

  lemma {:induction false} LastRowAt(rows: seq<Row>, sid: string, i: nat)
    requires sid != "" && LastNaming(rows, "session_id", sid, i)
    ensures LastRow(rows, sid) == Some(rows[i])
  {
    if i < |rows| - 1 {
      assert !Names(rows[|rows| - 1], "session_id", sid);
      LastRowAt(rows[..|rows| - 1], sid, i);
    }
  }

  // ---------------------------------------------------------------------------
  // Running sessions
  // ---------------------------------------------------------------------------

  /** A heartbeat, or else a time stamp, in milliseconds and at most a quarter of an hour old. */
  predicate FreshBeat(row: Row, q: Query)
  {
    var beat := if NumberIn(row, "last_heartbeat_ms") != 0.0 then NumberIn(row, "last_heartbeat_ms") else NumberIn(row, "ts_ms");
    beat.Floor > 1000000000000 && (q.now * 1000.0).Floor - beat.Floor <= 900000
  }

  /** The registry row of a session that does not run: it says so; or has a status, and not that of an active one; or
      neither a fresh heartbeat nor a living process. */
  predicate Gone(row: Row, q: Query)
  {
    || ("is_live" in row && Falsy(row["is_live"]))
    || ("is_live" !in row && "status" in row && row["status"] !in {Null, Text(""), Text("active")})
    || ("is_live" !in row && !FreshBeat(row, q) && !q.pidAlive(if "pid" in row then row["pid"] else Null))
  }

  lemma GoneIff(row: Row, q: Query)
    ensures EntryLive(row, q) <==> !Gone(row, q)
  {
    if "is_live" in row {
      match row["is_live"]
      case Null =>
      case Flag(b) =>
      case Number(n) =>
      case Text(s) =>
    }
  }

  lemma CandidateHasId(inv: Inventory, q: Query, c: Candidate)
    requires CandidateOf(inv, c.sid, q) == Some(c)
    ensures c.sid != ""
  {
    OrderHas(inv, c.sid);
    ExtendHas([], AllIds(inv), c.sid);
  }

  /** The selected session does not run, by its last row in the registry. */
  lemma SelectedGone(inv: Inventory, q: Query, c: Candidate, i: nat)
    requires Selection(inv, q).1 == Some(c) && LastNaming(inv.daemon, "session_id", c.sid, i)
    ensures Gone(inv.daemon[i], q)
  {
    SelectionSafe(inv, q, c);
    CandidateHasId(inv, q, c);
    LastRowAt(inv.daemon, c.sid, i);
    GoneIff(inv.daemon[i], q);
  }

  /** A candidate whose last row in the registry is that of a running session is locked. */
  lemma RunningLocked(inv: Inventory, q: Query, c: Candidate, i: nat)
    requires CandidateOf(inv, c.sid, q) == Some(c) && LastNaming(inv.daemon, "session_id", c.sid, i)
    requires !Gone(inv.daemon[i], q)
    ensures c.live && c.locked
  {
    CandidateHasId(inv, q, c);
    LastRowAt(inv.daemon, c.sid, i);
    GoneIff(inv.daemon[i], q);
  }

  /** Without a row in the registry nothing says that a candidate runs. */
  lemma UnregisteredNotLive(inv: Inventory, q: Query, c: Candidate)
    requires CandidateOf(inv, c.sid, q) == Some(c) && forall i :: 0 <= i < |inv.daemon| ==> !Names(inv.daemon[i], "session_id", c.sid)
    ensures !c.live
  {
    CandidateHasId(inv, q, c);
    NoRow(inv.daemon, c.sid);
  }

  lemma {:induction false} NoRow(rows: seq<Row>, sid: string)
    requires sid != "" && forall i :: 0 <= i < |rows| ==> !Names(rows[i], "session_id", sid)
    ensures LastRow(rows, sid) == None
  {
    if rows != [] {
      NoRow(rows[..|rows| - 1], sid);
    }
  }

  // ---------------------------------------------------------------------------
  // Leased threads
  // ---------------------------------------------------------------------------

  /** `leases[i]` is the last unexpired lease of the thread. */
  ghost predicate Leases(leases: seq<Row>, thread: string, now: real, i: nat)
  {
    && i < |leases| && Names(leases[i], "thread_id", thread) && NumberIn(leases[i], "expires_at") > now
    && forall j :: i < j < |leases| ==> !(Names(leases[j], "thread_id", thread) && NumberIn(leases[j], "expires_at") > now)
  }

  lemma {:induction false} LeaseAt(leases: seq<Row>, thread: string, now: real, i: nat)
    requires thread != "" && Leases(leases, thread, now, i)
    ensures forall owner :: Names(leases[i], "session_id", owner) ==> LeaseOwner(leases, thread, now) == owner
    ensures (forall owner :: !Names(leases[i], "session_id", owner)) ==> LeaseOwner(leases, thread, now) == ""
  {
    if i < |leases| - 1 {
      LeaseAt(leases[..|leases| - 1], thread, now, i);
    } else if "session_id" in leases[i] && leases[i]["session_id"].Text? {
      assert Names(leases[i], "session_id", leases[i]["session_id"].text);
    }
  }

  /** A candidate whose thread is leased to another session, by its last unexpired lease, is locked, and one that is
      selected has no such lease. */
  lemma LeasedLocked(inv: Inventory, q: Query, c: Candidate, thread: string, i: nat, owner: string)
    requires CandidateOf(inv, c.sid, q) == Some(c) && thread != "" && RecordOf(inv, c.sid).Some?
    requires Names(RecordOf(inv, c.sid).value, "thread_id", thread)
    requires Leases(inv.leases, thread, q.now, i) && Names(inv.leases[i], "session_id", owner)
    ensures owner != "" && owner != q.current ==> c.locked && Selection(inv, q).1 != Some(c)
    ensures (owner == "" || owner == q.current) ==> c.locked == c.live
  {
    LeaseAt(inv.leases, thread, q.now, i);
    if Selection(inv, q).1 == Some(c) {
      SelectionSafe(inv, q, c);
    }
  }

  // ---------------------------------------------------------------------------
  // Where a field comes from
  // ---------------------------------------------------------------------------

  predicate Sets(row: Row, key: string)
  {
    key in row && row[key] != Null && row[key] != Text("")
  }

  /** A field that the registry sets is the registry's. */
  lemma RegistryWins(inv: Inventory, sid: string, i: nat, key: string)
    requires sid != "" && LastNaming(inv.daemon, "session_id", sid, i) && Sets(inv.daemon[i], key)
    ensures RecordOf(inv, sid).Some? && key in RecordOf(inv, sid).value
    ensures RecordOf(inv, sid).value[key] == inv.daemon[i][key]
  {
    LastRowAt(inv.daemon, sid, i);
  }

  /** Else a field that the ledger sets is the ledger's. */
  lemma LedgerNext(inv: Inventory, sid: string, i: nat, key: string)
    requires sid != "" && LastNaming(inv.ledger, "session_id", sid, i) && Sets(inv.ledger[i], key)
    requires LastRow(inv.daemon, sid).Some? ==> !Sets(LastRow(inv.daemon, sid).value, key)
    ensures RecordOf(inv, sid).Some? && key in RecordOf(inv, sid).value
    ensures RecordOf(inv, sid).value[key] == inv.ledger[i][key]
  {
    LastRowAt(inv.ledger, sid, i);
  }

  /** Else it is that of the session's last transcript that has it, set or not. */
  lemma TranscriptElse(inv: Inventory, sid: string, i: nat, key: string)
    requires sid != "" && i < |inv.transcripts| && TranscriptId(inv.transcripts[i]) == sid && key in inv.transcripts[i]
    requires forall j :: i < j < |inv.transcripts| && TranscriptId(inv.transcripts[j]) == sid ==> key !in inv.transcripts[j]
    requires LastRow(inv.daemon, sid).Some? ==> !Sets(LastRow(inv.daemon, sid).value, key)
    requires LastRow(inv.ledger, sid).Some? ==> !Sets(LastRow(inv.ledger, sid).value, key)
    ensures RecordOf(inv, sid).Some? && key in RecordOf(inv, sid).value
    ensures RecordOf(inv, sid).value[key] == inv.transcripts[i][key]
  {
    TranscriptField(inv.transcripts, sid, i, key);
  }

  lemma {:induction false} TranscriptField(rows: seq<Row>, sid: string, i: nat, key: string)
    requires sid != "" && i < |rows| && TranscriptId(rows[i]) == sid && key in rows[i]
    requires forall j :: i < j < |rows| && TranscriptId(rows[j]) == sid ==> key !in rows[j]
    ensures Transcript(rows, sid).Some? && key in Transcript(rows, sid).value
    ensures Transcript(rows, sid).value[key] == rows[i][key]
  {
    if i < |rows| - 1 {
      TranscriptField(rows[..|rows| - 1], sid, i, key);
    }
  }

  /** The transcript id stands in for a missing session id. */
  lemma TranscriptNamed(row: Row, sid: string)
    requires sid != ""
    ensures Names(row, "session_id", sid) ==> TranscriptId(row) == sid
    ensures ("session_id" !in row || Falsy(row["session_id"])) && Names(row, "transcript_id", sid) ==> TranscriptId(row) == sid
  {
  }

  /** The path of a session's transcript, under its newer name and else under its older one. */
  lemma PathNamed(record: Row, path: string)
    requires path != ""
    ensures Names(record, "transcript_path", path) ==> PathOf(record) == path
    ensures ("transcript_path" !in record || Falsy(record["transcript_path"])) && Names(record, "path", path) ==> PathOf(record) == path
  {
  }

  // ---------------------------------------------------------------------------
  // Scores
  // ---------------------------------------------------------------------------

  /** A transcript of an ended session in directory "p", last active at time 0. */
  function Ended(): Row
  {
    map["session_id" := Text("x"), "thread_id" := Text("t"), "project_dir" := Text("p"), "status" := Text("ended"),
        "last_active_at" := Number(0.0)]
  }

  function OnlyEnded(): Inventory
  {
    Inventory([Ended()], [], [], [], true)
  }

  lemma EndedRecord(sid: string)
    ensures RecordOf(OnlyEnded(), sid) == if sid == "x" then Some(Ended()) else None
  {
    var rows := OnlyEnded().transcripts;
    assert rows[..0] == [] && TranscriptId(rows[0]) == "x";
    assert Transcript(rows[..0], sid) == None;
    assert map[] + Ended() == Ended();
  }

  /** Two hours after its end: 60 points for the directory or 50 for the git root, 10 for having ended, 18 for being
      recent, 200 if the session was asked for and 120 if its thread was. */
  lemma EndedScore(q: Query)
    requires q.now == 7200.0 && q.mtime("") == 0.0 && q.current != "x"
    requires q.session in {"", "x"} && q.thread in {"", "t"} && q.project != ""
    ensures var asked := (if q.session == "x" then 200 else 0) + (if q.thread == "t" then 120 else 0);
            && (q.canonical("p") == q.project ==>
                  CandidateOf(OnlyEnded(), "x", q) == Some(Candidate("x", false, false, asked + 88, 0.0)))
            && (q.canonical("p") != q.project && q.canonical("p") != "" && q.gitRoot(q.canonical("p")) == q.projectGit != "" ==>
                  CandidateOf(OnlyEnded(), "x", q) == Some(Candidate("x", false, false, asked + 78, 0.0)))
            && (q.canonical("p") != q.project && q.projectGit == "" ==>
                  CandidateOf(OnlyEnded(), "x", q)
                  == if asked == 0 then None else Some(Candidate("x", false, false, asked + 28, 0.0)))
  {
    EndedRecord("x");
    EndedFields(q);
  }

  lemma EndedFields(q: Query)
    requires q.now == 7200.0 && q.mtime("") == 0.0
    ensures TextOf(Ended(), "project_dir") == "p" && TextOf(Ended(), "status") == "ended" && TextOf(Ended(), "thread_id") == "t"
    ensures PathOf(Ended()) == "" && RecencyPoints(Ended(), q) == 18
  {
    assert (7200.0 - NumberOf(Ended(), "last_active_at")) / 3600.0 == 2.0;
    assert 2.0.Floor == 2;
  }

  /** A session that was active in the last hour gets 20 points, and one less for each full hour, down to none. */
  lemma RecencyExact(record: Row, q: Query, hours: nat)
    requires var since := q.now - (if q.mtime(PathOf(record)) != 0.0 then q.mtime(PathOf(record)) else NumberOf(record, "last_active_at"));
             hours as real * 3600.0 <= since < (hours + 1) as real * 3600.0
    ensures RecencyPoints(record, q) == if hours >= 20 then 0 else 20 - hours
  {
    var since := q.now - (if q.mtime(PathOf(record)) != 0.0 then q.mtime(PathOf(record)) else NumberOf(record, "last_active_at"));
    assert hours as real <= since / 3600.0 < (hours + 1) as real;
    assert (since / 3600.0).Floor == hours;
  }
}
