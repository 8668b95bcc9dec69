/** Which resume decisions depend on the order of the inventory (chitta-mcp/resume_selector.py). */
module ResumeOrder {
  import opened Prelude
  import opened ResumeSelector

  // ---------------------------------------------------------------------------
  // Reordering an inventory
  // ---------------------------------------------------------------------------

  /** No session id occurs twice among the rows of a source. */
  ghost predicate DistinctIds(rows: seq<Row>, id: Row -> string)
  {
    forall i, j :: 0 <= i < j < |rows| && id(rows[i]) != "" ==> id(rows[i]) != id(rows[j])
  }

  lemma {:induction false} LastRowHas(rows: seq<Row>, sid: string, row: Row)
    requires DistinctIds(rows, SessionId) && sid != ""
    ensures LastRow(rows, sid) == Some(row) <==> row in rows && SessionId(row) == sid
  {
    if rows != [] {
      var init, last := rows[..|rows| - 1], rows[|rows| - 1];
      LastRowHas(init, sid, row);
      assert rows == init + [last];
    }
  }

  lemma LastRowPermutes(a: seq<Row>, b: seq<Row>, sid: string)
    requires multiset(a) == multiset(b) && DistinctIds(a, SessionId) && DistinctIds(b, SessionId)
    ensures LastRow(a, sid) == LastRow(b, sid)
  {
    PermutationFacts(a, b);
    if sid != "" {
      if LastRow(a, sid).Some? {
        LastRowHas(a, sid, LastRow(a, sid).value);
        LastRowHas(b, sid, LastRow(a, sid).value);
      } else if LastRow(b, sid).Some? {
        LastRowHas(a, sid, LastRow(b, sid).value);
        LastRowHas(b, sid, LastRow(b, sid).value);
      }
    }
  }

  lemma {:induction false} TranscriptHas(rows: seq<Row>, sid: string, row: Row)
    requires DistinctIds(rows, TranscriptId) && sid != ""
    ensures row in rows && TranscriptId(row) == sid ==> Transcript(rows, sid) == Some(map[] + row)
    ensures (forall r :: r in rows ==> TranscriptId(r) != sid) ==> Transcript(rows, sid) == None
  {
    if rows != [] {
      var init, last := rows[..|rows| - 1], rows[|rows| - 1];
      TranscriptHas(init, sid, row);
      assert rows == init + [last];
      if TranscriptId(last) == sid {
        assert forall r :: r in init ==> TranscriptId(r) != sid;
      }
    }
  }

  lemma TranscriptPermutes(a: seq<Row>, b: seq<Row>, sid: string)
    requires multiset(a) == multiset(b) && DistinctIds(a, TranscriptId) && DistinctIds(b, TranscriptId)
    ensures Transcript(a, sid) == Transcript(b, sid)
  {
    PermutationFacts(a, b);
    if sid != "" {
      if row :| row in a && TranscriptId(row) == sid {
        TranscriptHas(a, sid, row);
        TranscriptHas(b, sid, row);
      } else {
        TranscriptHas(a, sid, map[]);
        TranscriptHas(b, sid, map[]);
      }
    }
  }

  function ThreadId(row: Row): string
  {
    TextOf(row, "thread_id")
  }

  lemma {:induction false} LeaseOwnerHas(leases: seq<Row>, thread: string, now: real, row: Row)
    requires DistinctIds(leases, ThreadId) && thread != ""
    ensures row in leases && ThreadId(row) == thread && NumberOf(row, "expires_at") > now
            ==> LeaseOwner(leases, thread, now) == SessionId(row)
    ensures (forall r :: r in leases && ThreadId(r) == thread ==> NumberOf(r, "expires_at") <= now)
            ==> LeaseOwner(leases, thread, now) == ""
  {
    if leases != [] {
      var init, last := leases[..|leases| - 1], leases[|leases| - 1];
      LeaseOwnerHas(init, thread, now, row);
      assert leases == init + [last];
    }
  }

  lemma LeaseOwnerPermutes(a: seq<Row>, b: seq<Row>, thread: string, now: real)
    requires multiset(a) == multiset(b) && DistinctIds(a, ThreadId) && DistinctIds(b, ThreadId)
    ensures LeaseOwner(a, thread, now) == LeaseOwner(b, thread, now)
  {
    PermutationFacts(a, b);
    if thread != "" {
      if row :| row in a && ThreadId(row) == thread && NumberOf(row, "expires_at") > now {
        LeaseOwnerHas(a, thread, now, row);
        LeaseOwnerHas(b, thread, now, row);
      } else {
        LeaseOwnerHas(a, thread, now, map[]);
        LeaseOwnerHas(b, thread, now, map[]);
      }
    }
  }

  /** No session id twice in any source and no thread leased twice. */
  ghost predicate NoRepeats(inv: Inventory)
  {
    && DistinctIds(inv.leases, ThreadId) && DistinctIds(inv.transcripts, TranscriptId)
    && DistinctIds(inv.ledger, SessionId) && DistinctIds(inv.daemon, SessionId)
  }

  /** The same rows in another order. */
  ghost predicate Reordered(a: Inventory, b: Inventory)
  {
    && multiset(a.transcripts) == multiset(b.transcripts) && multiset(a.ledger) == multiset(b.ledger)
    && multiset(a.daemon) == multiset(b.daemon) && multiset(a.leases) == multiset(b.leases)
    && a.available == b.available && NoRepeats(a) && NoRepeats(b)
  }

  lemma RecordOrderFree(a: Inventory, b: Inventory, sid: string)
    requires Reordered(a, b)
    ensures RecordOf(a, sid) == RecordOf(b, sid) && LastRow(a.daemon, sid) == LastRow(b.daemon, sid)
  {
    TranscriptPermutes(a.transcripts, b.transcripts, sid);
    LastRowPermutes(a.ledger, b.ledger, sid);
    LastRowPermutes(a.daemon, b.daemon, sid);
  }

  /** Reordering changes no candidate. */
  lemma CandidateOrderFree(a: Inventory, b: Inventory, q: Query, sid: string)
    requires Reordered(a, b)
    ensures CandidateOf(a, sid, q) == CandidateOf(b, sid, q)
  {
    RecordOrderFree(a, b, sid);
    if RecordOf(a, sid).Some? {
      LeaseOwnerPermutes(a.leases, b.leases, TextOf(RecordOf(a, sid).value, "thread_id"), q.now);
    }
    SameCandidate(a, b, q, sid);
  }

  /** All that a candidate depends on. */
  lemma SameCandidate(a: Inventory, b: Inventory, q: Query, sid: string)
    requires RecordOf(a, sid) == RecordOf(b, sid) && IsLive(a, sid, q) == IsLive(b, sid, q)
    requires RecordOf(a, sid).Some? ==> LeasedAway(a, RecordOf(a, sid).value, q) == LeasedAway(b, RecordOf(a, sid).value, q)
    ensures CandidateOf(a, sid, q) == CandidateOf(b, sid, q)
  {
  }

  /** The candidates in the order in which they are chosen from. */
  function Listed(inv: Inventory, q: Query): seq<Candidate>
  {
    CandidatesIn(inv, OrderOf(inv), q)
  }

  lemma SameCandidates(a: Inventory, b: Inventory, q: Query)
    requires Reordered(a, b)
    ensures Distinct(Listed(a, q)) && Distinct(Listed(b, q)) && forall c :: c in Listed(a, q) <==> c in Listed(b, q)
  {
    AllCandidates(a, q);
    AllCandidates(b, q);
    forall c ensures c in Listed(a, q) <==> c in Listed(b, q) {
      CandidateOrderFree(a, b, q, c.sid);
    }
  }

  // ---------------------------------------------------------------------------
  // With a margin, or a request by name, order does not matter
  // ---------------------------------------------------------------------------

  lemma SameIfShort(a: seq<Candidate>, b: seq<Candidate>)
    requires |a| <= 1 && |b| <= 1 && forall c :: c in a <==> c in b
    ensures a == b
  {
    if a != [] {
      assert a[0] in b;
    }
    if b != [] {
      assert b[0] in a;
    }
  }

  lemma WinnerOrderFree(a: seq<Candidate>, b: seq<Candidate>, q: Query)
    requires Distinct(a) && Distinct(b) && forall c :: c in a <==> c in b
    requires q.margin >= 1 && Asked(a, q) && Asked(b, q)
    ensures Choose(a, q, true).1 == Choose(b, q, true).1
  {
    var x, y := Choose(a, q, true).1, Choose(b, q, true).1;
    if x.Some? {
      WinnerIsChosen(a, q, x.value);
      WinnerIsChosen(b, q, x.value);
    } else if y.Some? {
      WinnerIsChosen(a, q, y.value);
      WinnerIsChosen(b, q, y.value);
    }
  }

  /** Once the selection agrees, so does the status. */
  lemma StatusFollows(a: seq<Candidate>, b: seq<Candidate>, q: Query)
    requires Distinct(a) && Distinct(b) && forall c :: c in a <==> c in b
    requires Asked(a, q) && Asked(b, q) && Choose(a, q, true).1 == Choose(b, q, true).1
    ensures Choose(a, q, true) == Choose(b, q, true)
  {
    StatusByMembership(a, q);
    StatusByMembership(b, q);
    ChosenIsWinner(a, q, true);
    ChosenIsWinner(b, q, true);
    assert a != [] ==> a[0] in b;
    assert b != [] ==> b[0] in a;
  }

  /** With a margin of at least one and no id twice in a source, status and selection do not depend on the order of
      the inventory; nor do they for a session asked for by name, or without a registry, whatever the margin. */
  lemma SelectionOrderFree(a: Inventory, b: Inventory, q: Query)
    requires Reordered(a, b) && (q.margin >= 1 || q.session != "" || !a.available)
    ensures Selection(a, q) == Selection(b, q)
  {
    SameCandidates(a, b, q);
    RequestedAlone(a, q);
    RequestedAlone(b, q);
    if q.session != "" {
      SameIfShort(Listed(a, q), Listed(b, q));
    } else if a.available {
      WinnerOrderFree(Listed(a, q), Listed(b, q), q);
      StatusFollows(Listed(a, q), Listed(b, q), q);
    }
  }

  // ---------------------------------------------------------------------------
  // Without a margin the first of the best is selected
  // ---------------------------------------------------------------------------

  ghost predicate Tied(x: Candidate, y: Candidate)
  {
    Ahead(x, y) && Ahead(y, x)
  }

  /** An unlocked candidate that no other is ahead of. */
  ghost predicate TopIn(candidates: seq<Candidate>, c: Candidate)
  {
    c in candidates && !c.locked && forall d :: d in candidates && !d.locked ==> Ahead(c, d)
  }

  lemma ConsTies(y: Candidate, s: seq<Candidate>, x: Candidate)
    ensures Ties([y] + s, x, Ahead) == if Tied(x, y) then [y] + Ties(s, x, Ahead) else Ties(s, x, Ahead)
  {
    assert ([y] + s)[1..] == s;
  }

  lemma ConsUnlocked(y: Candidate, s: seq<Candidate>)
    ensures Unlocked([y] + s) == if y.locked then Unlocked(s) else [y] + Unlocked(s)
  {
    assert ([y] + s)[1..] == s;
  }

  /** The unlocked candidates that tie with `x`, in order. */
  ghost function Free(s: seq<Candidate>, x: Candidate): seq<Candidate>
  {
    if s == [] then []
    else if Tied(x, s[0]) && !s[0].locked then [s[0]] + Free(s[1..], x)
    else Free(s[1..], x)
  }

  lemma {:induction false} UnlockedTies(s: seq<Candidate>, x: Candidate)
    ensures Unlocked(Ties(s, x, Ahead)) == Free(s, x) == Ties(Unlocked(s), x, Ahead)
  {
    if s != [] {
      var y, rest := s[0], s[1..];
      assert s == [y] + rest;
      UnlockedTies(rest, x);
      ConsTies(y, rest, x);
      ConsUnlocked(y, rest);
      ConsUnlocked(y, Ties(rest, x, Ahead));
      ConsTies(y, Unlocked(rest), x);
    }
  }

  /** The first of them, found in the list itself. */
  lemma {:induction false} FirstTied(s: seq<Candidate>, x: Candidate) returns (i: nat)
    requires Free(s, x) != []
    ensures i < |s| && s[i] == Free(s, x)[0]
    ensures forall j :: 0 <= j < i ==> s[j].locked || !Tied(x, s[j])
  {
    i := 0;
    if s[0].locked || !Tied(x, s[0]) {
      var k := FirstTied(s[1..], x);
      i := k + 1;
    }
  }

  /** Sorting is stable, so the first of the best is the first of them in the list. */
  lemma FirstOfSorted(candidates: seq<Candidate>, x: Candidate) returns (i: nat)
    requires Distinct(candidates)
    requires var u := Unlocked(StableSort(candidates, Ahead)); u != [] && u[0] == x
    ensures i < |candidates| && candidates[i] == x && TopIn(candidates, x)
    ensures forall j :: 0 <= j < i ==> !TopIn(candidates, candidates[j])
  {
    AheadOrders();
    var sorted := StableSort(candidates, Ahead);
    var u := Unlocked(sorted);
    UnlockedInOrder(candidates);
    assert u[0] in u && forall d :: d in u ==> Ahead(x, d);
    StableSortStable(candidates, x, Ahead);
    UnlockedTies(sorted, x);
    UnlockedTies(candidates, x);
    assert Ties(u, x, Ahead)[0] == x;
    i := FirstTied(candidates, x);
    forall j | 0 <= j < i ensures !TopIn(candidates, candidates[j]) {
      assert candidates[j].locked || !Tied(x, candidates[j]);
    }
  }

  lemma PickFirst(candidates: seq<Candidate>, q: Query)
    requires Distinct(candidates) && q.session == "" && q.margin <= 0
    ensures var u := Unlocked(StableSort(candidates, Ahead));
            Choose(candidates, q, true).1 == if u == [] then None else Some(u[0])
  {
    UnlockedInOrder(candidates);
    var u := Unlocked(StableSort(candidates, Ahead));
    assert |u| > 1 ==> Ahead(u[0], u[1]);
  }

  // ---------------------------------------------------------------------------
  // Where a session stands in the merge
  // ---------------------------------------------------------------------------

  /** Where `x` first occurs, or the length. */
  function FirstAt(ids: seq<string>, x: string): (k: nat)
    ensures k <= |ids| && (k < |ids| <==> x in ids)
    ensures k < |ids| ==> ids[k] == x
    ensures forall i :: 0 <= i < k ==> ids[i] != x
  {
    if ids == [] || ids[0] == x then 0 else 1 + FirstAt(ids[1..], x)
  }

  function Rank(inv: Inventory, sid: string): nat
  {
    FirstAt(AllIds(inv), sid)
  }

  function RankIn(inv: Inventory): string -> nat
  {
    (sid: string) => Rank(inv, sid)
  }

  lemma FirstAtSnoc(ids: seq<string>, id: string, x: string)
    ensures FirstAt(ids + [id], x) == if x in ids then FirstAt(ids, x) else if x == id then |ids| else |ids| + 1
  {
    var k, n := FirstAt(ids + [id], x), FirstAt(ids, x);
    assert forall i :: 0 <= i < |ids| ==> (ids + [id])[i] == ids[i];
    assert (ids + [id])[|ids|] == id;
  }

  ghost predicate InOrderOf(order: seq<string>, ids: seq<string>)
  {
    forall i, j :: 0 <= i < j < |order| ==> FirstAt(ids, order[i]) < FirstAt(ids, order[j])
  }

  /** Insertion order is order of first appearance. */
  lemma {:induction false} ExtendSorted(ids: seq<string>)
    ensures InOrderOf(Extend([], ids), ids)
  {
    if ids != [] {
      var init, id := ids[..|ids| - 1], ids[|ids| - 1];
      assert ids == init + [id];
      ExtendSorted(init);
      var before := Extend([], init);
      forall i | 0 <= i < |before| ensures before[i] in init && FirstAt(ids, before[i]) == FirstAt(init, before[i]) {
        ExtendHas([], init, before[i]);
        FirstAtSnoc(init, id, before[i]);
      }
      ExtendHas([], init, id);
      FirstAtSnoc(init, id, id);
    }
  }

  ghost predicate RankedBy(candidates: seq<Candidate>, rank: string -> nat)
  {
    forall i, j :: 0 <= i < j < |candidates| ==> rank(candidates[i].sid) < rank(candidates[j].sid)
  }

  lemma {:induction false} CandidatesSorted(inv: Inventory, order: seq<string>, q: Query, rank: string -> nat)
    requires forall i, j :: 0 <= i < j < |order| ==> rank(order[i]) < rank(order[j])
    ensures RankedBy(CandidatesIn(inv, order, q), rank)
  {
    if order != [] {
      var init, last := order[..|order| - 1], order[|order| - 1];
      CandidatesSorted(inv, init, q, rank);
      var cs := CandidatesIn(inv, init, q);
      forall i | 0 <= i < |cs| ensures rank(cs[i].sid) < rank(last) {
        CandidatesInHas(inv, init, q, cs[i]);
      }
    }
  }

  lemma ListedSorted(inv: Inventory, q: Query)
    ensures RankedBy(Listed(inv, q), RankIn(inv))
  {
    var ids, order := AllIds(inv), OrderOf(inv);
    ExtendSorted(ids);
    assert InOrderOf(order, ids);
    forall i, j | 0 <= i < j < |order| ensures RankIn(inv)(order[i]) < RankIn(inv)(order[j]) {
      assert FirstAt(ids, order[i]) < FirstAt(ids, order[j]);
    }
    CandidatesSorted(inv, order, q, RankIn(inv));
  }

  /** An unlocked candidate of the inventory that no other is ahead of. */
  ghost predicate Top(inv: Inventory, q: Query, c: Candidate)
  {
    && CandidateOf(inv, c.sid, q) == Some(c) && !c.locked
    && forall d: Candidate :: CandidateOf(inv, d.sid, q) == Some(d) && !d.locked ==> Ahead(c, d)
  }

  lemma TopIsTopIn(inv: Inventory, q: Query, c: Candidate)
    ensures Top(inv, q, c) <==> TopIn(Listed(inv, q), c)
  {
    AllCandidates(inv, q);
  }

  /** `c` is a best candidate, and the merge met it before every other one. */
  ghost predicate FirstTop(inv: Inventory, q: Query, c: Candidate)
  {
    Top(inv, q, c) && forall d: Candidate :: Top(inv, q, d) && d != c ==> Rank(inv, c.sid) < Rank(inv, d.sid)
  }

  /** What is selected without a margin was met first among the best, and something is as soon as there is one. */
  lemma SelectedFirst(inv: Inventory, q: Query)
    requires inv.available && q.session == "" && q.margin <= 0
    ensures Selection(inv, q).1.Some? ==> FirstTop(inv, q, Selection(inv, q).1.value)
    ensures Selection(inv, q).1.None? ==> forall c: Candidate :: !Top(inv, q, c)
  {
    var cs := Listed(inv, q);
    AllCandidates(inv, q);
    PickFirst(cs, q);
    var u := Unlocked(StableSort(cs, Ahead));
    if u == [] {
      forall c: Candidate ensures !Top(inv, q, c) {
        UnlockedInOrder(cs);
        assert c !in u;
      }
    } else {
      var i := FirstOfSorted(cs, u[0]);
      TopIsTopIn(inv, q, cs[i]);
      forall d: Candidate | Top(inv, q, d) && d != cs[i] ensures Rank(inv, cs[i].sid) < Rank(inv, d.sid) {
        TopIsTopIn(inv, q, d);
        LaterRank(inv, q, i, d);
      }
    }
  }

  lemma LaterRank(inv: Inventory, q: Query, i: nat, d: Candidate)
    requires i < |Listed(inv, q)| && d in Listed(inv, q) && d != Listed(inv, q)[i]
    requires forall j :: 0 <= j < i ==> Listed(inv, q)[j] != d
    ensures Rank(inv, Listed(inv, q)[i].sid) < Rank(inv, d.sid)
  {
    ListedSorted(inv, q);
    var cs := Listed(inv, q);
    var j :| 0 <= j < |cs| && cs[j] == d;
    assert RankIn(inv)(cs[i].sid) < RankIn(inv)(cs[j].sid);
  }

  /** Without a margin, and with nothing asked for by name, exactly the best candidate that the merge met first is
      selected. */
  lemma SelectsFirstTop(inv: Inventory, q: Query, c: Candidate)
    requires inv.available && q.session == "" && q.margin <= 0
    ensures Selection(inv, q).1 == Some(c) <==> FirstTop(inv, q, c)
  {
    SelectedFirst(inv, q);
  }

  /** No unlocked candidate scores higher than the selected one, and none of its score has a newer transcript. */
  lemma NewestOfBest(inv: Inventory, q: Query, c: Candidate, d: Candidate)
    requires inv.available && q.session == "" && q.margin <= 0
    requires Selection(inv, q).1 == Some(c) && CandidateOf(inv, d.sid, q) == Some(d) && !d.locked
    ensures d.score <= c.score && (d.score == c.score ==> d.mtime <= c.mtime)
  {
    SelectsFirstTop(inv, q, c);
  }

  // ---------------------------------------------------------------------------
  // The exact condition
  // ---------------------------------------------------------------------------

  /** The first source that names the session: transcripts, ledger or registry. */
  function Source(inv: Inventory, sid: string): nat
  {
    if sid in IdsOf(inv.transcripts, TranscriptId) then 0
    else if sid in IdsOf(inv.ledger, SessionId) then 1
    else 2
  }

  /** Where the rows of a source start among all rows. */
  function Start(inv: Inventory, source: nat): nat
  {
    if source == 0 then 0
    else if source == 1 then |inv.transcripts|
    else |inv.transcripts| + |inv.ledger|
  }

  lemma FirstAtConcat(a: seq<string>, b: seq<string>, x: string)
    ensures FirstAt(a + b, x) == if x in a then FirstAt(a, x) else |a| + FirstAt(b, x)
  {
    var k := FirstAt(a + b, x);
    assert forall i :: 0 <= i < |a| ==> (a + b)[i] == a[i];
    assert forall i :: 0 <= i < |b| ==> (a + b)[|a| + i] == b[i];
  }

  lemma RankInSource(inv: Inventory, sid: string)
    requires sid in AllIds(inv)
    ensures Start(inv, Source(inv, sid)) <= Rank(inv, sid)
    ensures forall k: nat :: Source(inv, sid) < k <= 2 ==> Rank(inv, sid) < Start(inv, k)
  {
    var ts, ls, ds := IdsOf(inv.transcripts, TranscriptId), IdsOf(inv.ledger, SessionId), IdsOf(inv.daemon, SessionId);
    FirstAtConcat(ts, ls, sid);
    FirstAtConcat(ts + ls, ds, sid);
  }

  /** A candidate has a record, so some row names it. */
  lemma CandidateNamed(inv: Inventory, q: Query, c: Candidate)
    requires CandidateOf(inv, c.sid, q) == Some(c)
    ensures c.sid in AllIds(inv) && c.sid != ""
  {
    OrderHas(inv, c.sid);
    ExtendHas([], AllIds(inv), c.sid);
  }

  /** The earlier source is met first. */
  lemma SourceOrders(inv: Inventory, x: string, y: string)
    requires x in AllIds(inv) && y in AllIds(inv) && Source(inv, x) < Source(inv, y)
    ensures Rank(inv, x) < Rank(inv, y)
  {
    RankInSource(inv, x);
    RankInSource(inv, y);
  }

  lemma IdsPermute(a: seq<Row>, b: seq<Row>, id: Row -> string, sid: string)
    requires multiset(a) == multiset(b)
    ensures sid in IdsOf(a, id) <==> sid in IdsOf(b, id)
  {
    PermutationFacts(a, b);
    NamedBy(a, id, sid);
    NamedBy(b, id, sid);
  }

  lemma NamedBy(rows: seq<Row>, id: Row -> string, sid: string)
    ensures sid in IdsOf(rows, id) <==> exists r :: r in rows && id(r) == sid
  {
    if sid in IdsOf(rows, id) {
      var i :| 0 <= i < |rows| && IdsOf(rows, id)[i] == sid;
      assert rows[i] in rows;
    }
    if r :| r in rows && id(r) == sid {
      var i :| 0 <= i < |rows| && rows[i] == r;
      assert IdsOf(rows, id)[i] == sid;
    }
  }

  lemma SourceOrderFree(a: Inventory, b: Inventory, sid: string)
    requires Reordered(a, b)
    ensures Source(a, sid) == Source(b, sid)
  {
    IdsPermute(a.transcripts, b.transcripts, TranscriptId, sid);
    IdsPermute(a.ledger, b.ledger, SessionId, sid);
  }

  lemma TopOrderFree(a: Inventory, b: Inventory, q: Query, c: Candidate)
    requires Reordered(a, b)
    ensures Top(a, q, c) <==> Top(b, q, c)
  {
    CandidateOrderFree(a, b, q, c.sid);
    forall d: Candidate ensures CandidateOf(a, d.sid, q) == CandidateOf(b, d.sid, q) {
      CandidateOrderFree(a, b, q, d.sid);
    }
  }

  /** A best candidate that no best candidate of an earlier source precedes. */
  ghost predicate Leads(inv: Inventory, q: Query, c: Candidate)
  {
    Top(inv, q, c) && forall e: Candidate :: Top(inv, q, e) ==> Source(inv, c.sid) <= Source(inv, e.sid)
  }

  /** Two best candidates come from the same source, and none from an earlier one. */
  ghost predicate OpenTie(inv: Inventory, q: Query)
  {
    exists c: Candidate, d: Candidate :: c != d && Leads(inv, q, c) && Leads(inv, q, d)
  }

  lemma LeadsOrderFree(a: Inventory, b: Inventory, q: Query, c: Candidate)
    requires Reordered(a, b) && Leads(a, q, c)
    ensures Leads(b, q, c)
  {
    TopOrderFree(a, b, q, c);
    SourceOrderFree(a, b, c.sid);
    forall e: Candidate | Top(b, q, e) ensures Source(b, c.sid) <= Source(b, e.sid) {
      TopOrderFree(a, b, q, e);
      SourceOrderFree(a, b, e.sid);
    }
  }

  /** What is selected without a margin leads. */
  lemma SelectedLeads(inv: Inventory, q: Query, c: Candidate)
    requires inv.available && q.session == "" && q.margin <= 0 && Selection(inv, q).1 == Some(c)
    ensures Leads(inv, q, c)
  {
    SelectedFirst(inv, q);
    CandidateNamed(inv, q, c);
    forall e: Candidate | Top(inv, q, e) ensures Source(inv, c.sid) <= Source(inv, e.sid) {
      CandidateNamed(inv, q, e);
      if Source(inv, e.sid) < Source(inv, c.sid) {
        SourceOrders(inv, e.sid, c.sid);
      }
    }
  }

  /** Without an open tie, order does not matter even without a margin. */
  lemma NoTieOrderFree(a: Inventory, b: Inventory, q: Query)
    requires Reordered(a, b) && a.available && q.session == "" && q.margin <= 0 && !OpenTie(a, q)
    ensures Selection(a, q) == Selection(b, q)
  {
    SelectedFirst(a, q);
    SelectedFirst(b, q);
    var x, y := Selection(a, q).1, Selection(b, q).1;
    if x.Some? {
      SelectedLeads(a, q, x.value);
      TopOrderFree(a, b, q, x.value);
    }
    if y.Some? {
      SelectedLeads(b, q, y.value);
      TopOrderFree(a, b, q, y.value);
      LeadsOrderFree(b, a, q, y.value);
    }
    assert x == y;
    SameCandidates(a, b, q);
    RequestedAlone(a, q);
    RequestedAlone(b, q);
    StatusFollows(Listed(a, q), Listed(b, q), q);
  }

  // ---------------------------------------------------------------------------
  // An open tie can be turned either way
  // ---------------------------------------------------------------------------

  /** The rows with row `i` moved to the front. */
  function ToFront(rows: seq<Row>, i: nat): seq<Row>
    requires i < |rows|
  {
    [rows[i]] + rows[..i] + rows[i + 1..]
  }

  lemma ToFrontPermutes(rows: seq<Row>, i: nat, id: Row -> string)
    requires i < |rows| && DistinctIds(rows, id)
    ensures multiset(ToFront(rows, i)) == multiset(rows) && DistinctIds(ToFront(rows, i), id)
  {
    assert rows == rows[..i] + [rows[i]] + rows[i + 1..];
    var front := ToFront(rows, i);
    var was := (k: int) => if k == 0 then i else if k <= i then k - 1 else k;
    forall k, l | 0 <= k < l < |front| && id(front[k]) != "" ensures id(front[k]) != id(front[l]) {
      assert front[k] == rows[was(k)] && front[l] == rows[was(l)] && was(k) != was(l);
    }
  }

  lemma RanksDiffer(inv: Inventory, x: string, y: string)
    requires x in AllIds(inv) && y in AllIds(inv) && x != y
    ensures Rank(inv, x) != Rank(inv, y)
  {
    assert AllIds(inv)[Rank(inv, x)] == x && AllIds(inv)[Rank(inv, y)] == y;
  }

  /** A leading candidate whose row comes first in its source is selected. */
  lemma FirstRowSelected(inv: Inventory, q: Query, c: Candidate)
    requires inv.available && q.session == "" && q.margin <= 0 && Leads(inv, q, c)
    requires Rank(inv, c.sid) == Start(inv, Source(inv, c.sid))
    ensures Selection(inv, q).1 == Some(c)
  {
    CandidateNamed(inv, q, c);
    forall d: Candidate | Top(inv, q, d) && d != c ensures Rank(inv, c.sid) < Rank(inv, d.sid) {
      CandidateNamed(inv, q, d);
      if Source(inv, c.sid) < Source(inv, d.sid) {
        SourceOrders(inv, c.sid, d.sid);
      } else {
        RankInSource(inv, d.sid);
        RanksDiffer(inv, c.sid, d.sid);
      }
    }
    SelectsFirstTop(inv, q, c);
  }

  /** The rows with the row of the session in front. */
  lemma Fronted(rows: seq<Row>, id: Row -> string, sid: string) returns (front: seq<Row>)
    requires DistinctIds(rows, id) && sid in IdsOf(rows, id)
    ensures multiset(front) == multiset(rows) && DistinctIds(front, id) && front != [] && id(front[0]) == sid
  {
    var i :| 0 <= i < |rows| && IdsOf(rows, id)[i] == sid;
    ToFrontPermutes(rows, i, id);
    front := ToFront(rows, i);
  }

  /** The inventory with the session's row in front of its source. */
  lemma Promote(inv: Inventory, sid: string) returns (b: Inventory)
    requires NoRepeats(inv) && sid in AllIds(inv)
    ensures Reordered(inv, b) && Rank(b, sid) == Start(b, Source(b, sid))
  {
    b := inv;
    if Source(inv, sid) == 0 {
      var front := Fronted(inv.transcripts, TranscriptId, sid);
      b := inv.(transcripts := front);
    } else if Source(inv, sid) == 1 {
      var front := Fronted(inv.ledger, SessionId, sid);
      b := inv.(ledger := front);
    } else {
      assert sid in IdsOf(inv.daemon, SessionId);
      var front := Fronted(inv.daemon, SessionId, sid);
      b := inv.(daemon := front);
    }
    SourceOrderFree(inv, b, sid);
    AtStart(b, sid);
  }

  lemma HeadFirst(rows: seq<Row>, id: Row -> string, sid: string)
    requires rows != [] && id(rows[0]) == sid
    ensures sid in IdsOf(rows, id) && FirstAt(IdsOf(rows, id), sid) == 0
  {
    assert IdsOf(rows, id)[0] == sid;
  }

  /** A session whose row is the first of the first source that names it. */
  lemma AtStart(inv: Inventory, sid: string)
    requires match Source(inv, sid)
             case 0 => inv.transcripts != [] && TranscriptId(inv.transcripts[0]) == sid
             case 1 => inv.ledger != [] && SessionId(inv.ledger[0]) == sid
             case _ => inv.daemon != [] && SessionId(inv.daemon[0]) == sid
    ensures Rank(inv, sid) == Start(inv, Source(inv, sid))
  {
    var ts, ls, ds := IdsOf(inv.transcripts, TranscriptId), IdsOf(inv.ledger, SessionId), IdsOf(inv.daemon, SessionId);
    FirstAtConcat(ts, ls, sid);
    FirstAtConcat(ts + ls, ds, sid);
    if Source(inv, sid) == 0 {
      HeadFirst(inv.transcripts, TranscriptId, sid);
    } else if Source(inv, sid) == 1 {
      HeadFirst(inv.ledger, SessionId, sid);
    } else {
      HeadFirst(inv.daemon, SessionId, sid);
    }
  }

  /** Some reordering selects any leading candidate. */
  lemma LeaderSelectable(inv: Inventory, q: Query, c: Candidate) returns (b: Inventory)
    requires NoRepeats(inv) && inv.available && q.session == "" && q.margin <= 0 && Leads(inv, q, c)
    ensures Reordered(inv, b) && Selection(b, q).1 == Some(c)
  {
    CandidateNamed(inv, q, c);
    b := Promote(inv, c.sid);
    LeadsOrderFree(inv, b, q, c);
    FirstRowSelected(b, q, c);
  }

  /** Exactly when order matters: only without a margin, with nothing asked for by name, and if two best unlocked
      candidates come from the same source with no best candidate in an earlier one. */
  lemma OrderFreeIff(a: Inventory, q: Query)
    requires NoRepeats(a)
    ensures (forall b :: Reordered(a, b) ==> Selection(b, q) == Selection(a, q))
            <==> !(a.available && q.session == "" && q.margin <= 0 && OpenTie(a, q))
  {
    if a.available && q.session == "" && q.margin <= 0 {
      if OpenTie(a, q) {
        var c: Candidate, d: Candidate :| c != d && Leads(a, q, c) && Leads(a, q, d);
        var b := LeaderSelectable(a, q, c);
        var b' := LeaderSelectable(a, q, d);
        assert Selection(b, q) != Selection(b', q);
      } else {
        forall b | Reordered(a, b) ensures Selection(b, q) == Selection(a, q) {
          NoTieOrderFree(a, b, q);
        }
      }
    } else {
      forall b | Reordered(a, b) ensures Selection(b, q) == Selection(a, q) {
        SelectionOrderFree(a, b, q);
      }
    }
  }

  // ---------------------------------------------------------------------------
  // A tie that shows
  // ---------------------------------------------------------------------------

  /** A transcript of project "p". */
  function Stub(sid: string): Row
  {
    map["session_id" := Text(sid), "project_dir" := Text("p")]
  }

  function TwoTranscripts(x: string, y: string): Inventory
  {
    Inventory([Stub(x), Stub(y)], [], [], [], true)
  }

  /** The two transcripts are candidates of this query. */
  ghost predicate Shows(x: string, y: string, q: Query)
  {
    && x != y && x != "" && y != "" && q.current !in {x, y}
    && q.session == "" && q.thread == "" && q.project != "" && q.canonical("p") == q.project
  }

  function StubAs(sid: string, q: Query): Candidate
  {
    Candidate(sid, false, false, 60 + RecencyPoints(Stub(sid), q), q.mtime(""))
  }

  lemma StubFields(sid: string, q: Query)
    ensures TranscriptId(Stub(sid)) == sid && PathOf(Stub(sid)) == "" && TextOf(Stub(sid), "thread_id") == ""
    ensures TextOf(Stub(sid), "status") == "" && TextOf(Stub(sid), "project_dir") == "p"
    ensures RecencyPoints(Stub(sid), q) == RecencyPoints(map[], q)
  {
  }

  lemma StubRecord(x: string, y: string, sid: string)
    requires x != y && x != "" && y != ""
    ensures RecordOf(TwoTranscripts(x, y), sid) == if sid in {x, y} then Some(Stub(sid)) else None
  {
    var rows := TwoTranscripts(x, y).transcripts;
    assert TranscriptId(rows[0]) == x && TranscriptId(rows[1]) == y;
    if sid in {x, y} {
      assert Stub(sid) in rows;
      TranscriptHas(rows, sid, Stub(sid));
      assert map[] + Stub(sid) == Stub(sid);
    } else if sid != "" {
      TranscriptHas(rows, sid, map[]);
    }
  }

  lemma StubCandidate(x: string, y: string, q: Query, sid: string)
    requires Shows(x, y, q)
    ensures CandidateOf(TwoTranscripts(x, y), sid, q) == if sid in {x, y} then Some(StubAs(sid, q)) else None
  {
    StubRecord(x, y, sid);
    StubFields(sid, q);
  }

  lemma StubLeads(x: string, y: string, q: Query)
    requires Shows(x, y, q)
    ensures Leads(TwoTranscripts(x, y), q, StubAs(x, q))
  {
    var inv := TwoTranscripts(x, y);
    StubCandidate(x, y, q, x);
    StubFields(x, q);
    forall d: Candidate | CandidateOf(inv, d.sid, q) == Some(d) ensures Ahead(StubAs(x, q), d) {
      StubCandidate(x, y, q, d.sid);
      StubFields(d.sid, q);
    }
    assert IdsOf(inv.transcripts, TranscriptId)[0] == x;
    assert Source(inv, x) == 0;
  }

  lemma StubSelected(x: string, y: string, q: Query)
    requires Shows(x, y, q) && q.margin <= 0
    ensures Selection(TwoTranscripts(x, y), q).1 == Some(StubAs(x, q))
  {
    var inv := TwoTranscripts(x, y);
    StubLeads(x, y, q);
    StubFields(x, q);
    assert IdsOf(inv.transcripts, TranscriptId)[0] == x;
    AtStart(inv, x);
    FirstRowSelected(inv, q, StubAs(x, q));
  }

  lemma TwoRows(x: Row, y: Row)
    ensures multiset([x, y]) == multiset([y, x])
  {
    assert [x, y] == [x] + [y] && [y, x] == [y] + [x];
  }

  lemma TwoNoRepeats(x: string, y: string)
    requires x != y
    ensures NoRepeats(TwoTranscripts(x, y))
  {
    assert TranscriptId(Stub(x)) == x && TranscriptId(Stub(y)) == y;
  }

  lemma TwoReordered(x: string, y: string)
    requires x != y
    ensures Reordered(TwoTranscripts(x, y), TwoTranscripts(y, x))
  {
    TwoRows(Stub(x), Stub(y));
    TwoNoRepeats(x, y);
    TwoNoRepeats(y, x);
  }

  /** Two transcripts of one project that tie: without a margin the one that is listed first is selected. */
  lemma TieDependsOnOrder(q: Query)
    requires Shows("x", "y", q) && q.margin <= 0
    ensures var a, b := TwoTranscripts("x", "y"), TwoTranscripts("y", "x");
            && Reordered(a, b)
            && Selection(a, q).1 == Some(StubAs("x", q)) && Selection(b, q).1 == Some(StubAs("y", q))
  {
    TwoReordered("x", "y");
    StubSelected("x", "y", q);
    StubSelected("y", "x", q);
  }

  /** A tie that does not show: one session has a transcript, the other only a ledger row. */
  function AcrossSources(x: string, y: string): Inventory
  {
    Inventory([Stub(x)], [Stub(y)], [], [], true)
  }

  lemma AcrossRecord(x: string, y: string, sid: string)
    requires x != y && x != "" && y != ""
    ensures RecordOf(AcrossSources(x, y), sid) == if sid in {x, y} then Some(Stub(sid)) else None
  {
    var inv := AcrossSources(x, y);
    assert TranscriptId(Stub(x)) == x && SessionId(Stub(y)) == y;
    if sid == x {
      assert Stub(x) in inv.transcripts;
    }
    if sid == y {
      assert Stub(y) in inv.ledger;
      assert NonEmpty(Stub(y)) == Stub(y);
    }
    if sid != "" {
      TranscriptHas(inv.transcripts, sid, Stub(x));
      LastRowHas(inv.ledger, sid, Stub(y));
      assert map[] + Stub(sid) == Stub(sid);
    }
  }

  lemma AcrossTop(x: string, y: string, q: Query, sid: string)
    requires Shows(x, y, q) && sid in {x, y}
    ensures Top(AcrossSources(x, y), q, StubAs(sid, q))
  {
    var inv := AcrossSources(x, y);
    AcrossRecord(x, y, sid);
    StubFields(sid, q);
    forall d: Candidate | CandidateOf(inv, d.sid, q) == Some(d) ensures Ahead(StubAs(sid, q), d) {
      AcrossRecord(x, y, d.sid);
      StubFields(d.sid, q);
    }
  }

  /** Two best candidates tie, and yet every reordering selects the same one. */
  lemma TieAcrossSources(x: string, y: string, q: Query)
    requires Shows(x, y, q)
    ensures var a := AcrossSources(x, y);
            && Top(a, q, StubAs(x, q)) && Top(a, q, StubAs(y, q))
            && forall b :: Reordered(a, b) ==> Selection(b, q) == Selection(a, q)
  {
    var a := AcrossSources(x, y);
    AcrossTop(x, y, q, x);
    AcrossTop(x, y, q, y);
    assert IdsOf(a.transcripts, TranscriptId) == [x];
    forall c: Candidate | Leads(a, q, c) ensures c.sid == x {
      assert Source(a, c.sid) <= Source(a, StubAs(x, q).sid);
    }
    OrderFreeIff(a, q);
  }
}
