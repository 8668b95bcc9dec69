/** What a sweep expires over whole runs (chitta-mcp/mcp_transport.py, `_reap`): measured from the moment it took the
    lock to the last time a session was used. */
module SessionExpiry {
  import opened Prelude
  import opened SessionTable
  import opened SessionRuns

  // ---------------------------------------------------------------------------
  // Runs in pieces
  // ---------------------------------------------------------------------------

  /** A run and its continuation. */
  lemma {:induction false} AfterConcat(cfg: Config, s: System, acts: seq<Action>, more: seq<Action>)
    requires Stamped(s) && Legal(cfg, s, acts + more)
    ensures Legal(cfg, s, acts) && Legal(cfg, After(cfg, s, acts), more)
    ensures After(cfg, s, acts + more) == After(cfg, After(cfg, s, acts), more)
  {
    if more == [] {
      assert acts + more == acts;
    } else {
      var init := more[..|more| - 1];
      assert (acts + more)[..|acts + more| - 1] == acts + init;
      AfterConcat(cfg, s, acts, init);
    }
  }

  predicate NoBegin(acts: seq<Action>, task: Task)
  {
    forall i :: 0 <= i < |acts| ==> !BeginsFor(acts[i], task)
  }

  lemma NoBeginInit(acts: seq<Action>, task: Task)
    requires NoBegin(acts, task) && acts != []
    ensures NoBegin(acts[..|acts| - 1], task) && !BeginsFor(acts[|acts| - 1], task)
  {
  }

  // ---------------------------------------------------------------------------
  // What a sweep keeps in mind
  // ---------------------------------------------------------------------------

  predicate InSweep(pc: Pc)
  {
    pc.Reaping? || pc.ReapAwait?
  }

  /** The task, while it sweeps, works off the end of `keys` against the time `since`, and every session whose key it
      has been past was used no longer than `idle` before that. */
  ghost predicate SweptSince(cfg: Config, s: System, task: Task, keys: seq<Key>, since: real)
    requires Stamped(s)
  {
    InSweep(s.Pc(task)) ==>
      && s.Pc(task).now == since <= s.clock
      && |s.Pc(task).todo| <= |keys| && s.Pc(task).todo == keys[|keys| - |s.Pc(task).todo|..]
      && (cfg.idle >= 0.0 ==> forall i :: 0 <= i < |keys| - |s.Pc(task).todo| ==> Fresh(cfg, s, keys[i], since))
  }

  /** The session at `key`, if there is one, was used no longer than `idle` before `since`. */
  ghost predicate Fresh(cfg: Config, s: System, key: Key, since: real)
    requires Stamped(s)
  {
    key in s.table.sessions ==> since - s.table.lastSeen[key] <= cfg.idle
  }

  lemma BeginSweeps(cfg: Config, s: System, task: Task, keys: seq<Key>, admit: bool)
    requires Stamped(s) && Enabled(cfg, s, Begin(task, keys, admit))
    ensures SweptSince(cfg, Next(cfg, s, Begin(task, keys, admit)), task, keys, s.clock)
    ensures InSweep(Next(cfg, s, Begin(task, keys, admit)).Pc(task))
  {
  }

  /** While a task sweeps, nobody inserts, so a session that is fresh stays fresh. */
  lemma FreshStays(cfg: Config, s: System, a: Action, task: Task, key: Key, since: real)
    requires Inv(cfg, s) && Enabled(cfg, s, a) && cfg.idle >= 0.0 && since <= s.clock
    requires InSweep(s.Pc(task)) && Fresh(cfg, s, key, since)
    ensures Fresh(cfg, Next(cfg, s, a), key, since)
  {
    if key in Next(cfg, s, a).table.sessions {
      NextStamp(cfg, s, a, key);
    }
  }

  /** The key that is visited is gone afterwards, or fresh. */
  lemma VisitedFresh(cfg: Config, s: System, task: Task)
    requires Stamped(s) && Enabled(cfg, s, ReapNext(task))
    ensures Fresh(cfg, Next(cfg, s, ReapNext(task)), s.Pc(task).todo[0], s.Pc(task).now)
  {
  }

  lemma ClockOnward(cfg: Config, s: System, a: Action)
    requires Stamped(s) && Enabled(cfg, s, a)
    ensures s.clock <= Next(cfg, s, a).clock
  {
  }

  lemma SweepGoesOn(cfg: Config, s: System, a: Action, task: Task, keys: seq<Key>, since: real)
    requires Inv(cfg, s) && Enabled(cfg, s, a) && !BeginsFor(a, task)
    requires SweptSince(cfg, s, task, keys, since)
    ensures SweptSince(cfg, Next(cfg, s, a), task, keys, since)
  {
    var s' := Next(cfg, s, a);
    ClockOnward(cfg, s, a);
    if InSweep(s'.Pc(task)) {
      SweepPc(cfg, s, a, task);
      var n := |keys| - |s.Pc(task).todo|;
      forall i | cfg.idle >= 0.0 && 0 <= i < |keys| - |s'.Pc(task).todo| ensures Fresh(cfg, s', keys[i], since) {
        if i < n {
          FreshStays(cfg, s, a, task, keys[i], since);
        } else {
          VisitedFresh(cfg, s, task);
        }
      }
    }
  }

  /** A sweep keeps its time, and gives up the first of its keys exactly when it visits it. */
  lemma SweepPc(cfg: Config, s: System, a: Action, task: Task)
    requires Stamped(s) && Enabled(cfg, s, a) && !BeginsFor(a, task) && InSweep(Next(cfg, s, a).Pc(task))
    ensures InSweep(s.Pc(task)) && Next(cfg, s, a).Pc(task).now == s.Pc(task).now
    ensures Next(cfg, s, a).Pc(task).todo == if a == ReapNext(task) then s.Pc(task).todo[1..] else s.Pc(task).todo
  {
    if !By(a, task) {
      OthersKeepPc(cfg, s, a, task);
    }
  }

  lemma {:induction false} SweepHolds(cfg: Config, s: System, acts: seq<Action>, task: Task, keys: seq<Key>, since: real)
    requires Inv(cfg, s) && Legal(cfg, s, acts) && NoBegin(acts, task)
    requires SweptSince(cfg, s, task, keys, since)
    ensures SweptSince(cfg, After(cfg, s, acts), task, keys, since)
  {
    if acts != [] {
      var init := acts[..|acts| - 1];
      NoBeginInit(acts, task);
      SweepHolds(cfg, s, init, task, keys, since);
      RunInv(cfg, s, init);
      SweepGoesOn(cfg, After(cfg, s, init), acts[|acts| - 1], task, keys, since);
    }
  }

  // ---------------------------------------------------------------------------
  // Whole runs
  // ---------------------------------------------------------------------------

  /** A run up to and into one sweep: the task takes the lock after `before`, and `during` follows. */
  function Into(before: seq<Action>, task: Task, keys: seq<Key>, admit: bool, during: seq<Action>): seq<Action>
  {
    before + [Begin(task, keys, admit)] + during
  }

  /** The time at which the sweep began. */
  ghost function BeganAt(cfg: Config, clock: real, before: seq<Action>): real
    requires Legal(cfg, Start(clock), before)
  {
    After(cfg, Start(clock), before).clock
  }

  lemma InTheSweep(cfg: Config, clock: real, before: seq<Action>, task: Task, keys: seq<Key>, admit: bool, during: seq<Action>)
    requires NoBegin(during, task)
    requires Legal(cfg, Start(clock), Into(before, task, keys, admit, during))
    ensures Legal(cfg, Start(clock), before)
    ensures Inv(cfg, After(cfg, Start(clock), Into(before, task, keys, admit, during)))
    ensures SweptSince(cfg, After(cfg, Start(clock), Into(before, task, keys, admit, during)), task, keys, BeganAt(cfg, clock, before))
    ensures Elements(keys) == After(cfg, Start(clock), before).table.lastSeen.Keys
  {
    var start, begin := Start(clock), Begin(task, keys, admit);
    AfterConcat(cfg, start, before + [begin], during);
    AfterConcat(cfg, start, before, [begin]);
    assert (before + [begin])[..|before|] == before;
    StartInv(cfg, clock);
    RunInv(cfg, start, before);
    RunInv(cfg, start, before + [begin]);
    RunInv(cfg, start, Into(before, task, keys, admit, during));
    BeginSweeps(cfg, After(cfg, start, before), task, keys, admit);
    SweepHolds(cfg, After(cfg, start, before + [begin]), during, task, keys, BeganAt(cfg, clock, before));
  }

  /** Expiry, exactly: when a sweep that began at some time visits a session, however much later, an open session is
      expired exactly if it was last used more than `idle` before the sweep began, and a terminated one is closed. */
  lemma ExpiredIff(cfg: Config, clock: real, before: seq<Action>, task: Task, keys: seq<Key>, admit: bool,
                   during: seq<Action>, key: Key)
    requires NoBegin(during, task)
    requires Legal(cfg, Start(clock), Into(before, task, keys, admit, during))
    requires Legal(cfg, Start(clock), before)
    requires var s := After(cfg, Start(clock), Into(before, task, keys, admit, during));
             Enabled(cfg, s, ReapNext(task)) && s.Pc(task).todo[0] == key && key in s.table.sessions
    ensures var acts := Into(before, task, keys, admit, during);
            var s, used := After(cfg, Start(clock), acts), LastTouch(cfg, Start(clock), acts, key);
            && used.Some?
            && EffectOf(cfg, s, ReapNext(task))
               == if s.table.sessions[key].terminated then Leave(key, Closed)
                  else if BeganAt(cfg, clock, before) - used.value > cfg.idle then Leave(key, Expired)
                  else Stay
  {
    InTheSweep(cfg, clock, before, task, keys, admit, during);
    StampIsLastTouch(cfg, clock, Into(before, task, keys, admit, during), key);
  }

  /** A finished sweep leaves nothing behind: every session that was there when it began, and still is, was used no
      longer than `idle` before that. */
  lemma SweepComplete(cfg: Config, clock: real, before: seq<Action>, task: Task, keys: seq<Key>, admit: bool,
                      during: seq<Action>, key: Key)
    requires cfg.idle >= 0.0 && NoBegin(during, task)
    requires Legal(cfg, Start(clock), Into(before, task, keys, admit, during))
    requires Legal(cfg, Start(clock), before)
    requires Enabled(cfg, After(cfg, Start(clock), Into(before, task, keys, admit, during)), ReapDone(task))
    requires key in After(cfg, Start(clock), before).table.sessions
    requires key in After(cfg, Start(clock), Into(before, task, keys, admit, during)).table.sessions
    ensures var used := LastTouch(cfg, Start(clock), Into(before, task, keys, admit, during), key);
            used.Some? && BeganAt(cfg, clock, before) - used.value <= cfg.idle
  {
    var s := After(cfg, Start(clock), Into(before, task, keys, admit, during));
    InTheSweep(cfg, clock, before, task, keys, admit, during);
    StampIsLastTouch(cfg, clock, Into(before, task, keys, admit, during), key);
    assert key in Elements(keys);
    var i :| 0 <= i < |keys| && keys[i] == key;
    assert Fresh(cfg, s, keys[i], BeganAt(cfg, clock, before));
  }

  // ---------------------------------------------------------------------------
  // What a sweep is for
  // ---------------------------------------------------------------------------

  /** A task keeps to what it took the lock for. */
  predicate Keeps(pc: Pc, admit: bool)
  {
    (InSweep(pc) ==> pc.admit == admit) && (InSweep(pc) || pc.Idle? || admit)
  }

  lemma KeepsOn(cfg: Config, s: System, a: Action, task: Task, admit: bool)
    requires Stamped(s) && Enabled(cfg, s, a) && !BeginsFor(a, task) && Keeps(s.Pc(task), admit)
    ensures Keeps(Next(cfg, s, a).Pc(task), admit)
  {
    if !By(a, task) {
      OthersKeepPc(cfg, s, a, task);
    }
  }

  lemma {:induction false} KeepsThroughout(cfg: Config, s: System, acts: seq<Action>, task: Task, admit: bool)
    requires Stamped(s) && Legal(cfg, s, acts) && NoBegin(acts, task) && Keeps(s.Pc(task), admit)
    ensures Keeps(After(cfg, s, acts).Pc(task), admit)
  {
    if acts != [] {
      var init := acts[..|acts| - 1];
      NoBeginInit(acts, task);
      KeepsThroughout(cfg, s, init, task, admit);
      KeepsOn(cfg, After(cfg, s, init), acts[|acts| - 1], task, admit);
    }
  }

  /** What a task does once it has swept. */
  ghost predicate Purposeful(cfg: Config, s: System, task: Task, admit: bool)
    requires Stamped(s)
  {
    && (!admit ==> !Enabled(cfg, s, Admit(task)))
    && (forall victim :: !admit ==> !Enabled(cfg, s, EvictOne(task, victim)))
    && (forall key :: !admit ==> !Enabled(cfg, s, Insert(task, key)))
    && (Enabled(cfg, s, ReapDone(task)) ==>
          var done := Next(cfg, s, ReapDone(task));
          && done.table == s.table
          && done.Pc(task) == (if admit then Evicting else Idle)
          && done.holder == (if admit then Some(task) else None))
  }

  lemma KeepsPurpose(cfg: Config, s: System, task: Task, admit: bool)
    requires Inv(cfg, s) && Keeps(s.Pc(task), admit)
    ensures Purposeful(cfg, s, task, admit)
  {
    if Enabled(cfg, s, ReapDone(task)) {
      var done := Next(cfg, s, ReapDone(task));
      assert !s.Pc(task).Idle? ==> s.holder == Some(task);
      assert done.table == s.table;
      assert done.Pc(task) == (if admit then Evicting else Idle);
      assert done.holder == (if admit then Some(task) else None);
    }
    forall victim | !admit ensures !Enabled(cfg, s, EvictOne(task, victim)) {
    }
    forall key | !admit ensures !Enabled(cfg, s, Insert(task, key)) {
    }
  }

  /** A task that took the lock only to sweep never evicts, is never admitted and never inserts; one that took it to
      be admitted goes on from the sweep to the eviction loop, with the lock. */
  lemma SweepPurpose(cfg: Config, clock: real, before: seq<Action>, task: Task, keys: seq<Key>, admit: bool, during: seq<Action>)
    requires NoBegin(during, task)
    requires Legal(cfg, Start(clock), Into(before, task, keys, admit, during))
    ensures var s := After(cfg, Start(clock), Into(before, task, keys, admit, during));
            Purposeful(cfg, s, task, admit)
  {
    var start, begin := Start(clock), Begin(task, keys, admit);
    AfterConcat(cfg, start, before + [begin], during);
    AfterConcat(cfg, start, before, [begin]);
    assert (before + [begin])[..|before|] == before;
    KeepsThroughout(cfg, After(cfg, start, before + [begin]), during, task, admit);
    StartInv(cfg, clock);
    RunInv(cfg, start, Into(before, task, keys, admit, during));
    KeepsPurpose(cfg, After(cfg, start, Into(before, task, keys, admit, during)), task, admit);
  }

  // ---------------------------------------------------------------------------
  // One session
  // ---------------------------------------------------------------------------

  /** One session, opened and last used at time 0. */
  function OneSession(clock: real, terminated: bool): System
  {
    System(Table(map["k" := Transport(0, terminated)], map["k" := 0.0], map[], 1, 0, 0), clock, None, map[], History({}, {}, {}))
  }

  ghost function SweptOnce(s: System): System
    requires Stamped(s) && s.holder.None? && s.pcs == map[] && s.table.lastSeen.Keys == {"k"}
  {
    var cfg := Config(1800.0, 64);
    assert Elements(["k"]) == {"k"};
    Next(cfg, Next(cfg, s, Begin(1, ["k"], false)), ReapNext(1))
  }

  /** With half an hour of idle time, a sweep at 1800 seconds keeps the session, one at 2000 seconds expires it, and a
      terminated session is closed at any time. */
  lemma HalfAnHour()
    ensures SweptOnce(OneSession(1800.0, false)).table == OneSession(1800.0, false).table
    ensures var t := SweptOnce(OneSession(2000.0, false)).table;
            t.sessions == map[] && t.lastSeen == map[] && t.expired == 1 && t.evicted == 0 && t.created == 1
    ensures var t := SweptOnce(OneSession(1.0, true)).table;
            t.sessions == map[] && t.lastSeen == map[] && t.expired == 0 && t.evicted == 0 && t.created == 1
  {
    assert ["k"][0] == "k";
    assert map["k" := Transport(0, false)] - {"k"} == map[];
    assert map["k" := Transport(0, true)] - {"k"} == map[];
    assert map["k" := 0.0] - {"k"} == map[];
  }

  ghost function Stepped(s: System, a: Action): (s': System)
    requires Stamped(s) && Enabled(Config(1800.0, 64), s, a)
    ensures Stamped(s')
  {
    Next(Config(1800.0, 64), s, a)
  }

  lemma WithoutKey<T>(m: map<Key, T>, x: T)
    requires m == map["k" := x]
    ensures m - {"k"} == map[]
  {
  }

  /** A closed session goes with the next sweep. */
  lemma ClosedGoes()
    ensures var t := SweptOnce(Stepped(OneSession(1.0, false), CloseTransport("k"))).table;
            t.sessions == map[] && t.lastSeen == map[] && t.expired == 0
  {
    var s := Stepped(OneSession(1.0, false), CloseTransport("k"));
    assert ["k"][0] == "k";
    WithoutKey(s.table.sessions, Transport(0, true));
    WithoutKey(s.table.lastSeen, 0.0);
  }

  /** A lookup keeps a session for another half an hour. */
  lemma LookupKeeps()
    ensures var t := SweptOnce(Stepped(OneSession(2000.0, false), Lookup("k"))).table;
            t.sessions == map["k" := Transport(0, false)] && t.lastSeen == map["k" := 2000.0] && t.expired == 0
  {
    var s := Stepped(OneSession(2000.0, false), Lookup("k"));
    assert ["k"][0] == "k";
    assert s.table.lastSeen == map["k" := 2000.0];
  }

  /** What a deleted session leaves: no session, but a stamp and an owner. */
  function Leftover(): Table
  {
    Table(map[], map["k" := 0.0], map["k" := "me"], 1, 0, 0)
  }

  /** A session deleted behind the table's back leaves its stamp and its owner. */
  lemma DeletedLeaves(s: System)
    requires s.table == OneSession(1.0, false).table.(owners := map["k" := "me"])
    ensures Stepped(s, Delete("k")).table == Leftover()
  {
    WithoutKey(s.table.sessions, Transport(0, false));
  }

  /** The next sweep takes both, and counts nothing. */
  lemma LeftoverGoes(s: System)
    requires s.table == Leftover() && s.holder.None? && s.pcs == map[]
    ensures SweptOnce(s).table == Table(map[], map[], map[], 1, 0, 0)
  {
    var none: map<Key, Transport> := map[];
    assert ["k"][0] == "k";
    WithoutKey(s.table.lastSeen, 0.0);
    WithoutKey(s.table.owners, "me");
    assert none - {"k"} == none;
  }

  lemma OwnerSet(s: System)
    requires s.table == OneSession(1.0, false).table
    ensures Stepped(s, SetOwner("k", "me")).table == s.table.(owners := map["k" := "me"])
  {
    assert map["k" := "me"] == s.table.owners["k" := "me"];
  }
}
