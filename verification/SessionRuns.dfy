/** Every interleaving of the tasks that share the session table.

    One event loop runs the tasks, so the code between two `await` points is one step. The lock
    holder is suspended in `terminate()` (ReapAwait, EvictAwait) or in the body of its `async with`
    (Admitted, Filled); meanwhile any other task may look sessions up, a transport may close itself
    and the SDK may delete a key. */
module SessionRuns {
  import opened Prelude
  import opened SessionTable

  type Task = nat

  datatype Config = Config(idle: real, max: nat)

  datatype Pc =
    | Idle
    | Reaping(now: real, todo: seq<Key>, admit: bool)
    | ReapAwait(now: real, todo: seq<Key>, admit: bool)
    | Evicting
    | EvictAwait
    | Admitted
    | Filled

  /** Which transports left the table, and why. */
  datatype History = History(expired: set<nat>, evicted: set<nat>, otherwise: set<nat>)

  datatype System = System(table: Table, clock: real, holder: Option<Task>, pcs: map<Task, Pc>, past: History) {
    function Pc(task: Task): Pc
    {
      if task in pcs then pcs[task] else Idle
    }
  }

  datatype Action =
    // the environment
    | Tick(to: real)
    | Lookup(key: Key)
    | CloseTransport(key: Key)
    | Delete(key: Key)
    | SetOwner(key: Key, owner: string)
    // the lock
    | Begin(task: Task, keys: seq<Key>, admit: bool)
    | Exit(task: Task)
    | Abort(task: Task)
    // the lock holder
    | ReapNext(task: Task)
    | Resume(task: Task)
    | ReapDone(task: Task)
    | EvictOne(task: Task, victim: Key)
    | Admit(task: Task)
    | Insert(task: Task, key: Key)

  /** The eviction loop would go on, but the table is empty: `min` fails. */
  predicate NothingToEvict(cfg: Config, s: System)
  {
    cfg.max == 0 && s.table.sessions == map[]
  }

  ghost predicate Enabled(cfg: Config, s: System, a: Action)
    requires Stamped(s)
  {
    match a
    case Tick(to) => s.clock <= to
    case Lookup(_) => true
    case CloseTransport(key) => key in s.table.sessions
    case Delete(key) => key in s.table.sessions
    case SetOwner(key, _) => key in s.table.sessions
    case Begin(t, keys, _) => s.holder.None? && s.Pc(t).Idle? && Distinct(keys) && Elements(keys) == s.table.lastSeen.Keys
    case Exit(t) => s.Pc(t).Admitted? || s.Pc(t).Filled?
    case Abort(t) => s.Pc(t).ReapAwait? || s.Pc(t).EvictAwait? || (s.Pc(t).Evicting? && NothingToEvict(cfg, s))
    case ReapNext(t) => s.Pc(t).Reaping? && s.Pc(t).todo != []
    case Resume(t) => s.Pc(t).ReapAwait? || s.Pc(t).EvictAwait?
    case ReapDone(t) => s.Pc(t).Reaping? && s.Pc(t).todo == []
    case EvictOne(t, victim) => s.Pc(t).Evicting? && |s.table.sessions| >= cfg.max && IsOldest(s.table, victim)
    case Admit(t) => s.Pc(t).Evicting? && |s.table.sessions| < cfg.max
    case Insert(t, _) => s.Pc(t).Admitted?
  }

  function Goto(s: System, task: Task, pc: Pc): System
  {
    s.(pcs := s.pcs[task := pc])
  }

  function Release(s: System, task: Task): System
  {
    Goto(s, task, Idle).(holder := None)
  }

  /** Records why the transport at `key`, if there is one, leaves the table. */
  function Depart(m: map<Key, Transport>, past: History, key: Key, reason: Reason): History
  {
    if key !in m then past
    else match reason
      case Expired => past.(expired := past.expired + {m[key].id})
      case Evicted => past.(evicted := past.evicted + {m[key].id})
      case Closed => past.(otherwise := past.otherwise + {m[key].id})
  }

  function Remove(s: System, key: Key, reason: Reason): System
  {
    s.(table := Detached(s.table, key, reason), past := Depart(s.table.sessions, s.past, key, reason))
  }

  /** The SDK deletes a key behind the table's back: the stamp and the owner stay. */
  function Dropped(s: System, key: Key): System
  {
    s.(table := s.table.(sessions := s.table.sessions - {key}), past := Depart(s.table.sessions, s.past, key, Closed))
  }

  /** A new transport takes `key`; whatever was there counts as otherwise removed. */
  function Joined(s: System, key: Key): System
  {
    s.(table := Inserted(s.table, key, Transport(s.table.created, false), s.clock),
       past := Depart(s.table.sessions, s.past, key, Closed))
  }

  /** One turn of the `_reap` loop; it suspends exactly when it found a transport to terminate. */
  function Sweep(cfg: Config, s: System, t: Task): (s': System)
    requires Stamped(s) && s.Pc(t).Reaping? && s.Pc(t).todo != []
    ensures Stamped(s') && s'.table == ReapedOne(s.table, s.Pc(t).todo[0], s.Pc(t).now, cfg.idle)
  {
    var pc := s.Pc(t);
    var key, rest := pc.todo[0], pc.todo[1..];
    match Verdict(s.table, key, pc.now, cfg.idle)
    case None => Goto(s, t, Reaping(pc.now, rest, pc.admit))
    case Some(reason) =>
      Goto(Remove(s, key, reason), t,
           if key in s.table.sessions then ReapAwait(pc.now, rest, pc.admit) else Reaping(pc.now, rest, pc.admit))
  }

  ghost function Next(cfg: Config, s: System, a: Action): (s': System)
    requires Stamped(s) && Enabled(cfg, s, a)
    ensures Stamped(s')
  {
    match a
    case Tick(to) => s.(clock := to)
    case Lookup(key) => s.(table := Touched(s.table, key, s.clock))
    case CloseTransport(key) =>
      s.(table := s.table.(sessions := s.table.sessions[key := s.table.sessions[key].(terminated := true)]))
    case Delete(key) => Dropped(s, key)
    case SetOwner(key, owner) => s.(table := s.table.(owners := s.table.owners[key := owner]))
    case Begin(t, keys, admit) => Goto(s, t, Reaping(s.clock, keys, admit)).(holder := Some(t))
    case Exit(t) => Release(s, t)
    case Abort(t) => Release(s, t)
    case ReapNext(t) => Sweep(cfg, s, t)
    case Resume(t) =>
      (match s.Pc(t)
       case ReapAwait(now, todo, admit) => Goto(s, t, Reaping(now, todo, admit))
       case _ => Goto(s, t, Evicting))
    case ReapDone(t) => if s.Pc(t).admit then Goto(s, t, Evicting) else Release(s, t)
    case EvictOne(t, victim) => Goto(Remove(s, victim, Evicted), t, EvictAwait)
    case Admit(t) => Goto(s, t, Admitted)
    case Insert(t, key) => Goto(Joined(s, key), t, Filled)
  }

  // ---------------------------------------------------------------------------
  // The invariant
  // ---------------------------------------------------------------------------

  /** Every session has an activity stamp, so neither `min` nor `_reap` can miss one. */
  ghost predicate Stamped(s: System)
  {
    s.table.sessions.Keys <= s.table.lastSeen.Keys
  }

  /** Every ownership record is under a stamped key, so the sweep reaches it. */
  ghost predicate OwnersReachable(s: System)
  {
    s.table.owners.Keys <= s.table.lastSeen.Keys
  }

  ghost predicate ClockAhead(s: System)
  {
    && (forall k :: k in s.table.lastSeen ==> s.table.lastSeen[k] <= s.clock)
    && (forall t :: t in s.pcs && (s.pcs[t].Reaping? || s.pcs[t].ReapAwait?) ==> s.pcs[t].now <= s.clock)
  }

  /** Only the lock holder is inside the protocol. */
  ghost predicate Exclusive(s: System)
  {
    forall t: Task :: !s.Pc(t).Idle? <==> s.holder == Some(t)
  }

  /** The table respects its bound, and an admitted task that has not inserted yet has a free slot. */
  ghost predicate Bounded(cfg: Config, s: System)
  {
    && |s.table.sessions| <= cfg.max
    && (forall t: Task :: s.Pc(t).Admitted? ==> |s.table.sessions| < cfg.max)
  }

  /** What conservation looks at: the sessions, the counters and the past. */
  datatype Books = Books(sessions: map<Key, Transport>, created: nat, expired: nat, evicted: nat, past: History)

  function BooksOf(s: System): Books
  {
    Books(s.table.sessions, s.table.created, s.table.expired, s.table.evicted, s.past)
  }

  predicate Departed(past: History, id: nat)
  {
    id in past.expired || id in past.evicted || id in past.otherwise
  }

  predicate OneReason(past: History, id: nat)
  {
    && !(id in past.expired && id in past.evicted)
    && !(id in past.expired && id in past.otherwise)
    && !(id in past.evicted && id in past.otherwise)
  }

  /** The transport at a live key was issued and has not left, no other key holds it, and no departed
      transport left for two reasons. */
  ghost predicate Placed(b: Books)
  {
    && (forall k :: k in b.sessions ==> b.sessions[k].id < b.created && !Departed(b.past, b.sessions[k].id))
    && (forall k, k' :: k in b.sessions && k' in b.sessions && k != k' ==> b.sessions[k].id != b.sessions[k'].id)
    && (forall id: nat :: Departed(b.past, id) ==> id < b.created && OneReason(b.past, id))
  }

  /** created = active + expired + evicted + otherwise removed, and each counter counts its own heap. */
  ghost predicate Balanced(b: Books)
  {
    && b.created == |b.sessions| + b.expired + b.evicted + |b.past.otherwise|
    && b.expired == |b.past.expired|
    && b.evicted == |b.past.evicted|
  }

  ghost predicate Inv(cfg: Config, s: System)
  {
    && Stamped(s) && OwnersReachable(s) && ClockAhead(s) && Exclusive(s) && Bounded(cfg, s)
    && Placed(BooksOf(s)) && Balanced(BooksOf(s))
  }

  function Start(clock: real): System
  {
    System(EMPTY, clock, None, map[], History({}, {}, {}))
  }

  lemma StartInv(cfg: Config, clock: real)
    ensures Inv(cfg, Start(clock))
  {
  }

  lemma NextMeta(cfg: Config, s: System, a: Action)
    requires Stamped(s) && OwnersReachable(s) && Enabled(cfg, s, a)
    ensures OwnersReachable(Next(cfg, s, a))
  {
  }

  lemma SweepClock(cfg: Config, s: System, t: Task)
    requires Stamped(s) && ClockAhead(s) && s.Pc(t).Reaping? && s.Pc(t).todo != []
    ensures ClockAhead(Sweep(cfg, s, t))
  {
  }

  lemma NextClock(cfg: Config, s: System, a: Action)
    requires Stamped(s) && ClockAhead(s) && Enabled(cfg, s, a)
    ensures ClockAhead(Next(cfg, s, a))
  {
    if a.ReapNext? {
      SweepClock(cfg, s, a.task);
    }
  }

  lemma NextExclusive(cfg: Config, s: System, a: Action)
    requires Stamped(s) && Exclusive(s) && Enabled(cfg, s, a)
    ensures Exclusive(Next(cfg, s, a))
  {
  }

  // What an action does to the books.

  datatype Effect = Stay | Close(key: Key) | Leave(key: Key, reason: Reason) | Arrive(key: Key)

  function SweepEffect(cfg: Config, s: System, t: Task): Effect
    requires Stamped(s) && s.Pc(t).Reaping? && s.Pc(t).todo != []
  {
    match Verdict(s.table, s.Pc(t).todo[0], s.Pc(t).now, cfg.idle)
    case None => Stay
    case Some(reason) => Leave(s.Pc(t).todo[0], reason)
  }

  ghost function EffectOf(cfg: Config, s: System, a: Action): Effect
    requires Stamped(s) && Enabled(cfg, s, a)
  {
    match a
    case CloseTransport(key) => Close(key)
    case Delete(key) => Leave(key, Closed)
    case ReapNext(t) => SweepEffect(cfg, s, t)
    case EvictOne(_, victim) => Leave(victim, Evicted)
    case Insert(_, key) => Arrive(key)
    case _ => Stay
  }

  function Left(b: Books, key: Key, reason: Reason): Books
  {
    if key !in b.sessions then b
    else Books(b.sessions - {key}, b.created,
               b.expired + (if reason.Expired? then 1 else 0),
               b.evicted + (if reason.Evicted? then 1 else 0),
               Depart(b.sessions, b.past, key, reason))
  }

  function Post(b: Books, e: Effect): Books
  {
    match e
    case Stay => b
    case Close(key) =>
      if key in b.sessions then b.(sessions := b.sessions[key := b.sessions[key].(terminated := true)]) else b
    case Leave(key, reason) => Left(b, key, reason)
    case Arrive(key) =>
      var vacated := Left(b, key, Closed);
      vacated.(sessions := vacated.sessions[key := Transport(b.created, false)], created := b.created + 1)
  }

  lemma ReplaceIsVacateAndTake(m: map<Key, Transport>, key: Key, newcomer: Transport)
    ensures (m - {key})[key := newcomer] == m[key := newcomer]
    ensures key !in m ==> m - {key} == m
  {
  }

  lemma RemoveBooks(s: System, key: Key, reason: Reason)
    ensures BooksOf(Remove(s, key, reason)) == Left(BooksOf(s), key, reason)
  {
    ReplaceIsVacateAndTake(s.table.sessions, key, Transport(0, false));
  }

  lemma DroppedBooks(s: System, key: Key)
    ensures BooksOf(Dropped(s, key)) == Left(BooksOf(s), key, Closed)
  {
    ReplaceIsVacateAndTake(s.table.sessions, key, Transport(0, false));
  }

  lemma JoinedBooks(s: System, key: Key)
    ensures BooksOf(Joined(s, key)) == Post(BooksOf(s), Arrive(key))
  {
    ReplaceIsVacateAndTake(s.table.sessions, key, Transport(s.table.created, false));
  }

  lemma SweepBooks(cfg: Config, s: System, t: Task)
    requires Stamped(s) && s.Pc(t).Reaping? && s.Pc(t).todo != []
    ensures BooksOf(Sweep(cfg, s, t)) == Post(BooksOf(s), SweepEffect(cfg, s, t))
  {
    var verdict := Verdict(s.table, s.Pc(t).todo[0], s.Pc(t).now, cfg.idle);
    if verdict.Some? {
      RemoveBooks(s, s.Pc(t).todo[0], verdict.value);
    }
  }

  lemma NextBooks(cfg: Config, s: System, a: Action)
    requires Stamped(s) && Enabled(cfg, s, a)
    ensures BooksOf(Next(cfg, s, a)) == Post(BooksOf(s), EffectOf(cfg, s, a))
  {
    match a
    case ReapNext(t) => SweepBooks(cfg, s, t);
    case EvictOne(t, victim) => RemoveBooks(s, victim, Evicted);
    case Delete(key) => DroppedBooks(s, key);
    case Insert(t, key) => JoinedBooks(s, key);
    case _ =>
  }

  lemma LeftSize(b: Books, key: Key, reason: Reason)
    ensures |Left(b, key, reason).sessions| == |b.sessions| - if key in b.sessions then 1 else 0
  {
    assert (b.sessions - {key}).Keys == b.sessions.Keys - {key};
  }

  /** Only an arrival adds a session, and at most one. */
  lemma PostSize(b: Books, e: Effect)
    ensures |Post(b, e).sessions| <= |b.sessions| + if e.Arrive? then 1 else 0
  {
    match e
    case Stay =>
    case Close(key) => assert Post(b, e).sessions.Keys == b.sessions.Keys + (if key in b.sessions then {key} else {});
    case Leave(key, reason) => LeftSize(b, key, reason);
    case Arrive(key) =>
      LeftSize(b, key, Closed);
      assert Post(b, e).sessions.Keys == Left(b, key, Closed).sessions.Keys + {key};
  }

  lemma NextBounded(cfg: Config, s: System, a: Action)
    requires Stamped(s) && Exclusive(s) && Bounded(cfg, s) && Enabled(cfg, s, a)
    ensures Bounded(cfg, Next(cfg, s, a))
  {
    NextBooks(cfg, s, a);
    PostSize(BooksOf(s), EffectOf(cfg, s, a));
    NextExclusive(cfg, s, a);
  }

  lemma LeftPlaced(b: Books, key: Key, reason: Reason)
    requires Placed(b)
    ensures Placed(Left(b, key, reason))
  {
    if key in b.sessions {
      var past' := Depart(b.sessions, b.past, key, reason);
      assert forall id: nat :: Departed(past', id) <==> Departed(b.past, id) || id == b.sessions[key].id;
    }
  }

  lemma PostPlaced(b: Books, e: Effect)
    requires Placed(b)
    ensures Placed(Post(b, e))
  {
    match e
    case Stay =>
    case Close(key) =>
    case Leave(key, reason) => LeftPlaced(b, key, reason);
    case Arrive(key) => LeftPlaced(b, key, Closed);
  }

  lemma LeftBalanced(b: Books, key: Key, reason: Reason)
    requires Placed(b) && Balanced(b)
    ensures Balanced(Left(b, key, reason))
  {
    LeftSize(b, key, reason);
    if key in b.sessions {
      assert !Departed(b.past, b.sessions[key].id);
    }
  }

  lemma PostBalanced(b: Books, e: Effect)
    requires Placed(b) && Balanced(b)
    ensures Balanced(Post(b, e))
  {
    match e
    case Stay =>
    case Close(key) => if key in b.sessions { assert Post(b, e).sessions.Keys == b.sessions.Keys; }
    case Leave(key, reason) => LeftBalanced(b, key, reason);
    case Arrive(key) =>
      LeftBalanced(b, key, Closed);
      assert Post(b, e).sessions.Keys == Left(b, key, Closed).sessions.Keys + {key};
  }

  /** Every step keeps the invariant. */
  lemma NextInv(cfg: Config, s: System, a: Action)
    requires Inv(cfg, s) && Enabled(cfg, s, a)
    ensures Inv(cfg, Next(cfg, s, a))
  {
    NextMeta(cfg, s, a);
    NextClock(cfg, s, a);
    NextExclusive(cfg, s, a);
    NextBounded(cfg, s, a);
    NextBooks(cfg, s, a);
    PostPlaced(BooksOf(s), EffectOf(cfg, s, a));
    PostBalanced(BooksOf(s), EffectOf(cfg, s, a));
  }

  // ---------------------------------------------------------------------------
  // Whole runs
  // ---------------------------------------------------------------------------

  /** `acts` can be taken from `s`, one after the other. */
  ghost predicate Legal(cfg: Config, s: System, acts: seq<Action>)
    requires Stamped(s)
    decreases |acts|, 0
  {
    acts == []
    || (Legal(cfg, s, acts[..|acts| - 1])
        && Enabled(cfg, After(cfg, s, acts[..|acts| - 1]), acts[|acts| - 1]))
  }

  ghost function After(cfg: Config, s: System, acts: seq<Action>): (s': System)
    requires Stamped(s) && Legal(cfg, s, acts)
    ensures Stamped(s')
    decreases |acts|, 1
  {
    if acts == [] then s else Next(cfg, After(cfg, s, acts[..|acts| - 1]), acts[|acts| - 1])
  }

  lemma {:induction false} RunInv(cfg: Config, s: System, acts: seq<Action>)
    requires Inv(cfg, s) && Legal(cfg, s, acts)
    ensures Inv(cfg, After(cfg, s, acts))
  {
    if acts != [] {
      RunInv(cfg, s, acts[..|acts| - 1]);
      NextInv(cfg, After(cfg, s, acts[..|acts| - 1]), acts[|acts| - 1]);
    }
  }

  /** Safety: whatever the interleaving, the bound holds, every session is stamped, every owner record
      is within reach of the sweep and at most one task is inside. */
  lemma RunSafe(cfg: Config, clock: real, acts: seq<Action>)
    requires Legal(cfg, Start(clock), acts)
    ensures var s := After(cfg, Start(clock), acts);
            && |s.table.sessions| <= cfg.max
            && s.table.sessions.Keys <= s.table.lastSeen.Keys
            && s.table.owners.Keys <= s.table.lastSeen.Keys
            && (forall t: Task, u: Task :: !s.Pc(t).Idle? && !s.Pc(u).Idle? ==> t == u)
  {
    StartInv(cfg, clock);
    RunInv(cfg, Start(clock), acts);
  }

  /** The transports that are still in the table. */
  ghost function ActiveIds(m: map<Key, Transport>): (ids: set<nat>)
    ensures forall k :: k in m ==> m[k].id in ids
    ensures forall id :: id in ids ==> exists k :: k in m && m[k].id == id
  {
    if m == map[] then {}
    else
      var k :| k in m;
      assert forall x :: x in m <==> x == k || x in m - {k};
      ActiveIds(m - {k}) + {m[k].id}
  }

  lemma {:induction false} ActiveIdsSize(m: map<Key, Transport>)
    requires forall k, k' :: k in m && k' in m && k != k' ==> m[k].id != m[k'].id
    ensures |ActiveIds(m)| == |m|
  {
    if m != map[] {
      var k :| k in m && ActiveIds(m) == ActiveIds(m - {k}) + {m[k].id};
      ActiveIdsSize(m - {k});
      assert (m - {k}).Keys == m.Keys - {k};
      assert m[k].id !in ActiveIds(m - {k});
    }
  }

  lemma {:induction false} BelowSize(ids: set<nat>, n: nat, missing: nat)
    requires forall id :: id in ids ==> id < n
    requires missing < n && missing !in ids
    ensures |ids| < n
  {
    if n - 1 in ids {
      BelowSize(ids - {n - 1}, n - 1, missing);
    } else if missing < n - 1 {
      BelowSize(ids, n - 1, missing);
    } else if n > 1 && ids != {} {
      AllBelowSize(ids, n - 1);
    }
  }

  lemma {:induction false} AllBelowSize(ids: set<nat>, n: nat)
    requires forall id :: id in ids ==> id < n
    ensures |ids| <= n
  {
    if n == 0 {
      assert ids == {};
    } else if n - 1 in ids {
      AllBelowSize(ids - {n - 1}, n - 1);
    } else {
      AllBelowSize(ids, n - 1);
    }
  }

  lemma UnionSize(a: set<nat>, b: set<nat>, c: set<nat>, d: set<nat>)
    requires a !! b && a + b !! c && a + b + c !! d
    ensures |a + b + c + d| == |a| + |b| + |c| + |d|
  {
  }

  lemma PlacedDisjoint(b: Books)
    requires Placed(b)
    ensures var active := ActiveIds(b.sessions);
            active !! b.past.expired && active + b.past.expired !! b.past.evicted
            && active + b.past.expired + b.past.evicted !! b.past.otherwise
    ensures forall id :: id in ActiveIds(b.sessions) ==> id < b.created && !Departed(b.past, id)
  {
    forall id | id in ActiveIds(b.sessions) ensures id < b.created && !Departed(b.past, id) {
      var k :| k in b.sessions && b.sessions[k].id == id;
    }
    assert forall id: nat :: Departed(b.past, id) ==> OneReason(b.past, id);
    assert forall id :: id in b.past.evicted ==> Departed(b.past, id);
    assert forall id :: id in b.past.otherwise ==> Departed(b.past, id);
  }

  lemma NoneMissing(b: Books, id: nat)
    requires Placed(b) && Balanced(b) && id < b.created
    ensures id in ActiveIds(b.sessions) || Departed(b.past, id)
  {
    var active, past := ActiveIds(b.sessions), b.past;
    ActiveIdsSize(b.sessions);
    PlacedDisjoint(b);
    UnionSize(active, past.expired, past.evicted, past.otherwise);
    var all := active + past.expired + past.evicted + past.otherwise;
    if id !in all {
      forall x | x in all ensures x < b.created {
        assert x in active || Departed(past, x);
      }
      BelowSize(all, b.created, id);
    }
  }

  /** Conservation: in every reachable state the sessions ever created are the active, the expired, the
      evicted and the otherwise removed ones; each is in exactly one of these and none is lost. */
  lemma RunConserves(cfg: Config, clock: real, acts: seq<Action>)
    requires Legal(cfg, Start(clock), acts)
    ensures var s := After(cfg, Start(clock), acts);
            && s.table.created == |s.table.sessions| + s.table.expired + s.table.evicted + |s.past.otherwise|
            && s.table.expired == |s.past.expired| && s.table.evicted == |s.past.evicted|
            && (forall id: nat :: id < s.table.created <==> id in ActiveIds(s.table.sessions) || Departed(s.past, id))
            && (forall id: nat :: id in ActiveIds(s.table.sessions) ==> !Departed(s.past, id))
            && (forall id: nat :: Departed(s.past, id) ==> OneReason(s.past, id))
  {
    StartInv(cfg, clock);
    RunInv(cfg, Start(clock), acts);
    var b := BooksOf(After(cfg, Start(clock), acts));
    PlacedDisjoint(b);
    forall id: nat | id < b.created ensures id in ActiveIds(b.sessions) || Departed(b.past, id) {
      NoneMissing(b, id);
    }
  }

  // --- activity stamps ---

  /** `a` records activity of the session at `key`. */
  predicate Touches(s: System, a: Action, key: Key)
  {
    (a == Lookup(key) && key in s.table.sessions) || (a.Insert? && a.key == key)
  }

  /** When the session at `key` was last looked up or inserted during the run. */
  ghost function LastTouch(cfg: Config, s: System, acts: seq<Action>, key: Key): Option<real>
    requires Stamped(s) && Legal(cfg, s, acts)
  {
    if acts == [] then None
    else
      var before := After(cfg, s, acts[..|acts| - 1]);
      if Touches(before, acts[|acts| - 1], key) then Some(before.clock)
      else LastTouch(cfg, s, acts[..|acts| - 1], key)
  }

  lemma NextStamp(cfg: Config, s: System, a: Action, key: Key)
    requires Stamped(s) && Enabled(cfg, s, a)
    requires key in Next(cfg, s, a).table.sessions
    ensures Touches(s, a, key) ==> Next(cfg, s, a).table.lastSeen[key] == s.clock
    ensures !Touches(s, a, key) ==> key in s.table.sessions && Next(cfg, s, a).table.lastSeen[key] == s.table.lastSeen[key]
  {
  }

  /** The stamp of an active session is the time of its last touch. */
  lemma {:induction false} StampIsLastTouch(cfg: Config, clock: real, acts: seq<Action>, key: Key)
    requires Legal(cfg, Start(clock), acts)
    requires key in After(cfg, Start(clock), acts).table.sessions
    ensures LastTouch(cfg, Start(clock), acts, key) == Some(After(cfg, Start(clock), acts).table.lastSeen[key])
  {
    if acts != [] {
      var init, last := acts[..|acts| - 1], acts[|acts| - 1];
      NextStamp(cfg, After(cfg, Start(clock), init), last, key);
      if !Touches(After(cfg, Start(clock), init), last, key) {
        StampIsLastTouch(cfg, clock, init, key);
      }
    }
  }

  /** Eviction is least-recently-used over the whole run: no active session was touched before the victim was. */
  lemma EvictsLeastRecent(cfg: Config, clock: real, acts: seq<Action>, task: Task, victim: Key, other: Key)
    requires Legal(cfg, Start(clock), acts + [EvictOne(task, victim)])
    requires Legal(cfg, Start(clock), acts)
    requires other in After(cfg, Start(clock), acts).table.sessions
    ensures var start := Start(clock);
            LastTouch(cfg, start, acts, victim).Some? && LastTouch(cfg, start, acts, other).Some?
            && LastTouch(cfg, start, acts, victim).value <= LastTouch(cfg, start, acts, other).value
  {
    assert (acts + [EvictOne(task, victim)])[..|acts|] == acts;
    StampIsLastTouch(cfg, clock, acts, victim);
    StampIsLastTouch(cfg, clock, acts, other);
  }

  ghost predicate SeenSince(s: System, key: Key, since: real)
    requires Stamped(s)
  {
    since <= s.clock && (key in s.table.sessions ==> since <= s.table.lastSeen[key])
  }

  lemma {:induction false} StaysSeen(cfg: Config, s: System, acts: seq<Action>, key: Key, since: real)
    requires Stamped(s) && Legal(cfg, s, acts) && SeenSince(s, key, since)
    ensures SeenSince(After(cfg, s, acts), key, since)
  {
    if acts != [] {
      StaysSeen(cfg, s, acts[..|acts| - 1], key, since);
      var s' := After(cfg, s, acts);
      if key in s'.table.sessions {
        NextStamp(cfg, After(cfg, s, acts[..|acts| - 1]), acts[|acts| - 1], key);
      }
    }
  }

  /** A sweep that sampled `now` before a session was touched never expires that session, however many
      steps of other tasks fall between its suspension points. */
  lemma TouchedNotExpired(cfg: Config, s: System, touch: Action, acts: seq<Action>, task: Task, key: Key)
    requires Inv(cfg, s) && cfg.idle >= 0.0
    requires s.Pc(task).Reaping? || s.Pc(task).ReapAwait?
    requires Enabled(cfg, s, touch) && Touches(s, touch, key)
    requires Legal(cfg, Next(cfg, s, touch), acts)
    requires Enabled(cfg, After(cfg, Next(cfg, s, touch), acts), ReapNext(task))
    requires After(cfg, Next(cfg, s, touch), acts).Pc(task).now == s.Pc(task).now
    ensures EffectOf(cfg, After(cfg, Next(cfg, s, touch), acts), ReapNext(task)) != Leave(key, Expired)
  {
    var touched := Next(cfg, s, touch);
    assert key in touched.table.sessions;
    NextStamp(cfg, s, touch, key);
    StaysSeen(cfg, touched, acts, key, s.clock);
    assert s.Pc(task).now <= s.clock;
  }

  // --- admission terminates ---

  predicate Waiting(pc: Pc)
  {
    pc.Evicting? || pc.EvictAwait? || pc.Reaping? || pc.ReapAwait?
  }

  /** A bound on the steps the lock holder still needs before it is admitted or done. */
  function Rank(cfg: Config, s: System, task: Task): nat
  {
    RankOf(cfg.max, |s.table.sessions|, s.Pc(task))
  }

  function RankOf(max: nat, n: nat, pc: Pc): nat
  {
    match pc
    case Reaping(_, todo, _) => 2 * max + 2 * |todo| + 2
    case ReapAwait(_, todo, _) => 2 * max + 2 * |todo| + 3
    case Evicting => 2 * n + 1
    case EvictAwait => 2 * n + 2
    case _ => 0
  }

  /** How many sessions the lock holder may still evict. */
  function Budget(cfg: Config, s: System, task: Task): nat
  {
    if Waiting(s.Pc(task)) && |s.table.sessions| >= cfg.max then |s.table.sessions| - cfg.max + 1 else 0
  }

  /** `a` moves the lock holder `task` through its sweep or its eviction loop. */
  predicate Advances(a: Action, task: Task)
  {
    match a
    case ReapNext(t) => t == task
    case Resume(t) => t == task
    case ReapDone(t) => t == task
    case EvictOne(t, _) => t == task
    case Admit(t) => t == task
    case Abort(t) => t == task
    case _ => false
  }

  predicate Evicts(a: Action, task: Task)
  {
    a.EvictOne? && a.task == task
  }

  predicate BeginsFor(a: Action, task: Task)
  {
    a.Begin? && a.task == task
  }

  lemma EvictShrinks(cfg: Config, s: System, a: Action)
    requires Stamped(s) && Enabled(cfg, s, a) && a.EvictOne?
    ensures |Next(cfg, s, a).table.sessions| == |s.table.sessions| - 1
  {
    NextBooks(cfg, s, a);
    LeftSize(BooksOf(s), a.victim, Evicted);
  }

  /** Only the lock holder inserts, so nobody adds a session while it waits. */
  lemma NoArrivals(cfg: Config, s: System, a: Action, task: Task)
    requires Inv(cfg, s) && Enabled(cfg, s, a) && Waiting(s.Pc(task))
    ensures |Next(cfg, s, a).table.sessions| <= |s.table.sessions|
  {
    NextBooks(cfg, s, a);
    PostSize(BooksOf(s), EffectOf(cfg, s, a));
  }

  predicate By(a: Action, task: Task)
  {
    match a
    case Begin(t, _, _) => t == task
    case Exit(t) => t == task
    case Abort(t) => t == task
    case ReapNext(t) => t == task
    case Resume(t) => t == task
    case ReapDone(t) => t == task
    case EvictOne(t, _) => t == task
    case Admit(t) => t == task
    case Insert(t, _) => t == task
    case _ => false
  }

  lemma OthersKeepPc(cfg: Config, s: System, a: Action, task: Task)
    requires Stamped(s) && Enabled(cfg, s, a) && !By(a, task)
    ensures Next(cfg, s, a).Pc(task) == s.Pc(task)
  {
  }

  lemma OwnPc(cfg: Config, s: System, a: Action, task: Task)
    requires Stamped(s) && Enabled(cfg, s, a) && By(a, task) && !a.Begin?
    ensures var pc, pc' := s.Pc(task), Next(cfg, s, a).Pc(task);
            match pc
            case Reaping(_, todo, _) =>
              if todo == [] then pc'.Evicting? || pc'.Idle?
              else (pc'.Reaping? || pc'.ReapAwait?) && |pc'.todo| == |todo| - 1
            case ReapAwait(_, todo, _) => (pc'.Reaping? && pc'.todo == todo) || pc'.Idle?
            case Evicting => if a.EvictOne? then pc'.EvictAwait? else pc'.Admitted? || pc'.Idle?
            case EvictAwait => pc'.Evicting? || pc'.Idle?
            case _ => !Waiting(pc')
  {
  }

  lemma RankDrops(cfg: Config, s: System, a: Action, task: Task)
    requires Inv(cfg, s) && Enabled(cfg, s, a) && !BeginsFor(a, task)
    ensures Rank(cfg, Next(cfg, s, a), task) <= Rank(cfg, s, task)
    ensures Advances(a, task) ==> Rank(cfg, Next(cfg, s, a), task) < Rank(cfg, s, task)
  {
    if Waiting(s.Pc(task)) {
      NoArrivals(cfg, s, a, task);
    }
    if !By(a, task) {
      OthersKeepPc(cfg, s, a, task);
    } else {
      OwnPc(cfg, s, a, task);
      if a.EvictOne? {
        EvictShrinks(cfg, s, a);
      }
    }
  }

  lemma BudgetDrops(cfg: Config, s: System, a: Action, task: Task)
    requires Inv(cfg, s) && Enabled(cfg, s, a) && !BeginsFor(a, task)
    ensures Budget(cfg, Next(cfg, s, a), task) <= Budget(cfg, s, task)
    ensures Evicts(a, task) ==> Budget(cfg, Next(cfg, s, a), task) < Budget(cfg, s, task)
  {
    if Waiting(s.Pc(task)) {
      NoArrivals(cfg, s, a, task);
    }
    if !By(a, task) {
      OthersKeepPc(cfg, s, a, task);
    } else if a.EvictOne? {
      EvictShrinks(cfg, s, a);
    }
  }

  function Steps(acts: seq<Action>, task: Task): nat
  {
    if acts == [] then 0
    else Steps(acts[..|acts| - 1], task) + if Advances(acts[|acts| - 1], task) then 1 else 0
  }

  function Evictions(acts: seq<Action>, task: Task): nat
  {
    if acts == [] then 0
    else Evictions(acts[..|acts| - 1], task) + if Evicts(acts[|acts| - 1], task) then 1 else 0
  }

  /** The sweep and the eviction loop terminate: in any interleaving a lock holder takes a bounded number
      of steps, and evicts at most one session, before it must take the lock again. */
  lemma {:induction false} AdmissionBounded(cfg: Config, s: System, acts: seq<Action>, task: Task)
    requires Inv(cfg, s) && Legal(cfg, s, acts)
    requires forall i :: 0 <= i < |acts| ==> !BeginsFor(acts[i], task)
    ensures Steps(acts, task) + Rank(cfg, After(cfg, s, acts), task) <= Rank(cfg, s, task)
    ensures Evictions(acts, task) + Budget(cfg, After(cfg, s, acts), task) <= Budget(cfg, s, task) <= 1
  {
    if acts != [] {
      var init := acts[..|acts| - 1];
      AdmissionBounded(cfg, s, init, task);
      RunInv(cfg, s, init);
      RankDrops(cfg, After(cfg, s, init), acts[|acts| - 1], task);
      BudgetDrops(cfg, After(cfg, s, init), acts[|acts| - 1], task);
    }
  }

  lemma {:induction false} OldestExists(t: Table, keys: set<Key>) returns (key: Key)
    requires t.sessions.Keys <= t.lastSeen.Keys
    requires keys != {} && keys <= t.sessions.Keys
    ensures key in keys && forall k :: k in keys ==> t.lastSeen[key] <= t.lastSeen[k]
  {
    key :| key in keys;
    if keys != {key} {
      var best := OldestExists(t, keys - {key});
      if t.lastSeen[best] < t.lastSeen[key] {
        key := best;
      }
    }
  }

  /** No deadlock: a lock holder that is not admitted yet always has a step of its own, and unless the bound is
      zero it need not give up. */
  lemma HolderCanStep(cfg: Config, s: System, task: Task) returns (a: Action)
    requires Inv(cfg, s) && Waiting(s.Pc(task))
    ensures Advances(a, task) && Enabled(cfg, s, a) && (cfg.max >= 1 ==> !a.Abort?)
  {
    match s.Pc(task)
    case Reaping(_, todo, _) => a := if todo == [] then ReapDone(task) else ReapNext(task);
    case ReapAwait(_, _, _) => a := Resume(task);
    case EvictAwait => a := Resume(task);
    case Evicting =>
      if |s.table.sessions| < cfg.max {
        a := Admit(task);
      } else if s.table.sessions == map[] {
        a := Abort(task);
      } else {
        var victim := OldestExists(s.table, s.table.sessions.Keys);
        a := EvictOne(task, victim);
      }
  }

  // ---------------------------------------------------------------------------
  // Admission completes
  // ---------------------------------------------------------------------------

  /** A run that starts with `a`. */
  lemma {:induction false} LegalFirst(cfg: Config, s: System, a: Action, rest: seq<Action>)
    requires Stamped(s) && Enabled(cfg, s, a) && Legal(cfg, Next(cfg, s, a), rest)
    ensures Legal(cfg, s, [a] + rest) && After(cfg, s, [a] + rest) == After(cfg, Next(cfg, s, a), rest)
  {
    if rest == [] {
      assert [a] + rest == [a] && [a][..0] == [];
      assert Legal(cfg, s, [a][..0]);
    } else {
      var init, last := rest[..|rest| - 1], rest[|rest| - 1];
      LegalFirst(cfg, s, a, init);
      assert ([a] + rest)[..|rest|] == [a] + init && ([a] + rest)[|rest|] == last;
    }
  }

  /** On the way to admission. */
  predicate Entering(pc: Pc)
  {
    pc.Evicting? || pc.EvictAwait? || ((pc.Reaping? || pc.ReapAwait?) && pc.admit)
  }

  lemma EnteringStep(cfg: Config, s: System, a: Action, task: Task)
    requires Stamped(s) && Enabled(cfg, s, a) && Advances(a, task) && !a.Abort? && Entering(s.Pc(task))
    ensures Entering(Next(cfg, s, a).Pc(task)) || Next(cfg, s, a).Pc(task).Admitted?
  {
  }

  predicate AllBy(acts: seq<Action>, task: Task)
  {
    forall i :: 0 <= i < |acts| ==> Advances(acts[i], task)
  }

  /** From every reachable state a task on its way in can finish by its own steps alone: nobody else has to move. */
  lemma {:induction false} AdmissionCompletes(cfg: Config, s: System, task: Task) returns (acts: seq<Action>)
    requires Inv(cfg, s) && cfg.max >= 1 && Entering(s.Pc(task))
    ensures AllBy(acts, task) && Legal(cfg, s, acts) && After(cfg, s, acts).Pc(task).Admitted?
    decreases Rank(cfg, s, task)
  {
    var a := HolderCanStep(cfg, s, task);
    EnteringStep(cfg, s, a, task);
    NextInv(cfg, s, a);
    RankDrops(cfg, s, a, task);
    var s' := Next(cfg, s, a);
    var rest: seq<Action> := [];
    if Entering(s'.Pc(task)) {
      rest := AdmissionCompletes(cfg, s', task);
    } else {
      assert After(cfg, s', rest) == s';
    }
    LegalFirst(cfg, s, a, rest);
    acts := [a] + rest;
  }
}
