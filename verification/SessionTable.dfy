/** The bounded HTTP session table (chitta-mcp/mcp_transport.py): its synchronous
    updates as functions on table values, and the class that applies them in place. */
module SessionTable {
  import opened Prelude

  type Key = string

  /** A transport; `id` is its object identity. */
  datatype Transport = Transport(id: nat, terminated: bool)

  datatype Reason = Closed | Expired | Evicted

  datatype Table = Table(
    sessions: map<Key, Transport>,
    lastSeen: map<Key, real>,
    owners: map<Key, string>,
    created: nat,
    expired: nat,
    evicted: nat)

  const EMPTY := Table(map[], map[], map[], 0, 0, 0)

  /** `__setitem__` */
  function Inserted(t: Table, key: Key, transport: Transport, now: real): Table
  {
    t.(sessions := t.sessions[key := transport], lastSeen := t.lastSeen[key := now], created := t.created + 1)
  }

  /** `__getitem__`: a missing key raises before activity is recorded. */
  function Touched(t: Table, key: Key, now: real): Table
  {
    if key in t.sessions then t.(lastSeen := t.lastSeen[key := now]) else t
  }

  /** The part of `_remove` before `terminate()` is awaited. */
  function Detached(t: Table, key: Key, reason: Reason): Table
  {
    var bare := t.(sessions := t.sessions - {key}, lastSeen := t.lastSeen - {key}, owners := t.owners - {key});
    if key !in t.sessions then bare
    else match reason
      case Expired => bare.(expired := t.expired + 1)
      case Evicted => bare.(evicted := t.evicted + 1)
      case Closed => bare
  }

  /** What `_reap` decides for one key: leave it alone, or detach it for a reason. */
  function Verdict(t: Table, key: Key, now: real, idle: real): Option<Reason>
    requires t.sessions.Keys <= t.lastSeen.Keys
  {
    if key !in t.sessions || t.sessions[key].terminated then Some(Closed)
    else if now - t.lastSeen[key] > idle then Some(Expired)
    else None
  }

  function ReapedOne(t: Table, key: Key, now: real, idle: real): Table
    requires t.sessions.Keys <= t.lastSeen.Keys
  {
    match Verdict(t, key, now, idle)
    case Some(reason) => Detached(t, key, reason)
    case None => t
  }

  /** The `_reap` loop over `keys`. */
  function ReapedAll(t: Table, keys: seq<Key>, now: real, idle: real): (u: Table)
    requires t.sessions.Keys <= t.lastSeen.Keys
    ensures u.sessions.Keys <= u.lastSeen.Keys
  {
    if keys == [] then t
    else ReapedOne(ReapedAll(t, keys[..|keys| - 1], now, idle), keys[|keys| - 1], now, idle)
  }

  /** The key `min(self, key=last_seen)` may return. */
  ghost predicate IsOldest(t: Table, key: Key)
    requires t.sessions.Keys <= t.lastSeen.Keys
  {
    key in t.sessions && forall k :: k in t.sessions ==> t.lastSeen[key] <= t.lastSeen[k]
  }

  /** The sessions an undisturbed sweep at `now` must keep. */
  ghost predicate Survives(t: Table, key: Key, now: real, idle: real)
    requires t.sessions.Keys <= t.lastSeen.Keys
  {
    key in t.sessions && !t.sessions[key].terminated && now - t.lastSeen[key] <= idle
  }

  /** The sessions an undisturbed sweep at `now` must expire. */
  ghost function Idlers(t: Table, now: real, idle: real): set<Key>
    requires t.sessions.Keys <= t.lastSeen.Keys
  {
    set k | k in t.sessions && !t.sessions[k].terminated && now - t.lastSeen[k] > idle
  }

  /** The keys among `done` that a sweep at `now` forgets. */
  ghost function Dead(t: Table, now: real, idle: real, done: set<Key>): set<Key>
    requires t.sessions.Keys <= t.lastSeen.Keys
  {
    set k | k in done && !Survives(t, k, now, idle)
  }

  /** `t` after a sweep at `now` has dealt with the keys in `done` and no others. */
  ghost function Swept(t: Table, now: real, idle: real, done: set<Key>): Table
    requires t.sessions.Keys <= t.lastSeen.Keys
  {
    var dead := Dead(t, now, idle, done);
    Table(t.sessions - dead, t.lastSeen - dead, t.owners - dead,
          t.created, t.expired + |Idlers(t, now, idle) * done|, t.evicted)
  }

  lemma SweepStart(t: Table, now: real, idle: real)
    requires t.sessions.Keys <= t.lastSeen.Keys
    ensures Swept(t, now, idle, {}) == t
  {
    assert Dead(t, now, idle, {}) == {};
    assert Idlers(t, now, idle) * {} == {};
  }

  lemma SubtractOne<V>(m: map<Key, V>, a: set<Key>, key: Key)
    ensures m - a - {key} == m - (a + {key})
  {
  }

  lemma DeadGrows(t: Table, now: real, idle: real, done: set<Key>, key: Key)
    requires t.sessions.Keys <= t.lastSeen.Keys
    ensures Survives(t, key, now, idle) ==> Dead(t, now, idle, done + {key}) == Dead(t, now, idle, done)
    ensures !Survives(t, key, now, idle) ==> Dead(t, now, idle, done + {key}) == Dead(t, now, idle, done) + {key}
  {
  }

  lemma CountGrows(a: set<Key>, done: set<Key>, key: Key)
    requires key !in done
    ensures |a * (done + {key})| == |a * done| + if key in a then 1 else 0
  {
    if key in a {
      assert a * (done + {key}) == a * done + {key};
    } else {
      assert a * (done + {key}) == a * done;
    }
  }

  lemma SameVerdict(t: Table, u: Table, now: real, idle: real, done: set<Key>, key: Key)
    requires t.sessions.Keys <= t.lastSeen.Keys && u.sessions.Keys <= u.lastSeen.Keys
    requires u == Swept(t, now, idle, done)
    requires key !in done
    ensures Verdict(u, key, now, idle) == Verdict(t, key, now, idle)
    ensures key in u.sessions <==> key in t.sessions
  {
    var dead := Dead(t, now, idle, done);
    assert key !in dead;
  }

  lemma SweepStep(t: Table, u: Table, now: real, idle: real, done: set<Key>, key: Key)
    requires t.sessions.Keys <= t.lastSeen.Keys && u.sessions.Keys <= u.lastSeen.Keys
    requires u == Swept(t, now, idle, done)
    requires key !in done
    ensures ReapedOne(u, key, now, idle) == Swept(t, now, idle, done + {key})
  {
    var dead := Dead(t, now, idle, done);
    DeadGrows(t, now, idle, done, key);
    CountGrows(Idlers(t, now, idle), done, key);
    SameVerdict(t, u, now, idle, done, key);
    if Verdict(t, key, now, idle).None? {
      assert Dead(t, now, idle, done + {key}) == dead;
    } else {
      SubtractOne(t.sessions, dead, key);
      SubtractOne(t.lastSeen, dead, key);
      SubtractOne(t.owners, dead, key);
    }
  }

  lemma ElementsSplit(keys: seq<Key>)
    requires keys != []
    ensures Elements(keys) == Elements(keys[..|keys| - 1]) + {keys[|keys| - 1]}
    ensures Distinct(keys) ==> keys[|keys| - 1] !in Elements(keys[..|keys| - 1])
  {
    assert keys == keys[..|keys| - 1] + [keys[|keys| - 1]];
  }

  /** Visiting each key once, in whatever order, sweeps exactly those keys. */
  lemma {:induction false} SweepExact(t: Table, keys: seq<Key>, now: real, idle: real)
    requires t.sessions.Keys <= t.lastSeen.Keys && Distinct(keys)
    ensures ReapedAll(t, keys, now, idle) == Swept(t, now, idle, Elements(keys))
  {
    if keys == [] {
      SweepStart(t, now, idle);
      assert Elements(keys) == {};
    } else {
      var init, last := keys[..|keys| - 1], keys[|keys| - 1];
      SweepExact(t, init, now, idle);
      ElementsSplit(keys);
      SweepStep(t, ReapedAll(t, init, now, idle), now, idle, Elements(init), last);
    }
  }

  /** Some set of victims leaves `u`, each at least as stale as every key that stays. */
  ghost predicate LeastRecentGone(t: Table, u: Table)
    requires t.sessions.Keys <= t.lastSeen.Keys
  {
    && u.sessions.Keys <= t.sessions.Keys
    && (forall k :: k in u.sessions ==> u.sessions[k] == t.sessions[k] && k in u.lastSeen && u.lastSeen[k] == t.lastSeen[k])
    && (forall gone, kept :: gone in t.sessions && gone !in u.sessions && kept in u.sessions
          ==> t.lastSeen[gone] <= t.lastSeen[kept])
    && (forall gone :: gone in t.sessions && gone !in u.sessions ==> gone !in u.lastSeen && gone !in u.owners)
    && u.created == t.created && u.expired == t.expired
    && u.evicted - t.evicted == |t.sessions| - |u.sessions|
  }

  lemma EvictStep(t: Table, u: Table, victim: Key)
    requires t.sessions.Keys <= t.lastSeen.Keys && u.sessions.Keys <= u.lastSeen.Keys
    requires LeastRecentGone(t, u) && IsOldest(u, victim)
    ensures LeastRecentGone(t, Detached(u, victim, Evicted))
    ensures |Detached(u, victim, Evicted).sessions| == |u.sessions| - 1
  {
    assert (u.sessions - {victim}).Keys == u.sessions.Keys - {victim};
  }

  class HttpSessionTable {
    var sessions: map<Key, Transport>
    var lastSeen: map<Key, real>
    var owners: map<Key, string>
    var created: nat
    var expired: nat
    var evicted: nat
    const idle: real
    const maxSessions: nat

    function View(): Table
      reads this
    {
      Table(sessions, lastSeen, owners, created, expired, evicted)
    }

    /** Every session has an activity stamp. */
    predicate Valid()
      reads this
    {
      sessions.Keys <= lastSeen.Keys
    }

    constructor (owners: map<Key, string>, idle: real, maxSessions: nat)
      ensures View() == EMPTY.(owners := owners) && Valid()
      ensures this.idle == idle && this.maxSessions == maxSessions
    {
      this.owners, this.idle, this.maxSessions := owners, idle, maxSessions;
      sessions, lastSeen := map[], map[];
      created, expired, evicted := 0, 0, 0;
    }

    method SetItem(key: Key, transport: Transport, now: real)
      requires Valid()
      modifies this
      ensures Valid()
      ensures View() == Inserted(old(View()), key, transport, now)
    {
      sessions := sessions[key := transport];
      lastSeen := lastSeen[key := now];
      created := created + 1;
    }

    method GetItem(key: Key, now: real) returns (transport: Option<Transport>)
      requires Valid()
      modifies this
      ensures Valid()
      ensures transport == if key in old(sessions) then Some(old(sessions)[key]) else None
      ensures View() == Touched(old(View()), key, now)
    {
      if key !in sessions {
        return None;
      }
      transport := Some(sessions[key]);
      lastSeen := lastSeen[key := now];
    }

    method Remove(key: Key, reason: Reason)
      requires Valid()
      modifies this
      ensures Valid()
      ensures View() == Detached(old(View()), key, reason)
    {
      var present := key in sessions;
      sessions := sessions - {key};
      lastSeen := lastSeen - {key};
      owners := owners - {key};
      if present {
        match reason {
          case Expired => expired := expired + 1;
          case Evicted => evicted := evicted + 1;
          case Closed =>
        }
      }
    }

    /** The body of the `_reap` loop. */
    method ReapKey(key: Key, now: real)
      requires Valid()
      modifies this
      ensures Valid()
      ensures View() == ReapedOne(old(View()), key, now, idle)
    {
      if key !in sessions {
        lastSeen := lastSeen - {key};
        owners := owners - {key};
        assert sessions - {key} == sessions;
      } else if sessions[key].terminated {
        Remove(key, Closed);
      } else if now - lastSeen[key] > idle {
        Remove(key, Expired);
      }
    }

    /** One sweep that no other task disturbs: it keeps exactly the sessions that are open and
        active, forgets the metadata of every other stamped key, and counts each idle session once. */
    method Reap(now: real)
      requires Valid()
      modifies this
      ensures Valid()
      ensures View() == Swept(old(View()), now, idle, old(lastSeen).Keys)
    {
      ghost var start := View();
      var keys := Enumerate(lastSeen.Keys);
      for i := 0 to |keys|
        invariant Valid()
        invariant View() == ReapedAll(start, keys[..i], now, idle)
      {
        assert keys[..i + 1][..i] == keys[..i];
        ReapKey(keys[i], now);
      }
      assert keys[..|keys|] == keys;
      SweepExact(start, keys, now, idle);
    }

    /** `min(self, key=lambda key: self.last_seen[key])` */
    method Oldest() returns (key: Key)
      requires Valid() && sessions != map[]
      ensures IsOldest(View(), key)
    {
      key :| key in sessions;
      var rest := sessions.Keys - {key};
      while rest != {}
        invariant key in sessions && rest <= sessions.Keys
        invariant forall k :: k in sessions && k !in rest ==> lastSeen[key] <= lastSeen[k]
        decreases rest
      {
        var k :| k in rest;
        if lastSeen[k] < lastSeen[key] {
          key := k;
        }
        rest := rest - {k};
      }
    }

    /** Admission that no other task disturbs: after the sweep, the least recently seen sessions make
        room, and no more of them than needed. With a bound of zero the table is emptied and `min` then
        fails, so nobody is admitted. */
    method Enter(now: real) returns (admitted: bool, ghost swept: Table)
      requires Valid()
      modifies this
      ensures Valid() && (admitted <==> maxSessions >= 1)
      ensures swept == Swept(old(View()), now, idle, old(lastSeen).Keys)
      ensures swept.sessions.Keys <= swept.lastSeen.Keys && LeastRecentGone(swept, View())
      ensures |sessions| == if |swept.sessions| < maxSessions then |swept.sessions|
                            else if admitted then maxSessions - 1 else 0
    {
      Reap(now);
      swept := View();
      while |sessions| >= maxSessions
        invariant Valid()
        invariant LeastRecentGone(swept, View())
        invariant |sessions| == |swept.sessions| || maxSessions - 1 <= |sessions| <= |swept.sessions|
        decreases |sessions|
      {
        if sessions == map[] {
          return false, swept;
        }
        var oldest := Oldest();
        EvictStep(swept, View(), oldest);
        Remove(oldest, Evicted);
      }
      admitted := true;
    }
  }
}
