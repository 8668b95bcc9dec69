/** Merging chitta's hooks into a Codex hooks file and taking them out again (chitta-mcp/install.py). */
module HookFile {
  import opened Prelude

  datatype Hook = Hook(command: string, timeout: Option<int>)

  datatype Matcher = Matcher(pattern: string, hooks: seq<Hook>)

  /** The "hooks" object: matchers by event. */
  type Events = map<string, seq<Matcher>>

  /** `_is_cc_soul_hook_command`, by hook. */
  type Ours = Hook -> bool

  predicate HasOurs(m: Matcher, ours: Ours)
  {
    exists i :: 0 <= i < |m.hooks| && ours(m.hooks[i])
  }

  /** The matchers without a chitta command, in order. */
  function Foreign(ms: seq<Matcher>, ours: Ours): seq<Matcher>
  {
    if ms == [] then []
    else Foreign(ms[..|ms| - 1], ours) + if HasOurs(ms[|ms| - 1], ours) then [] else [ms[|ms| - 1]]
  }

  function At(events: Events, e: string): seq<Matcher>
  {
    if e in events then events[e] else []
  }

  // ---------------------------------------------------------------------------
  // Install
  // ---------------------------------------------------------------------------

  /** What installing must leave: foreign matchers, then the generated ones. An event keeps its key if it has
      foreign matchers or is generated. */
  ghost predicate IsInstalled(existing: Events, generated: Events, ours: Ours, r: Events)
  {
    && (forall e :: e in r <==> e in generated || Foreign(At(existing, e), ours) != [])
    && (forall e :: At(r, e) == Foreign(At(existing, e), ours) + At(generated, e))
  }

  /** What a pass does to the matchers of one event. */
  type Edit = seq<Matcher> -> seq<Matcher>

  function ForeignOnly(ours: Ours): Edit
  {
    (ms: seq<Matcher>) => Foreign(ms, ours)
  }

  /** `events` with the events in `done` edited; an event that is left without matchers goes. */
  ghost predicate Edited(events: Events, edit: Edit, done: set<string>, r: Events)
  {
    && (forall e :: At(r, e) == if e in done && e in events then edit(At(events, e)) else At(events, e))
    && (forall e :: e in r ==> e in events && (e in done ==> r[e] != []))
  }

  /** `hooks[event] = kept`, or `del hooks[event]`. */
  function Replace(r: Events, event: string, kept: seq<Matcher>): Events
  {
    if kept != [] then r[event := kept] else r - {event}
  }

  lemma EditedStep(events: Events, edit: Edit, done: set<string>, r: Events, event: string)
    requires Edited(events, edit, done, r) && event !in done && event in events
    ensures At(r, event) == events[event]
    ensures Edited(events, edit, done + {event}, Replace(r, event, edit(events[event])))
  {
    assert At(r, event) == At(events, event);
  }

  /** One event of the first pass: its foreign matchers, or nothing. */
  method StripEvent(ghost events: Events, ours: Ours, ghost done: set<string>, r: Events, event: string)
    returns (next: Events)
    requires Edited(events, ForeignOnly(ours), done, r) && event !in done && event in events
    ensures Edited(events, ForeignOnly(ours), done + {event}, next)
  {
    EditedStep(events, ForeignOnly(ours), done, r, event);
    next := Replace(r, event, Foreign(At(r, event), ours));
  }

  /** The first pass of the merge, over the keys the file had. */
  method StripAll(events: Events, ours: Ours) returns (r: Events)
    ensures Edited(events, ForeignOnly(ours), events.Keys, r)
  {
    r := events;
    var list := Enumerate(events.Keys);
    ghost var done: set<string> := {};
    for i := 0 to |list|
      invariant done == Elements(list[..i])
      invariant Edited(events, ForeignOnly(ours), done, r)
    {
      assert list[i] in Elements(list);
      TakeNext(list, i);
      r := StripEvent(events, ours, done, r, list[i]);
      done := done + {list[i]};
    }
    assert list[..|list|] == list;
  }

  lemma TakeNext(list: seq<string>, i: nat)
    requires i < |list| && Distinct(list)
    ensures list[..i + 1][..i] == list[..i] && list[..i + 1][i] == list[i]
    ensures Elements(list[..i + 1]) == Elements(list[..i]) + {list[i]} && list[i] !in Elements(list[..i])
  {
  }

  /** `stripped` with the generated matchers of the events in `done` appended. */
  ghost predicate Merged(stripped: Events, generated: Events, done: set<string>, r: Events)
  {
    && (forall e :: e in r <==> e in stripped || e in done)
    && (forall e :: At(r, e) == At(stripped, e) + if e in done then At(generated, e) else [])
  }

  lemma MergedStep(stripped: Events, generated: Events, done: set<string>, r: Events, event: string)
    requires Merged(stripped, generated, done, r) && event !in done && event in generated
    ensures At(r, event) == At(stripped, event)
    ensures Merged(stripped, generated, done + {event}, r[event := At(stripped, event) + generated[event]])
  {
  }

  /** One generated event of the second pass: filter once more, then append the generated matchers. */
  method AppendEvent(ghost stripped: Events, generated: Events, ours: Ours, ghost done: set<string>, r: Events,
                     event: string)
    returns (next: Events)
    requires Merged(stripped, generated, done, r) && event !in done && event in generated
    requires Foreign(At(stripped, event), ours) == At(stripped, event)
    ensures Merged(stripped, generated, done + {event}, next)
  {
    MergedStep(stripped, generated, done, r, event);
    if event !in r {
      next := r[event := generated[event]];
      assert At(stripped, event) + generated[event] == generated[event];
    } else {
      next := r[event := Foreign(r[event], ours) + generated[event]];
    }
  }

  ghost predicate AllForeign(events: Events, ours: Ours)
  {
    forall e :: Foreign(At(events, e), ours) == At(events, e)
  }

  /** The second pass of the merge. */
  method AppendGenerated(stripped: Events, generated: Events, ours: Ours) returns (r: Events)
    requires AllForeign(stripped, ours)
    ensures Merged(stripped, generated, generated.Keys, r)
  {
    r := stripped;
    var list := Enumerate(generated.Keys);
    ghost var done: set<string> := {};
    for i := 0 to |list|
      invariant done == Elements(list[..i])
      invariant Merged(stripped, generated, done, r)
    {
      assert list[i] in Elements(list);
      TakeNext(list, i);
      r := AppendEvent(stripped, generated, ours, done, r, list[i]);
      done := done + {list[i]};
    }
    assert list[..|list|] == list;
  }

  /** The merge in `_install_codex` when a hooks file exists. */
  method Install(existing: Events, generated: Events, ours: Ours) returns (r: Events)
    ensures IsInstalled(existing, generated, ours, r)
  {
    var stripped := StripAll(existing, ours);
    forall e ensures Foreign(At(stripped, e), ours) == At(stripped, e) {
      StrippedAt(existing, ours, stripped, e);
    }
    r := AppendGenerated(stripped, generated, ours);
    MergedIsInstalled(existing, generated, ours, stripped, r);
  }

  /** Filtering a stripped event once more changes nothing. */
  lemma StrippedAt(existing: Events, ours: Ours, stripped: Events, e: string)
    requires Edited(existing, ForeignOnly(ours), existing.Keys, stripped)
    ensures At(stripped, e) == Foreign(At(existing, e), ours)
    ensures Foreign(At(stripped, e), ours) == At(stripped, e)
    ensures e in stripped <==> At(stripped, e) != []
  {
    ForeignTwice(At(existing, e), ours);
  }

  lemma MergedIsInstalled(existing: Events, generated: Events, ours: Ours, stripped: Events, r: Events)
    requires Edited(existing, ForeignOnly(ours), existing.Keys, stripped)
    requires Merged(stripped, generated, generated.Keys, r)
    ensures IsInstalled(existing, generated, ours, r)
  {
    forall e ensures At(r, e) == Foreign(At(existing, e), ours) + At(generated, e)
             ensures e in r <==> e in generated || Foreign(At(existing, e), ours) != []
    {
      StrippedAt(existing, ours, stripped, e);
    }
  }

  lemma ForeignSnoc(ms: seq<Matcher>, m: Matcher, ours: Ours)
    ensures Foreign(ms + [m], ours) == Foreign(ms, ours) + if HasOurs(m, ours) then [] else [m]
  {
    assert (ms + [m])[..|ms|] == ms;
  }

  lemma {:induction false} ForeignTwice(ms: seq<Matcher>, ours: Ours)
    ensures Foreign(Foreign(ms, ours), ours) == Foreign(ms, ours)
  {
    if ms != [] {
      var init, m := Foreign(ms[..|ms| - 1], ours), ms[|ms| - 1];
      ForeignTwice(ms[..|ms| - 1], ours);
      if HasOurs(m, ours) {
        assert Foreign(ms, ours) == init;
      } else {
        ForeignSnoc(init, m, ours);
      }
    }
  }

  lemma {:induction false} ForeignConcat(a: seq<Matcher>, b: seq<Matcher>, ours: Ours)
    ensures Foreign(a + b, ours) == Foreign(a, ours) + Foreign(b, ours)
  {
    if b == [] {
      assert a + b == a;
    } else {
      assert (a + b)[..|a + b| - 1] == a + b[..|b| - 1];
      ForeignConcat(a, b[..|b| - 1], ours);
    }
  }

  /** Generated matchers hold at least one hook, and only chitta commands. */
  ghost predicate OnlyOurs(ms: seq<Matcher>, ours: Ours)
  {
    forall i :: 0 <= i < |ms| ==> ms[i].hooks != [] && forall j :: 0 <= j < |ms[i].hooks| ==> ours(ms[i].hooks[j])
  }

  ghost predicate Generated(g: Events, ours: Ours)
  {
    forall e :: e in g ==> OnlyOurs(g[e], ours)
  }

  lemma {:induction false} ForeignOfOurs(ms: seq<Matcher>, ours: Ours)
    requires OnlyOurs(ms, ours)
    ensures Foreign(ms, ours) == []
  {
    if ms != [] {
      ForeignOfOurs(ms[..|ms| - 1], ours);
      assert ours(ms[|ms| - 1].hooks[0]);
    }
  }

  lemma ForeignAfterInstall(existing: seq<Matcher>, generated: seq<Matcher>, ours: Ours)
    requires OnlyOurs(generated, ours)
    ensures Foreign(Foreign(existing, ours) + generated, ours) == Foreign(existing, ours)
  {
    ForeignConcat(Foreign(existing, ours), generated, ours);
    ForeignTwice(existing, ours);
    ForeignOfOurs(generated, ours);
  }

  /** Installing twice is installing once. */
  lemma InstallIdempotent(existing: Events, generated: Events, ours: Ours, once: Events, twice: Events)
    requires Generated(generated, ours)
    requires IsInstalled(existing, generated, ours, once) && IsInstalled(once, generated, ours, twice)
    ensures twice == once
  {
    forall e ensures At(twice, e) == At(once, e) && (e in twice <==> e in once) {
      ForeignAfterInstall(At(existing, e), At(generated, e), ours);
    }
    forall e | e in once ensures once[e] == twice[e] {
      assert At(twice, e) == At(once, e);
    }
  }

  // ---------------------------------------------------------------------------
  // Uninstall
  // ---------------------------------------------------------------------------

  function Remaining(hooks: seq<Hook>, ours: Ours): seq<Hook>
  {
    if hooks == [] then []
    else Remaining(hooks[..|hooks| - 1], ours) + if ours(hooks[|hooks| - 1]) then [] else [hooks[|hooks| - 1]]
  }

  /** The filtered matchers of one event: chitta hooks go, and with them matchers that have no others. */
  function Cleaned(ms: seq<Matcher>, ours: Ours): seq<Matcher>
  {
    if ms == [] then []
    else
      var m := ms[|ms| - 1];
      Cleaned(ms[..|ms| - 1], ours)
      + if Remaining(m.hooks, ours) != [] then [m.(hooks := Remaining(m.hooks, ours))] else []
  }

  predicate SomeEmptied(ms: seq<Matcher>, ours: Ours)
  {
    exists i :: 0 <= i < |ms| && Remaining(ms[i].hooks, ours) == []
  }

  /** An event without matchers, or with one that is left without hooks. */
  predicate Affected(ms: seq<Matcher>, ours: Ours)
  {
    ms == [] || SomeEmptied(ms, ours)
  }

  /** What sets `changed`, for the events in `done`. */
  ghost predicate Touched(events: Events, ours: Ours, done: set<string>)
  {
    exists e :: e in done && e in events && Affected(events[e], ours)
  }

  /** What sets `changed` over the whole file. */
  ghost predicate Changes(events: Events, ours: Ours)
  {
    exists e :: e in events && Affected(events[e], ours)
  }

  /** The inner loop: what it filters, and whether it or an empty result sets `changed`. */
  method CleanEvent(ms: seq<Matcher>, ours: Ours) returns (filtered: seq<Matcher>, changed: bool)
    ensures filtered == Cleaned(ms, ours) && (changed || filtered == [] <==> Affected(ms, ours))
  {
    filtered, changed := [], false;
    for i := 0 to |ms|
      invariant filtered == Cleaned(ms[..i], ours)
      invariant changed <==> exists j :: 0 <= j < i && Remaining(ms[j].hooks, ours) == []
    {
      assert ms[..i + 1][..i] == ms[..i];
      var remaining := Remaining(ms[i].hooks, ours);
      if remaining != [] {
        filtered := filtered + [ms[i].(hooks := remaining)];
      } else {
        changed := true;
      }
    }
    assert ms[..|ms|] == ms;
    CleanedEmpty(ms, ours);
  }

  /** The data after the loop of `_uninstall_codex`. */
  ghost predicate IsCleaned(events: Events, ours: Ours, r: Events)
  {
    && (forall e :: At(r, e) == Cleaned(At(events, e), ours))
    && (forall e :: e in r ==> r[e] != [])
  }

  function Cleaning(ours: Ours): Edit
  {
    (ms: seq<Matcher>) => Cleaned(ms, ours)
  }

  /** Where the uninstall loop is after the events in `done`. */
  ghost predicate CleanedSoFar(events: Events, ours: Ours, done: set<string>, r: Events, changed: bool)
  {
    Edited(events, Cleaning(ours), done, r) && changed == Touched(events, ours, done)
  }

  lemma TouchedStep(events: Events, ours: Ours, done: set<string>, event: string)
    requires event in events
    ensures Touched(events, ours, done + {event}) <==> Touched(events, ours, done) || Affected(events[event], ours)
  {
    if Touched(events, ours, done) {
      var e :| e in done && e in events && Affected(events[e], ours);
      assert e in done + {event};
    }
    if Affected(events[event], ours) {
      assert event in done + {event};
    }
  }

  /** One event of the uninstall loop. */
  method CleanOne(ghost events: Events, ours: Ours, ghost done: set<string>, r: Events, changed: bool, event: string)
    returns (next: Events, changed': bool)
    requires CleanedSoFar(events, ours, done, r, changed) && event !in done && event in events
    ensures CleanedSoFar(events, ours, done + {event}, next, changed')
  {
    EditedStep(events, Cleaning(ours), done, r, event);
    TouchedStep(events, ours, done, event);
    var filtered, emptied := CleanEvent(At(r, event), ours);
    next := Replace(r, event, filtered);
    changed' := changed || emptied || filtered == [];
  }

  /** The loop over all events. */
  method CleanAll(events: Events, ours: Ours) returns (r: Events, changed: bool)
    ensures IsCleaned(events, ours, r) && changed == Changes(events, ours)
  {
    r, changed := events, false;
    var list := Enumerate(events.Keys);
    ghost var done: set<string> := {};
    for i := 0 to |list|
      invariant done == Elements(list[..i])
      invariant CleanedSoFar(events, ours, done, r, changed)
    {
      assert list[i] in Elements(list);
      TakeNext(list, i);
      r, changed := CleanOne(events, ours, done, r, changed, list[i]);
      done := done + {list[i]};
    }
    assert list[..|list|] == list;
    CleanedInFull(events, ours, r, changed);
  }

  lemma CleanedInFull(events: Events, ours: Ours, r: Events, changed: bool)
    requires CleanedSoFar(events, ours, events.Keys, r, changed)
    ensures IsCleaned(events, ours, r) && changed == Changes(events, ours)
  {
    EditedIsCleaned(events, ours, r);
  }

  lemma EditedIsCleaned(events: Events, ours: Ours, r: Events)
    requires Edited(events, Cleaning(ours), events.Keys, r)
    ensures IsCleaned(events, ours, r)
  {
  }

  lemma {:induction false} CleanedEmpty(ms: seq<Matcher>, ours: Ours)
    ensures Cleaned(ms, ours) == [] ==> Affected(ms, ours)
  {
    if ms != [] {
      if Remaining(ms[|ms| - 1].hooks, ours) == [] {
        assert SomeEmptied(ms, ours);
      }
    }
  }

  /** `_uninstall_codex` on the hooks file; None stands for a file that was unlinked. */
  method Uninstall(events: Events, ours: Ours) returns (file: Option<Events>)
    ensures !Changes(events, ours) ==> file == Some(events)
    ensures Changes(events, ours) ==> IsCleaned(events, ours, Contents(file)) && (file.None? <==> Contents(file) == map[])
  {
    var data, changed := CleanAll(events, ours);
    if !changed {
      return Some(events);
    }
    if data == map[] {
      return None;
    }
    return Some(data);
  }

  function Contents(file: Option<Events>): Events
  {
    if file.Some? then file.value else map[]
  }

  /** `file` is what uninstalling leaves of `events`. */
  ghost predicate IsUninstalled(events: Events, ours: Ours, file: Option<Events>)
  {
    && (!Changes(events, ours) ==> file == Some(events))
    && (Changes(events, ours) ==> IsCleaned(events, ours, Contents(file)))
  }

  // ---------------------------------------------------------------------------
  // The round trip
  // ---------------------------------------------------------------------------

  /** The matchers with hooks and without a chitta command, in order. */
  function Kept(ms: seq<Matcher>, ours: Ours): seq<Matcher>
  {
    if ms == [] then []
    else
      var m := ms[|ms| - 1];
      Kept(ms[..|ms| - 1], ours) + if m.hooks != [] && !HasOurs(m, ours) then [m] else []
  }

  lemma {:induction false} RemainingWithoutOurs(hooks: seq<Hook>, ours: Ours)
    requires forall i :: 0 <= i < |hooks| ==> !ours(hooks[i])
    ensures Remaining(hooks, ours) == hooks
  {
    if hooks != [] {
      RemainingWithoutOurs(hooks[..|hooks| - 1], ours);
    }
  }

  lemma {:induction false} RemainingOfOurs(hooks: seq<Hook>, ours: Ours)
    requires forall i :: 0 <= i < |hooks| ==> ours(hooks[i])
    ensures Remaining(hooks, ours) == []
  {
    if hooks != [] {
      RemainingOfOurs(hooks[..|hooks| - 1], ours);
    }
  }

  lemma {:induction false} CleanedConcat(a: seq<Matcher>, b: seq<Matcher>, ours: Ours)
    ensures Cleaned(a + b, ours) == Cleaned(a, ours) + Cleaned(b, ours)
  {
    if b == [] {
      assert a + b == a;
    } else {
      assert (a + b)[..|a + b| - 1] == a + b[..|b| - 1];
      CleanedConcat(a, b[..|b| - 1], ours);
    }
  }

  lemma {:induction false} CleanedOfOurs(ms: seq<Matcher>, ours: Ours)
    requires OnlyOurs(ms, ours)
    ensures Cleaned(ms, ours) == []
  {
    if ms != [] {
      CleanedOfOurs(ms[..|ms| - 1], ours);
      RemainingOfOurs(ms[|ms| - 1].hooks, ours);
    }
  }

  lemma CleanedSnoc(ms: seq<Matcher>, m: Matcher, ours: Ours)
    ensures Cleaned(ms + [m], ours)
         == Cleaned(ms, ours) + if Remaining(m.hooks, ours) != [] then [m.(hooks := Remaining(m.hooks, ours))] else []
  {
    assert (ms + [m])[..|ms|] == ms;
  }

  lemma {:induction false} CleanedOfForeign(ms: seq<Matcher>, ours: Ours)
    ensures Cleaned(Foreign(ms, ours), ours) == Kept(ms, ours)
  {
    if ms != [] {
      var init, m := Foreign(ms[..|ms| - 1], ours), ms[|ms| - 1];
      CleanedOfForeign(ms[..|ms| - 1], ours);
      if HasOurs(m, ours) {
        assert Foreign(ms, ours) == init;
      } else {
        assert Foreign(ms, ours) == init + [m];
        CleanedSnoc(init, m, ours);
        RemainingWithoutOurs(m.hooks, ours);
      }
    }
  }

  lemma CleanedAfterInstall(existing: seq<Matcher>, generated: seq<Matcher>, ours: Ours)
    requires OnlyOurs(generated, ours)
    ensures Cleaned(Foreign(existing, ours) + generated, ours) == Kept(existing, ours)
  {
    CleanedConcat(Foreign(existing, ours), generated, ours);
    CleanedOfOurs(generated, ours);
    CleanedOfForeign(existing, ours);
  }

  /** Matchers that have hooks and no chitta command pass through unchanged. */
  lemma {:induction false} CleanedUnchanged(ms: seq<Matcher>, ours: Ours)
    requires forall i :: 0 <= i < |ms| ==> ms[i].hooks != [] && !HasOurs(ms[i], ours)
    ensures Cleaned(ms, ours) == ms
  {
    if ms != [] {
      var init, m := ms[..|ms| - 1], ms[|ms| - 1];
      CleanedUnchanged(init, ours);
      RemainingWithoutOurs(m.hooks, ours);
      assert ms == init + [m];
    }
  }

  lemma {:induction false} ForeignHasNone(ms: seq<Matcher>, ours: Ours)
    ensures forall i :: 0 <= i < |Foreign(ms, ours)| ==> !HasOurs(Foreign(ms, ours)[i], ours)
  {
    if ms != [] {
      ForeignHasNone(ms[..|ms| - 1], ours);
    }
  }

  lemma Unmixed(existing: seq<Matcher>, generated: seq<Matcher>, ours: Ours)
    requires OnlyOurs(generated, ours)
    ensures var ms := Foreign(existing, ours) + generated;
            forall i :: 0 <= i < |ms| ==> HasOurs(ms[i], ours) ==> Remaining(ms[i].hooks, ours) == []
  {
    ForeignHasNone(existing, ours);
    var n, ms := |Foreign(existing, ours)|, Foreign(existing, ours) + generated;
    forall i | 0 <= i < |ms| && HasOurs(ms[i], ours) ensures Remaining(ms[i].hooks, ours) == [] {
      if i >= n {
        assert ms[i] == generated[i - n];
        RemainingOfOurs(ms[i].hooks, ours);
      }
    }
  }

  /** Installing over any hooks file and then uninstalling leaves, for each event and in order, exactly the
      matchers that have hooks and no chitta command. */
  lemma InstallThenUninstall(existing: Events, generated: Events, ours: Ours, installed: Events, file: Option<Events>)
    requires Generated(generated, ours)
    requires IsInstalled(existing, generated, ours, installed) && IsUninstalled(installed, ours, file)
    ensures forall e :: At(Contents(file), e) == Kept(At(existing, e), ours)
  {
    forall e ensures At(Contents(file), e) == Kept(At(existing, e), ours) {
      CleanedAfterInstall(At(existing, e), At(generated, e), ours);
      if !Changes(installed, ours) && e in installed {
        assert !Affected(installed[e], ours);
        Unmixed(At(existing, e), At(generated, e), ours);
        forall i | 0 <= i < |installed[e]| ensures installed[e][i].hooks != [] && !HasOurs(installed[e][i], ours) {
          assert Remaining(installed[e][i].hooks, ours) != [];
        }
        CleanedUnchanged(installed[e], ours);
      }
    }
  }

  // ---------------------------------------------------------------------------
  // What installing does not preserve
  // ---------------------------------------------------------------------------

  /** The hooks of other tools, in order. */
  function Others(ms: seq<Matcher>, ours: Ours): seq<Hook>
  {
    if ms == [] then [] else Others(ms[..|ms| - 1], ours) + Remaining(ms[|ms| - 1].hooks, ours)
  }

  /** A matcher that chitta shares with another tool. */
  predicate Mixed(m: Matcher, ours: Ours)
  {
    HasOurs(m, ours) && Remaining(m.hooks, ours) != []
  }

  predicate NoneMixed(ms: seq<Matcher>, ours: Ours)
  {
    forall i :: 0 <= i < |ms| ==> !Mixed(ms[i], ours)
  }

  lemma OthersSnoc(ms: seq<Matcher>, m: Matcher, ours: Ours)
    ensures Others(ms + [m], ours) == Others(ms, ours) + Remaining(m.hooks, ours)
  {
    assert (ms + [m])[..|ms|] == ms;
  }

  lemma Regroup(x: seq<Hook>, y: seq<Hook>, z: seq<Hook>)
    ensures (x + y) + z == x + (y + z)
  {
  }

  lemma {:induction false} OthersConcat(a: seq<Matcher>, b: seq<Matcher>, ours: Ours)
    ensures Others(a + b, ours) == Others(a, ours) + Others(b, ours)
  {
    if b == [] {
      assert a + b == a;
    } else {
      var init, m := b[..|b| - 1], b[|b| - 1];
      assert a + b == (a + init) + [m];
      OthersConcat(a, init, ours);
      OthersSnoc(a + init, m, ours);
      Regroup(Others(a, ours), Others(init, ours), Remaining(m.hooks, ours));
    }
  }

  lemma {:induction false} OthersOfOurs(ms: seq<Matcher>, ours: Ours)
    requires OnlyOurs(ms, ours)
    ensures Others(ms, ours) == []
  {
    if ms != [] {
      OthersOfOurs(ms[..|ms| - 1], ours);
      RemainingOfOurs(ms[|ms| - 1].hooks, ours);
    }
  }

  lemma NoneMixedSnoc(ms: seq<Matcher>, m: Matcher, ours: Ours)
    ensures NoneMixed(ms + [m], ours) <==> NoneMixed(ms, ours) && !Mixed(m, ours)
  {
    var all := ms + [m];
    assert forall i :: 0 <= i < |ms| ==> all[i] == ms[i];
    assert all[|ms|] == m;
  }

  /** The filter keeps the hooks of other tools exactly if none of them shares a matcher with chitta. */
  lemma {:induction false} OthersOfForeign(ms: seq<Matcher>, ours: Ours)
    ensures |Others(Foreign(ms, ours), ours)| <= |Others(ms, ours)|
    ensures |Others(Foreign(ms, ours), ours)| == |Others(ms, ours)| <==> NoneMixed(ms, ours)
    ensures NoneMixed(ms, ours) ==> Others(Foreign(ms, ours), ours) == Others(ms, ours)
  {
    if ms != [] {
      var init, m := ms[..|ms| - 1], ms[|ms| - 1];
      assert ms == init + [m];
      OthersOfForeign(init, ours);
      NoneMixedSnoc(init, m, ours);
      OthersSnoc(init, m, ours);
      if HasOurs(m, ours) {
        assert Foreign(ms, ours) == Foreign(init, ours);
      } else {
        OthersSnoc(Foreign(init, ours), m, ours);
      }
    }
  }

  /** Installing keeps all hooks of other tools, in order, exactly if no matcher of the file holds both a chitta hook
      and another one. */
  lemma InstallPreservesIff(existing: Events, generated: Events, ours: Ours, r: Events)
    requires Generated(generated, ours) && IsInstalled(existing, generated, ours, r)
    ensures (forall e :: Others(At(r, e), ours) == Others(At(existing, e), ours))
            <==> forall e :: e in existing ==> NoneMixed(existing[e], ours)
  {
    forall e ensures Others(At(r, e), ours) == Others(At(existing, e), ours) <==> NoneMixed(At(existing, e), ours) {
      OthersConcat(Foreign(At(existing, e), ours), At(generated, e), ours);
      OthersOfOurs(At(generated, e), ours);
      OthersOfForeign(At(existing, e), ours);
    }
    if forall e :: Others(At(r, e), ours) == Others(At(existing, e), ours) {
      forall e | e in existing ensures NoneMixed(existing[e], ours) {
        assert Others(At(r, e), ours) == Others(At(existing, e), ours);
      }
    }
  }

  /** The smallest file that loses a hook of another tool: one matcher shared with chitta. */
  lemma SharedHookDropped(generated: Events, ours: Ours, mine: Hook, theirs: Hook, r: Events)
    requires ours(mine) && !ours(theirs) && Generated(generated, ours)
    requires IsInstalled(map["Stop" := [Matcher(".*", [mine, theirs])]], generated, ours, r)
    ensures Others([Matcher(".*", [mine, theirs])], ours) == [theirs] && Others(At(r, "Stop"), ours) == []
  {
    var m := Matcher(".*", [mine, theirs]);
    var existing := map["Stop" := [m]];
    assert m.hooks[..1] == [mine] && [mine][..0] == [];
    assert Remaining([mine], ours) == [];
    assert [m][..0] == [] && ours(m.hooks[0]);
    assert Foreign([m], ours) == [];
    assert At(r, "Stop") == Foreign(At(existing, "Stop"), ours) + At(generated, "Stop");
    OthersOfOurs(At(generated, "Stop"), ours);
    assert At(r, "Stop") == At(generated, "Stop");
  }

  // ---------------------------------------------------------------------------
  // What uninstalling does not undo
  // ---------------------------------------------------------------------------

  predicate Clean(events: Events, ours: Ours)
  {
    forall e :: e in events ==> forall i :: 0 <= i < |events[e]| ==> !HasOurs(events[e][i], ours)
  }

  lemma {:induction false} RemainingHasNone(hooks: seq<Hook>, ours: Ours)
    ensures forall i :: 0 <= i < |Remaining(hooks, ours)| ==> !ours(Remaining(hooks, ours)[i])
  {
    if hooks != [] {
      RemainingHasNone(hooks[..|hooks| - 1], ours);
    }
  }

  lemma {:induction false} CleanedHasNone(ms: seq<Matcher>, ours: Ours)
    ensures forall i :: 0 <= i < |Cleaned(ms, ours)| ==> !HasOurs(Cleaned(ms, ours)[i], ours)
  {
    if ms != [] {
      CleanedHasNone(ms[..|ms| - 1], ours);
      RemainingHasNone(ms[|ms| - 1].hooks, ours);
    }
  }

  /** A matcher that loses some but not all of its hooks does not count as a change, so the file is rewritten
      only if some matcher loses all of them or some event is empty. Uninstalling therefore leaves no chitta
      command behind exactly when there is such a matcher or event, or there was no chitta command at all. */
  lemma UninstallCleansIff(events: Events, ours: Ours, file: Option<Events>)
    requires IsUninstalled(events, ours, file)
    ensures Clean(Contents(file), ours) <==> Changes(events, ours) || Clean(events, ours)
  {
    if Changes(events, ours) {
      var r := Contents(file);
      forall e | e in r ensures forall i :: 0 <= i < |r[e]| ==> !HasOurs(r[e][i], ours) {
        assert At(r, e) == Cleaned(At(events, e), ours);
        CleanedHasNone(At(events, e), ours);
      }
    }
  }

  /** The smallest file that keeps a chitta command through an uninstall: one matcher shared with another tool. */
  lemma SharedMatcherSurvives(ours: Ours, mine: Hook, theirs: Hook)
    requires ours(mine) && !ours(theirs)
    ensures var events := map["Stop" := [Matcher(".*", [mine, theirs])]];
            IsUninstalled(events, ours, Some(events)) && !Clean(events, ours)
  {
    var m := Matcher(".*", [mine, theirs]);
    var events := map["Stop" := [m]];
    assert m.hooks[..1] == [mine] && [mine][..0] == [];
    assert Remaining([mine], ours) == [];
    assert Remaining(m.hooks, ours) == [theirs];
    assert events["Stop"][0] == m && ours(m.hooks[0]);
    assert HasOurs(m, ours);
  }

  // ---------------------------------------------------------------------------
  // The plugin entry in config.toml
  // ---------------------------------------------------------------------------

  /** How `_strip_plugin_entry` reads a line: the header it looks for, a line that ends a table (another
      header, a comment or a blank line), or anything else. */
  datatype LineKind = Header | Stop | Plain

  type Kinds = string -> LineKind

  /** Line `i` belongs to an entry: a header at or above it, and no line in between that ends the table. */
  ghost predicate InEntry(lines: seq<string>, kind: Kinds, i: nat)
    requires i < |lines|
  {
    exists j :: 0 <= j <= i && kind(lines[j]) == Header && forall k :: j < k <= i ==> kind(lines[k]) != Stop
  }

  /** The lines outside entries, among the first `n`. */
  ghost function Outside(lines: seq<string>, kind: Kinds, n: nat): seq<string>
    requires n <= |lines|
  {
    if n == 0 then [] else Outside(lines, kind, n - 1) + if InEntry(lines, kind, n - 1) then [] else [lines[n - 1]]
  }

  /** The loop of `_strip_plugin_entry`, with its skip flag. */
  method StripEntry(lines: seq<string>, kind: Kinds) returns (out: seq<string>)
    ensures out == Outside(lines, kind, |lines|)
  {
    out := [];
    var skip := false;
    for i := 0 to |lines|
      invariant out == Outside(lines, kind, i)
      invariant skip <==> i > 0 && InEntry(lines, kind, i - 1)
    {
      InEntryStep(lines, kind, i);
      if kind(lines[i]) == Header {
        skip := true;
      } else {
        if skip && kind(lines[i]) == Stop {
          skip := false;
        }
        if !skip {
          out := out + [lines[i]];
        }
      }
    }
  }

  lemma InEntryStep(lines: seq<string>, kind: Kinds, i: nat)
    requires i < |lines|
    ensures InEntry(lines, kind, i)
            <==> kind(lines[i]) == Header || (i > 0 && InEntry(lines, kind, i - 1) && kind(lines[i]) != Stop)
  {
    if kind(lines[i]) == Header {
      assert InEntry(lines, kind, i);
    } else {
      if i > 0 && InEntry(lines, kind, i - 1) && kind(lines[i]) != Stop {
        var j :| 0 <= j <= i - 1 && kind(lines[j]) == Header && forall k :: j < k <= i - 1 ==> kind(lines[k]) != Stop;
        assert forall k :: j < k <= i ==> kind(lines[k]) != Stop;
      }
      if InEntry(lines, kind, i) {
        var j :| 0 <= j <= i && kind(lines[j]) == Header && forall k :: j < k <= i ==> kind(lines[k]) != Stop;
        assert j <= i - 1;
      }
    }
  }

  lemma {:induction false} OutsideHasNoHeader(lines: seq<string>, kind: Kinds, n: nat)
    requires n <= |lines|
    ensures forall i :: 0 <= i < |Outside(lines, kind, n)| ==> kind(Outside(lines, kind, n)[i]) != Header
  {
    if n > 0 {
      OutsideHasNoHeader(lines, kind, n - 1);
      InEntryStep(lines, kind, n - 1);
    }
  }

  lemma {:induction false} NothingToStrip(lines: seq<string>, kind: Kinds, n: nat)
    requires n <= |lines| && forall i :: 0 <= i < |lines| ==> kind(lines[i]) != Header
    ensures Outside(lines, kind, n) == lines[..n]
  {
    if n > 0 {
      NothingToStrip(lines, kind, n - 1);
      assert lines[..n] == lines[..n - 1] + [lines[n - 1]];
    }
  }

  /** Stripping leaves no header, and a second time changes nothing. */
  lemma StripIdempotent(lines: seq<string>, kind: Kinds)
    ensures var once := Outside(lines, kind, |lines|);
            && Outside(once, kind, |once|) == once
            && forall i :: 0 <= i < |once| ==> kind(once[i]) != Header
  {
    var once := Outside(lines, kind, |lines|);
    OutsideHasNoHeader(lines, kind, |lines|);
    NothingToStrip(once, kind, |once|);
  }
}
