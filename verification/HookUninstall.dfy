/** What filtering a hook file keeps, position by position (chitta-mcp/install.py). */
module HookUninstall {
  import opened Prelude
  import opened HookFile

  // ---------------------------------------------------------------------------
  // Positions
  // ---------------------------------------------------------------------------

  /** `after` is `before` at the positions `at`, which are exactly those that `keep` tells. */
  ghost predicate Kept<T(!new)>(before: seq<T>, after: seq<T>, at: seq<nat>, keep: T -> bool)
  {
    && Increasing(at) && |at| == |after|
    && (forall i :: 0 <= i < |at| ==> at[i] < |before| && after[i] == before[at[i]])
    && (forall k :: 0 <= k < |before| ==> (k in at <==> keep(before[k])))
  }

  lemma KeptSnoc<T(!new)>(before: seq<T>, after: seq<T>, at: seq<nat>, keep: T -> bool, x: T) returns (at': seq<nat>)
    requires Kept(before, after, at, keep)
    ensures Kept(before + [x], if keep(x) then after + [x] else after, at', keep)
  {
    at' := if keep(x) then at + [|before|] else at;
    assert forall k :: 0 <= k < |before| ==> (before + [x])[k] == before[k];
    forall k | 0 <= k < |before + [x]| ensures k in at' <==> keep((before + [x])[k]) {
      if k < |before| {
        assert k in at' <==> k in at;
      } else {
        assert |before| !in at;
      }
    }
  }

  // ---------------------------------------------------------------------------
  // Matchers and hooks
  // ---------------------------------------------------------------------------

  /** The hooks of an event with the patterns they run for, in order. */
  function AllHooks(ms: seq<Matcher>): seq<(string, Hook)>
  {
    if ms == [] then [] else AllHooks(ms[..|ms| - 1]) + Tagged(ms[|ms| - 1].pattern, ms[|ms| - 1].hooks)
  }

  function Tagged(pattern: string, hooks: seq<Hook>): seq<(string, Hook)>
  {
    if hooks == [] then [] else Tagged(pattern, hooks[..|hooks| - 1]) + [(pattern, hooks[|hooks| - 1])]
  }

  /** The hook belongs to another tool. */
  function Theirs(ours: Ours): ((string, Hook)) -> bool
  {
    (x: (string, Hook)) => !ours(x.1)
  }

  lemma TaggedSnoc(pattern: string, hooks: seq<Hook>, h: Hook)
    ensures Tagged(pattern, hooks + [h]) == Tagged(pattern, hooks) + [(pattern, h)]
  {
    assert (hooks + [h])[..|hooks|] == hooks;
  }

  lemma AllHooksSnoc(ms: seq<Matcher>, m: Matcher)
    ensures AllHooks(ms + [m]) == AllHooks(ms) + Tagged(m.pattern, m.hooks)
  {
    assert (ms + [m])[..|ms|] == ms;
  }

  lemma {:induction false} RemainingKept(before: seq<(string, Hook)>, after: seq<(string, Hook)>, at: seq<nat>,
                                         pattern: string, hooks: seq<Hook>, ours: Ours) returns (at': seq<nat>)
    requires Kept(before, after, at, Theirs(ours))
    ensures Kept(before + Tagged(pattern, hooks), after + Tagged(pattern, Remaining(hooks, ours)), at', Theirs(ours))
  {
    if hooks == [] {
      at' := at;
      assert before + [] == before && after + [] == after;
    } else {
      var init, h := hooks[..|hooks| - 1], hooks[|hooks| - 1];
      var mid := RemainingKept(before, after, at, pattern, init, ours);
      at' := KeptSnoc(before + Tagged(pattern, init), after + Tagged(pattern, Remaining(init, ours)), mid, Theirs(ours), (pattern, h));
      Regroup3(before, Tagged(pattern, init), [(pattern, h)]);
      if !ours(h) {
        TaggedSnoc(pattern, Remaining(init, ours), h);
        Regroup3(after, Tagged(pattern, Remaining(init, ours)), [(pattern, h)]);
      } else {
        assert Remaining(hooks, ours) == Remaining(init, ours);
      }
    }
  }

  lemma Regroup3<T>(x: seq<T>, y: seq<T>, z: seq<T>)
    ensures (x + y) + z == x + (y + z)
  {
  }

  /** Of the hooks of an event, cleaning keeps exactly those of other tools, each for its pattern and in order. */
  lemma {:induction false} CleanedKept(ms: seq<Matcher>, ours: Ours) returns (at: seq<nat>)
    ensures Kept(AllHooks(ms), AllHooks(Cleaned(ms, ours)), at, Theirs(ours))
  {
    if ms == [] {
      at := [];
    } else {
      var init, m := ms[..|ms| - 1], ms[|ms| - 1];
      var before := CleanedKept(init, ours);
      at := RemainingKept(AllHooks(init), AllHooks(Cleaned(init, ours)), before, m.pattern, m.hooks, ours);
      if Remaining(m.hooks, ours) != [] {
        AllHooksSnoc(Cleaned(init, ours), m.(hooks := Remaining(m.hooks, ours)));
      } else {
        assert Cleaned(ms, ours) == Cleaned(init, ours);
        assert AllHooks(Cleaned(init, ours)) + [] == AllHooks(Cleaned(init, ours));
      }
    }
  }

  /** After an uninstall that changes the file, the hooks of each event are exactly those of other tools that were
      there, each for its pattern and in order. */
  lemma UninstallKeeps(events: Events, ours: Ours, file: Option<Events>, e: string) returns (at: seq<nat>)
    requires IsUninstalled(events, ours, file) && Changes(events, ours)
    ensures Kept(AllHooks(At(events, e)), AllHooks(At(Contents(file), e)), at, Theirs(ours))
  {
    at := CleanedKept(At(events, e), ours);
    assert At(Contents(file), e) == Cleaned(At(events, e), ours);
  }

  /** No matcher is left without hooks. */
  lemma {:induction false} CleanedNoEmpty(ms: seq<Matcher>, ours: Ours)
    ensures forall i :: 0 <= i < |Cleaned(ms, ours)| ==> Cleaned(ms, ours)[i].hooks != []
  {
    if ms != [] {
      CleanedNoEmpty(ms[..|ms| - 1], ours);
    }
  }

  /** No hook of the matcher is chitta's. */
  function Alien(ours: Ours): Matcher -> bool
  {
    (m: Matcher) => forall i :: 0 <= i < |m.hooks| ==> !ours(m.hooks[i])
  }

  lemma ForeignSnoc(ms: seq<Matcher>, m: Matcher, ours: Ours)
    ensures Foreign(ms + [m], ours) == if Alien(ours)(m) then Foreign(ms, ours) + [m] else Foreign(ms, ours)
  {
    assert (ms + [m])[..|ms|] == ms;
    assert Foreign(ms, ours) + [] == Foreign(ms, ours);
  }

  lemma ForeignStep(ms: seq<Matcher>, m: Matcher, ours: Ours, before: seq<nat>) returns (at: seq<nat>)
    requires Kept(ms, Foreign(ms, ours), before, Alien(ours))
    ensures Kept(ms + [m], Foreign(ms + [m], ours), at, Alien(ours))
  {
    ForeignSnoc(ms, m, ours);
    at := KeptSnoc(ms, Foreign(ms, ours), before, Alien(ours), m);
  }

  /** Of the matchers of an event, installing keeps exactly those without a chitta hook, whole and in order. */
  lemma {:induction false} ForeignKept(ms: seq<Matcher>, ours: Ours) returns (at: seq<nat>)
    ensures Kept(ms, Foreign(ms, ours), at, Alien(ours))
  {
    if ms == [] {
      at := [];
    } else {
      var init, m := ms[..|ms| - 1], ms[|ms| - 1];
      var before := ForeignKept(init, ours);
      at := ForeignStep(init, m, ours, before);
      assert init + [m] == ms;
    }
  }

  /** After an install each event has its matchers without a chitta hook, whole and in order, and then the generated
      ones. */
  lemma InstallKeeps(existing: Events, generated: Events, ours: Ours, r: Events, e: string) returns (kept: seq<Matcher>, at: seq<nat>)
    requires IsInstalled(existing, generated, ours, r)
    ensures At(r, e) == kept + At(generated, e) && Kept(At(existing, e), kept, at, Alien(ours))
  {
    kept := Foreign(At(existing, e), ours);
    at := ForeignKept(At(existing, e), ours);
  }
}
