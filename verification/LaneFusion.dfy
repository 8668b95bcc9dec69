/** Fusion of two ranked lanes by best reciprocal rank (hooks/eval-sparse.py,
    `RealmIndex.union`). */
module LaneFusion {
  import opened Prelude
  import opened Reals
  import opened ScoreDict

  function Reciprocal(rank: nat): real
  {
    1.0 / (rank + 1) as real
  }

  lemma ReciprocalExact(rank: nat)
    ensures Reciprocal(rank) * (rank + 1) as real == 1.0
  {
    var x := (rank + 1) as real;
    assert 1.0 / x * x == 1.0;
  }

  function Max(a: real, b: real): real
  {
    if a >= b then a else b
  }

  /** The best reciprocal rank of `id` in a lane, zero if it is not there. */
  function LaneBest(lane: seq<string>, id: string): real
  {
    if lane == [] then 0.0
    else Max(LaneBest(lane[..|lane| - 1], id), if lane[|lane| - 1] == id then Reciprocal(|lane| - 1) else 0.0)
  }

  lemma ReciprocalOrder(i: nat, j: nat)
    requires i < j
    ensures Reciprocal(i) > Reciprocal(j) > 0.0
  {
    ReciprocalDecreases((i + 1) as real, (j + 1) as real);
    ReciprocalPositive((j + 1) as real);
  }

  lemma {:induction false} LaneBestAtLeast(lane: seq<string>, r: nat)
    requires r < |lane|
    ensures LaneBest(lane, lane[r]) >= Reciprocal(r)
  {
    if r < |lane| - 1 {
      LaneBestAtLeast(lane[..|lane| - 1], r);
    }
  }

  /** An id scores as well as rank `r` only if it is among the first `r + 1`. */
  lemma {:induction false} LaneBestEarly(lane: seq<string>, id: string, r: nat)
    requires LaneBest(lane, id) >= Reciprocal(r)
    ensures exists i :: 0 <= i < |lane| && i <= r && lane[i] == id
  {
    ReciprocalOrder(r, r + 1);
    var last := |lane| - 1;
    if LaneBest(lane[..last], id) >= Reciprocal(r) {
      LaneBestEarly(lane[..last], id, r);
    } else {
      assert lane[last] == id && Reciprocal(last) >= Reciprocal(r);
      if last > r {
        ReciprocalOrder(r, last);
      }
    }
  }

  lemma {:induction false} LaneBestNonNegative(lane: seq<string>, id: string)
    ensures LaneBest(lane, id) >= 0.0
    ensures id in lane <==> LaneBest(lane, id) > 0.0
  {
    if lane != [] {
      LaneBestNonNegative(lane[..|lane| - 1], id);
      ReciprocalOrder(|lane| - 1, |lane|);
      assert lane == lane[..|lane| - 1] + [lane[|lane| - 1]];
    }
  }

  /** One lane raises each of its ids to its reciprocal rank there. */
  ghost predicate Raised(s: Scores<string>, r: Scores<string>, lane: seq<string>)
  {
    && Consistent(r)
    && (forall id :: At(r, id) == Max(At(s, id), LaneBest(lane, id)))
    && r.value.Keys == s.value.Keys + Elements(lane)
    && r.order == Entered(s.order, lane)
  }

  lemma RaiseStep(s: Scores<string>, mid: Scores<string>, lane: seq<string>, id: string)
    requires Raised(s, mid, lane)
    ensures Raised(s, Set(mid, id, Max(At(mid, id), Reciprocal(|lane|))), lane + [id])
  {
    assert (lane + [id])[..|lane|] == lane;
    assert Elements(lane + [id]) == Elements(lane) + {id};
    ReciprocalOrder(|lane|, |lane| + 1);
    SetOrder(mid, id, Max(At(mid, id), Reciprocal(|lane|)));
    EnteredSnoc(s.order, lane, id);
    forall x ensures LaneBest(lane, x) >= 0.0 {
      LaneBestNonNegative(lane, x);
    }
  }

  /** The inner loop of `union`. */
  method RaiseLane(s: Scores<string>, lane: seq<string>) returns (r: Scores<string>)
    requires Consistent(s) && forall id :: At(s, id) >= 0.0
    ensures Raised(s, r, lane)
  {
    r := s;
    for rank := 0 to |lane|
      invariant Raised(s, r, lane[..rank])
    {
      RaiseStep(s, r, lane[..rank], lane[rank]);
      assert lane[..rank + 1] == lane[..rank] + [lane[rank]];
      r := Set(r, lane[rank], Max(At(r, lane[rank]), Reciprocal(rank)));
    }
    assert lane[..|lane|] == lane;
  }

  /** What `union` sorts by. */
  function Fused(a: seq<string>, b: seq<string>, id: string): real
  {
    Max(LaneBest(a, id), LaneBest(b, id))
  }

  function FusedIn(a: seq<string>, b: seq<string>): string -> real
  {
    (id: string) => Fused(a, b, id)
  }

  /** `keys` ranks the ids of both lanes once each, by descending best reciprocal rank and then by first
      occurrence, the first lane before the second. */
  ghost predicate Fusion(a: seq<string>, b: seq<string>, keys: seq<string>)
  {
    && Distinct(keys) && Elements(keys) == Elements(a) + Elements(b)
    && (forall i, j :: 0 <= i < j < |keys| ==> Fused(a, b, keys[i]) >= Fused(a, b, keys[j]))
    && Sequenced(keys, FusedIn(a, b), a + b)
  }

  /** `r` is the head of a fusion of the lanes. */
  ghost predicate IsUnion(a: seq<string>, b: seq<string>, k: int, r: seq<string>)
  {
    exists keys :: Fusion(a, b, keys) && r == Take(keys, k)
  }

  /** The fusion of two ranked lanes. */
  method Union(a: seq<string>, b: seq<string>, k: int) returns (r: seq<string>)
    ensures IsUnion(a, b, k, r)
  {
    var s := Scores([], map[]);
    var first := RaiseLane(s, a);
    forall id ensures At(first, id) == LaneBest(a, id) {
      LaneBestNonNegative(a, id);
    }
    var second := RaiseLane(first, b);
    forall id ensures At(second, id) == Fused(a, b, id) {
      assert At(first, id) == LaneBest(a, id);
    }
    EnteredConcat([], a, b);
    RaisedTwice(a, b, second);
    r := Take(Ranked(second), k);
  }

  lemma RaisedTwice(a: seq<string>, b: seq<string>, s: Scores<string>)
    requires Consistent(s) && s.value.Keys == Elements(a) + Elements(b) && s.order == Entered([], a + b)
    requires forall id :: At(s, id) == Fused(a, b, id)
    ensures Fusion(a, b, Ranked(s))
  {
    RankedCorrect(s);
    RankedBy(s, FusedIn(a, b), a + b);
  }

  /** Fusion keeps the heads of both lanes: at most `2 * (r + 1)` ids do as well as rank `r`, so an id at
      that rank in either lane is among the first `2 * (r + 1)`. */
  lemma HeadsKept(a: seq<string>, b: seq<string>, k: int, fused: seq<string>, r: nat, id: string)
    requires IsUnion(a, b, k, fused) && 2 * (r + 1) <= k
    requires (r < |a| && a[r] == id) || (r < |b| && b[r] == id)
    ensures id in fused
  {
    var keys :| Fusion(a, b, keys) && fused == Take(keys, k);
    if r < |a| && a[r] == id {
      LaneBestAtLeast(a, r);
      assert id in Elements(a);
    } else {
      LaneBestAtLeast(b, r);
      assert id in Elements(b);
    }
    assert id in Elements(keys);
    var p :| 0 <= p < |keys| && keys[p] == id;
    HeadBefore(a, b, keys, r, p);
    assert Take(keys, k)[p] == id;
  }

  /** The first `r + 1` entries of a lane. */
  function Head(lane: seq<string>, r: nat): seq<string>
  {
    if r + 1 <= |lane| then lane[..r + 1] else lane
  }

  lemma HeadBefore(a: seq<string>, b: seq<string>, keys: seq<string>, r: nat, p: nat)
    requires Fusion(a, b, keys) && p < |keys| && Fused(a, b, keys[p]) >= Reciprocal(r)
    ensures p < 2 * (r + 1)
  {
    var front, heads := keys[..p + 1], Elements(Head(a, r)) + Elements(Head(b, r));
    forall id | id in front ensures id in heads {
      var i :| 0 <= i <= p && keys[i] == id;
      assert Fused(a, b, id) >= Reciprocal(r);
      if LaneBest(a, id) >= Reciprocal(r) {
        LaneBestEarly(a, id, r);
      } else {
        LaneBestEarly(b, id, r);
      }
    }
    assert Distinct(front);
    ElementsSize(front);
    SubsetSize(Elements(front), heads);
    ElementsSize(Head(a, r));
    ElementsSize(Head(b, r));
  }

  /** The result has no duplicates and at most `k` ids, all from the lanes, best first, and an id that is left
      out is no better than any that is not. */
  lemma UnionBounded(a: seq<string>, b: seq<string>, k: nat, fused: seq<string>)
    requires IsUnion(a, b, k, fused)
    ensures Distinct(fused) && |fused| <= k
    ensures forall id :: id in fused ==> id in a || id in b
    ensures forall i, j :: 0 <= i < j < |fused| ==> Fused(a, b, fused[i]) >= Fused(a, b, fused[j])
    ensures forall i, id :: 0 <= i < |fused| && (id in a || id in b) && id !in fused
              ==> Fused(a, b, fused[i]) >= Fused(a, b, id)
  {
    var keys :| Fusion(a, b, keys) && fused == Take(keys, k);
    forall id | id in fused ensures id in a || id in b {
      assert id in Elements(keys);
    }
    forall i, id | 0 <= i < |fused| && (id in a || id in b) && id !in fused
      ensures Fused(a, b, fused[i]) >= Fused(a, b, id)
    {
      assert id in Elements(a) + Elements(b) && id in Elements(keys);
      var p :| 0 <= p < |keys| && keys[p] == id;
      assert p >= |fused|;
    }
  }

  /** The lanes and `k` leave one result only: ids of equal worth come in order of first occurrence, the first lane
      before the second. */
  lemma UnionUnique(a: seq<string>, b: seq<string>, k: int, x: seq<string>, y: seq<string>)
    requires IsUnion(a, b, k, x) && IsUnion(a, b, k, y)
    ensures x == y
  {
    var s :| Fusion(a, b, s) && x == Take(s, k);
    var t :| Fusion(a, b, t) && y == Take(t, k);
    SequenceUnique(s, t, FusedIn(a, b), a + b, |s|);
    SequenceUnique(t, s, FusedIn(a, b), a + b, |t|);
    assert s[..|s|] == s && t[..|t|] == t;
  }

  lemma UnionTies(a: seq<string>, b: seq<string>, k: int, fused: seq<string>, i: nat, j: nat)
    requires IsUnion(a, b, k, fused) && i < j < |fused| && Fused(a, b, fused[i]) == Fused(a, b, fused[j])
    ensures Sooner(a + b, fused[i], fused[j])
  {
    var keys :| Fusion(a, b, keys) && fused == Take(keys, k);
    assert fused[i] == keys[i] && fused[j] == keys[j];
    assert FusedIn(a, b)(keys[i]) == FusedIn(a, b)(keys[j]);
  }

  // ---------------------------------------------------------------------------
  // The bound is tight
  // ---------------------------------------------------------------------------

  /** Two lanes without a common id. */
  function Copies(c: char, n: nat): string
  {
    seq(n, _ => c)
  }

  function Lane(c: char, n: nat): seq<string>
  {
    seq(n, i requires 0 <= i < n => Copies(c, i + 1))
  }

  /** The lanes in turn. */
  function Interleaved(n: nat): seq<string>
  {
    seq(2 * n, p requires 0 <= p < 2 * n => Copies(if p % 2 == 0 then 'a' else 'b', p / 2 + 1))
  }

  lemma CopiesDiffer(c: char, d: char, m: nat, n: nat)
    requires m > 0 && n > 0 && (c != d || m != n)
    ensures Copies(c, m) != Copies(d, n)
  {
    if m == n {
      assert Copies(c, m)[0] != Copies(d, n)[0];
    } else {
      assert |Copies(c, m)| != |Copies(d, n)|;
    }
  }

  lemma LaneDistinct(c: char, n: nat)
    ensures Distinct(Lane(c, n))
  {
    forall i, j | 0 <= i < j < n ensures Lane(c, n)[i] != Lane(c, n)[j] {
      CopiesDiffer(c, c, i + 1, j + 1);
    }
  }

  /** An id in a lane without duplicates is worth exactly its place there. */
  lemma {:induction false} LaneBestExact(lane: seq<string>, r: nat)
    requires Distinct(lane) && r < |lane|
    ensures LaneBest(lane, lane[r]) == Reciprocal(r)
  {
    var init := lane[..|lane| - 1];
    if r < |lane| - 1 {
      LaneBestExact(init, r);
      assert init[r] == lane[r];
    } else {
      assert lane[r] !in init;
      LaneBestNonNegative(init, lane[r]);
      ReciprocalOrder(r, r + 1);
    }
  }

  lemma InterleavedWorth(n: nat, p: nat)
    requires p < 2 * n
    ensures Fused(Lane('a', n), Lane('b', n), Interleaved(n)[p]) == Reciprocal(p / 2)
  {
    var a, b, id, i := Lane('a', n), Lane('b', n), Interleaved(n)[p], p / 2;
    var own, other, c := if p % 2 == 0 then a else b, if p % 2 == 0 then b else a, if p % 2 == 0 then 'a' else 'b';
    LaneDistinct(c, n);
    LaneBestExact(own, i);
    forall j | 0 <= j < n ensures other[j] != id {
      CopiesDiffer(if c == 'a' then 'b' else 'a', c, j + 1, i + 1);
    }
    assert id !in other;
    LaneBestNonNegative(other, id);
    ReciprocalOrder(i, i + 1);
  }

  lemma InterleavedIsFusion(n: nat)
    ensures Fusion(Lane('a', n), Lane('b', n), Interleaved(n))
  {
    var a, b, keys := Lane('a', n), Lane('b', n), Interleaved(n);
    forall i, j | 0 <= i < j < |keys| ensures keys[i] != keys[j] && Fused(a, b, keys[i]) >= Fused(a, b, keys[j]) {
      CopiesDiffer(if i % 2 == 0 then 'a' else 'b', if j % 2 == 0 then 'a' else 'b', i / 2 + 1, j / 2 + 1);
      InterleavedWorth(n, i);
      InterleavedWorth(n, j);
      if i / 2 < j / 2 {
        ReciprocalOrder(i / 2, j / 2);
      }
    }
    SameElements(n);
    InterleavedSequenced(n);
  }

  lemma InterleavedSequenced(n: nat)
    ensures Sequenced(Interleaved(n), FusedIn(Lane('a', n), Lane('b', n)), Lane('a', n) + Lane('b', n))
  {
    var a, b, keys := Lane('a', n), Lane('b', n), Interleaved(n);
    forall i, j | 0 <= i < j < |keys|
      ensures FusedIn(a, b)(keys[i]) > FusedIn(a, b)(keys[j]) ||
              (FusedIn(a, b)(keys[i]) == FusedIn(a, b)(keys[j]) && Sooner(a + b, keys[i], keys[j]))
    {
      InterleavedWorth(n, i);
      InterleavedWorth(n, j);
      if i / 2 < j / 2 {
        ReciprocalOrder(i / 2, j / 2);
      } else {
        FirstLaneSooner(n, i / 2);
      }
    }
  }

  lemma FirstLaneSooner(n: nat, i: nat)
    requires i < n
    ensures Sooner(Lane('a', n) + Lane('b', n), Copies('a', i + 1), Copies('b', i + 1))
  {
    var keys := Lane('a', n) + Lane('b', n);
    forall p | 0 <= p <= i ensures keys[p] != Copies('b', i + 1) {
      CopiesDiffer('a', 'b', p + 1, i + 1);
    }
    assert keys[i] == Copies('a', i + 1) && Copies('b', i + 1) !in keys[..i + 1];
  }

  lemma SameElements(n: nat)
    ensures Elements(Interleaved(n)) == Elements(Lane('a', n)) + Elements(Lane('b', n))
  {
    var a, b, keys := Lane('a', n), Lane('b', n), Interleaved(n);
    forall p | 0 <= p < 2 * n ensures keys[p] in a || keys[p] in b {
      assert keys[p] == if p % 2 == 0 then a[p / 2] else b[p / 2];
    }
    forall i | 0 <= i < n ensures a[i] in keys && b[i] in keys {
      assert keys[2 * i] == a[i] && keys[2 * i + 1] == b[i];
    }
  }

  /** The bound is tight for every rank: with one place less there are lanes whose id at that rank is lost. */
  lemma HeadsTight(r: nat) returns (a: seq<string>, b: seq<string>, fused: seq<string>)
    ensures r < |b| && IsUnion(a, b, 2 * (r + 1) - 1, fused) && b[r] !in fused
  {
    var n := r + 1;
    var keys := Interleaved(n);
    a, b, fused := Lane('a', n), Lane('b', n), keys[..2 * n - 1];
    InterleavedIsFusion(n);
    assert fused == Take(keys, 2 * n - 1);
    assert keys[2 * n - 1] == b[r];
  }
}
