/** nDCG and the gold positions it is computed from (hooks/grade-recall.py, `ndcg` and `grade_one`). */
module RecallGrade {
  import opened Prelude
  import opened Reals

  /** `1 / log2(p + 2)`: all that is used is that it is positive and strictly decreasing. */
  type Discount = nat -> real

  ghost predicate IsDiscount(disc: Discount)
  {
    && (forall p: nat :: disc(p) > 0.0)
    && (forall p: nat, q: nat :: p < q ==> disc(p) > disc(q))
  }

  function Min(a: int, b: int): int
  {
    if a <= b then a else b
  }

  function Dcg(positions: seq<nat>, k: int, disc: Discount): real
  {
    if positions == [] then 0.0
    else
      var p := positions[|positions| - 1];
      Dcg(positions[..|positions| - 1], k, disc) + if p < k then disc(p) else 0.0
  }

  /** The gain of the first `n` places. */
  function Ideal(n: int, disc: Discount): real
    decreases if n < 0 then 0 else n
  {
    if n <= 0 then 0.0 else Ideal(n - 1, disc) + disc(n - 1)
  }

  function Ndcg(positions: seq<nat>, nGold: int, k: int, disc: Discount): real
  {
    var idcg := Ideal(Min(nGold, k), disc);
    if idcg > 0.0 then Dcg(positions, k, disc) / idcg else 0.0
  }

  // ---------------------------------------------------------------------------
  // Bounds
  // ---------------------------------------------------------------------------

  /** How many positions are below `k`. */
  function Low(positions: seq<nat>, k: int): nat
  {
    if positions == [] then 0
    else Low(positions[..|positions| - 1], k) + if positions[|positions| - 1] < k then 1 else 0
  }

  lemma {:induction false} IncreasingAbove(positions: seq<nat>, i: nat)
    requires Increasing(positions) && i < |positions|
    ensures i <= positions[i]
  {
    if i > 0 {
      IncreasingAbove(positions, i - 1);
    }
  }

  /** The positions below `k` come first, and there are at most `k` of them. */
  lemma {:induction false} LowIsPrefix(positions: seq<nat>, k: int)
    requires Increasing(positions)
    ensures Low(positions, k) <= |positions|
    ensures k >= 0 ==> Low(positions, k) <= k
    ensures forall i :: 0 <= i < |positions| ==> (positions[i] < k <==> i < Low(positions, k))
  {
    if positions != [] {
      var n := |positions| - 1;
      LowIsPrefix(positions[..n], k);
      IncreasingAbove(positions, n);
    }
  }

  lemma {:induction false} IdealIncreases(m: int, n: int, disc: Discount)
    requires IsDiscount(disc) && m <= n
    ensures Ideal(m, disc) <= Ideal(n, disc)
    ensures 0 <= m < n ==> Ideal(m, disc) < Ideal(n, disc)
    ensures Ideal(n, disc) >= 0.0
    decreases n - m, if n < 0 then 0 else n
  {
    if m < n {
      IdealIncreases(m, n - 1, disc);
    } else if n > 0 {
      IdealIncreases(n - 1, n - 1, disc);
    }
  }

  /** The gain is at most that of as many first places, and equal only for exactly those places. */
  lemma {:induction false} DcgAtMostIdeal(positions: seq<nat>, k: int, disc: Discount)
    requires IsDiscount(disc) && Increasing(positions)
    ensures 0.0 <= Dcg(positions, k, disc) <= Ideal(Low(positions, k), disc)
    ensures Dcg(positions, k, disc) == Ideal(Low(positions, k), disc)
            <==> forall i :: 0 <= i < |positions| && i < Low(positions, k) ==> positions[i] == i
  {
    if positions != [] {
      var n := |positions| - 1;
      var init, p := positions[..n], positions[n];
      DcgAtMostIdeal(init, k, disc);
      LowIsPrefix(init, k);
      LowIsPrefix(positions, k);
      IncreasingAbove(positions, n);
      if p < k {
        assert Low(init, k) == n;
        assert p > n ==> disc(p) < disc(n);
        assert p == n ==> disc(p) == disc(n);
      }
    }
  }

  /** nDCG lies between zero and one whenever there are no more positions than golds. */
  lemma NdcgBounded(positions: seq<nat>, nGold: int, k: int, disc: Discount)
    requires IsDiscount(disc) && Increasing(positions) && |positions| <= nGold
    ensures 0.0 <= Ndcg(positions, nGold, k, disc) <= 1.0
  {
    var idcg, dcg := Ideal(Min(nGold, k), disc), Dcg(positions, k, disc);
    if idcg > 0.0 {
      DcgAtMostIdeal(positions, k, disc);
      LowIsPrefix(positions, k);
      IdealIncreases(Low(positions, k), Min(nGold, k), disc);
      DivideOrder(0.0, dcg, idcg);
      DivideOrder(dcg, idcg, idcg);
      assert idcg / idcg == 1.0;
    }
  }

  /** The positions below `k` are exactly the first `m` places. */
  ghost predicate FirstPlaces(positions: seq<nat>, k: int, m: int)
  {
    forall p: nat :: p in positions && p < k <==> p < m
  }

  lemma FirstPlacesByIndex(positions: seq<nat>, k: int, m: int)
    requires Increasing(positions) && 0 <= m <= k
    ensures FirstPlaces(positions, k, m)
            <==> Low(positions, k) == m && forall i :: 0 <= i < |positions| && i < m ==> positions[i] == i
  {
    LowIsPrefix(positions, k);
    if FirstPlaces(positions, k, m) {
      FirstPlacesIndexed(positions, k, m, m);
      if m < Low(positions, k) {
        assert positions[m] in positions && positions[m] < k;
        IncreasingAbove(positions, m);
      }
    }
    if Low(positions, k) == m && forall i :: 0 <= i < |positions| && i < m ==> positions[i] == i {
      forall p: nat ensures p in positions && p < k <==> p < m {
        if p in positions && p < k {
          var i :| 0 <= i < |positions| && positions[i] == p;
        }
        if p < m {
          assert positions[p] == p;
        }
      }
    }
  }

  lemma {:induction false} FirstPlacesIndexed(positions: seq<nat>, k: int, m: int, n: int)
    requires Increasing(positions) && FirstPlaces(positions, k, m) && 0 <= n <= m <= k
    ensures n <= Low(positions, k) && n <= |positions|
    ensures forall i :: 0 <= i < n ==> positions[i] == i
  {
    LowIsPrefix(positions, k);
    if n > 0 {
      FirstPlacesIndexed(positions, k, m, n - 1);
      var p: nat := n - 1;
      assert p in positions;
      var i :| 0 <= i < |positions| && positions[i] == p;
      IncreasingAbove(positions, i);
      assert i == p;
    }
  }

  /** nDCG is one exactly when the positions below `k` are the first `min(nGold, k)` places. */
  lemma NdcgPerfect(positions: seq<nat>, nGold: int, k: int, disc: Discount)
    requires IsDiscount(disc) && Increasing(positions) && |positions| <= nGold
    requires k >= 1 && nGold >= 1
    ensures Ndcg(positions, nGold, k, disc) == 1.0 <==> FirstPlaces(positions, k, Min(nGold, k))
  {
    var m, low := Min(nGold, k), Low(positions, k);
    var idcg, dcg := Ideal(m, disc), Dcg(positions, k, disc);
    DcgAtMostIdeal(positions, k, disc);
    LowIsPrefix(positions, k);
    IdealIncreases(0, m, disc);
    IdealIncreases(low, m, disc);
    FirstPlacesByIndex(positions, k, m);
    QuotientIsOne(dcg, idcg);
  }

  // ---------------------------------------------------------------------------
  // The positions of grade_one
  // ---------------------------------------------------------------------------

  /** `list.index`: where `id` first occurs. */
  function IndexOf(ids: seq<string>, id: string): (i: nat)
    requires id in ids
    ensures i < |ids| && ids[i] == id
    ensures forall j :: 0 <= j < i ==> ids[j] != id
  {
    if ids[0] == id then 0 else 1 + IndexOf(ids[1..], id)
  }

  /** Result `i` matches the gold signature, or is the first result with a gold id. */
  predicate IsGold(resultIds: seq<string>, sigHits: seq<bool>, goldIds: seq<string>, i: nat)
    requires |sigHits| == |resultIds|
  {
    i < |resultIds| && (sigHits[i] || exists g :: g in goldIds && g in resultIds && IndexOf(resultIds, g) == i)
  }

  /** `positions` and `n_gold` of `grade_one`. */
  method GoldPositions(resultIds: seq<string>, sigHits: seq<bool>, goldIds: seq<string>)
    returns (positions: seq<nat>, nGold: nat)
    requires |sigHits| == |resultIds|
    ensures Increasing(positions)
    ensures forall i: nat :: i in positions <==> IsGold(resultIds, sigHits, goldIds, i)
    ensures nGold >= 1 && nGold >= |positions| && nGold >= |goldIds|
    ensures nGold == 1 || nGold == |positions| || nGold == |goldIds|
  {
    var sig: set<nat> := set i: nat | i < |sigHits| && sigHits[i];
    var byId: set<nat> := {};
    for n := 0 to |goldIds|
      invariant forall i: nat :: i in byId <==> exists g :: g in goldIds[..n] && g in resultIds && IndexOf(resultIds, g) == i
    {
      assert goldIds[..n + 1] == goldIds[..n] + [goldIds[n]];
      if goldIds[n] in resultIds {
        byId := byId + {IndexOf(resultIds, goldIds[n])};
      }
    }
    assert goldIds[..|goldIds|] == goldIds;
    positions := SortSet(sig + byId, |resultIds|);
    forall i: nat ensures i in positions <==> IsGold(resultIds, sigHits, goldIds, i) {
      assert i in positions <==> i in Elements(positions);
    }
    nGold := if |goldIds| >= |positions| then |goldIds| else |positions|;
    if nGold < 1 {
      nGold := 1;
    }
  }

  /** `sorted` of a set of positions below `bound`. */
  method SortSet(s: set<nat>, bound: nat) returns (r: seq<nat>)
    requires forall i :: i in s ==> i < bound
    ensures Increasing(r) && Elements(r) == s
  {
    r := [];
    for i := 0 to bound
      invariant Increasing(r)
      invariant forall j :: 0 <= j < |r| ==> r[j] < i
      invariant forall j: nat :: j in r <==> j in s && j < i
    {
      if i in s {
        r := r + [i];
      }
    }
  }

  /** The score `grade_one` reports is always between zero and one, and one exactly for a perfect ranking. */
  method Grade(resultIds: seq<string>, sigHits: seq<bool>, goldIds: seq<string>, limit: int, disc: Discount)
    returns (score: real, ghost positions: seq<nat>, ghost nGold: nat)
    requires |sigHits| == |resultIds| && IsDiscount(disc)
    ensures forall i: nat :: i in positions <==> IsGold(resultIds, sigHits, goldIds, i)
    ensures 0.0 <= score <= 1.0
    ensures limit >= 1 ==> (score == 1.0 <==> FirstPlaces(positions, limit, Min(nGold, limit)))
    ensures score == Ndcg(positions, nGold, limit, disc)
  {
    var p, n := GoldPositions(resultIds, sigHits, goldIds);
    positions, nGold := p, n;
    score := Ndcg(p, n, limit, disc);
    NdcgBounded(p, n, limit, disc);
    if limit >= 1 {
      NdcgPerfect(p, n, limit, disc);
    }
  }
}
