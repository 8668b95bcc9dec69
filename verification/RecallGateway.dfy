/** Reciprocal rank fusion of recall lanes (chitta-mcp/recall_gateway.py, `rrf_merge`). */
module RecallGateway {
  import opened Prelude
  import opened Reals
  import opened ScoreDict

  /** A recall result; an absent memory id is the empty string. */
  datatype Item = Item(memoryId: string, text: string)

  function KeyOf(item: Item): string
  {
    if item.memoryId != "" then item.memoryId else Take(item.text, 80)
  }

  /** `1 / (k + rank + 1)`; the source raises an error where that divides by zero. */
  function Gain(k: int, rank: nat): real
  {
    if k + rank + 1 == 0 then 0.0 else 1.0 / (k + rank + 1) as real
  }

  /** The lane reaches the rank at which a negative constant divides by zero. */
  predicate Raises(lane: seq<Item>, k: int)
  {
    0 <= -k - 1 < |lane|
  }

  predicate Runs(lanes: seq<seq<Item>>, k: int)
  {
    forall n :: 0 <= n < |lanes| ==> !Raises(lanes[n], k)
  }

  /** Off the pole, a gain is the reciprocal of its rank. */
  lemma GainExact(k: int, rank: nat)
    requires k + rank + 1 != 0
    ensures Gain(k, rank) * (k + rank + 1) as real == 1.0
  {
    var x := (k + rank + 1) as real;
    assert 1.0 / x * x == 1.0;
  }

  function CharAt(s: string, i: nat): Option<char>
  {
    if i < |s| then Some(s[i]) else None
  }

  /** Without ids, two items have one key exactly if their texts agree on the first 80 characters. */
  lemma SameKey(x: Item, y: Item)
    requires x.memoryId == "" && y.memoryId == ""
    ensures KeyOf(x) == KeyOf(y) <==> forall i: nat :: i < 80 ==> CharAt(x.text, i) == CharAt(y.text, i)
  {
    var s, t := KeyOf(x), KeyOf(y);
    forall i: nat | i < 80 ensures CharAt(s, i) == CharAt(x.text, i) && CharAt(t, i) == CharAt(y.text, i) {
    }
    if s != t {
      var i := FirstDifference(s, t);
      assert CharAt(s, i) != CharAt(t, i) && i < 80;
    }
  }

  lemma FirstDifference(s: string, t: string) returns (i: nat)
    requires s != t
    ensures (i < |s| || i < |t|) && CharAt(s, i) != CharAt(t, i)
  {
    if |s| == |t| {
      i :| 0 <= i < |s| && s[i] != t[i];
    } else {
      i := if |s| < |t| then |s| else |t|;
    }
  }

  lemma GainPositive(k: int, i: nat)
    requires k >= 0
    ensures Gain(k, i) > 0.0
  {
    ReciprocalPositive((k + i + 1) as real);
  }

  lemma NegatedReciprocal(x: real)
    requires x > 0.0
    ensures 1.0 / -x == -(1.0 / x)
  {
    var u := 1.0 / x;
    assert u * x == 1.0;
    assert 1.0 / -x * -x == 1.0;
    assert (1.0 / -x + u) * x == 0.0;
    CancelFactor(1.0 / -x, -u, x);
  }

  /** An earlier rank gains more, on either side of the pole. */
  lemma GainDecreases(k: int, i: nat, j: nat)
    requires i < j && (k + i + 1 > 0 || k + j + 1 < 0)
    ensures Gain(k, i) > Gain(k, j)
  {
    var x, y := (k + i + 1) as real, (k + j + 1) as real;
    if k + i + 1 > 0 {
      ReciprocalDecreases(x, y);
    } else {
      ReciprocalDecreases(-y, -x);
      NegatedReciprocal(-x);
      NegatedReciprocal(-y);
    }
  }

  // ---------------------------------------------------------------------------
  // Scores
  // ---------------------------------------------------------------------------

  /** What the occurrences of `key` in one lane add up to. */
  function LaneScore(lane: seq<Item>, key: string, k: int): real
  {
    if lane == [] then 0.0
    else LaneScore(lane[..|lane| - 1], key, k) + if KeyOf(lane[|lane| - 1]) == key then Gain(k, |lane| - 1) else 0.0
  }

  function Score(lanes: seq<seq<Item>>, key: string, k: int): real
  {
    if lanes == [] then 0.0 else Score(lanes[..|lanes| - 1], key, k) + LaneScore(lanes[|lanes| - 1], key, k)
  }

  function LaneKeys(lane: seq<Item>): seq<string>
  {
    seq(|lane|, i requires 0 <= i < |lane| => KeyOf(lane[i]))
  }

  /** The keys of all items, lane by lane. */
  function AllKeys(lanes: seq<seq<Item>>): seq<string>
  {
    if lanes == [] then [] else AllKeys(lanes[..|lanes| - 1]) + LaneKeys(lanes[|lanes| - 1])
  }

  /** The first item of a lane with the given key. */
  function FindInLane(lane: seq<Item>, key: string): Option<Item>
  {
    if lane == [] then None
    else if FindInLane(lane[..|lane| - 1], key).Some? then FindInLane(lane[..|lane| - 1], key)
    else if KeyOf(lane[|lane| - 1]) == key then Some(lane[|lane| - 1])
    else None
  }

  /** The first item with the given key, lane by lane. */
  function Find(lanes: seq<seq<Item>>, key: string): Option<Item>
  {
    if lanes == [] then None
    else if Find(lanes[..|lanes| - 1], key).Some? then Find(lanes[..|lanes| - 1], key)
    else FindInLane(lanes[|lanes| - 1], key)
  }

  // ---------------------------------------------------------------------------
  // The accumulating dict
  // ---------------------------------------------------------------------------

  /** `key_items`: score and first item by key. */
  datatype Table = Table(scores: Scores<string>, item: map<string, Item>)

  ghost predicate Aligned(t: Table)
  {
    Consistent(t.scores) && t.item.Keys == t.scores.value.Keys
  }

  function ItemIn(t: Table, key: string): Option<Item>
  {
    if key in t.item then Some(t.item[key]) else None
  }

  function OrElse(a: Option<Item>, b: Option<Item>): Option<Item>
  {
    if a.Some? then a else b
  }

  /** `r` is `t` after the items of one lane. */
  ghost predicate Extended(t: Table, r: Table, lane: seq<Item>, k: int)
  {
    && Aligned(r)
    && (forall key :: At(r.scores, key) == At(t.scores, key) + LaneScore(lane, key, k))
    && (forall key :: ItemIn(r, key) == OrElse(ItemIn(t, key), FindInLane(lane, key)))
    && r.scores.order == Entered(t.scores.order, LaneKeys(lane))
  }

  /** The body of the inner loop. */
  method AddItem(t: Table, item: Item, gain: real) returns (r: Table)
    requires Aligned(t)
    ensures Aligned(r)
    ensures forall key :: At(r.scores, key) == At(t.scores, key) + if key == KeyOf(item) then gain else 0.0
    ensures forall key :: ItemIn(r, key) == OrElse(ItemIn(t, key), if key == KeyOf(item) then Some(item) else None)
    ensures r.scores.order == Enter(t.scores.order, KeyOf(item))
  {
    var key := KeyOf(item);
    SetOrder(t.scores, key, gain);
    SetOrder(t.scores, key, At(t.scores, key) + gain);
    if key !in t.item {
      r := Table(Set(t.scores, key, gain), t.item[key := item]);
    } else {
      r := t.(scores := Set(t.scores, key, At(t.scores, key) + gain));
    }
  }

  lemma ExtendStep(t: Table, mid: Table, r: Table, lane: seq<Item>, item: Item, k: int)
    requires Extended(t, mid, lane, k) && Aligned(r)
    requires forall key :: At(r.scores, key) == At(mid.scores, key) + if key == KeyOf(item) then Gain(k, |lane|) else 0.0
    requires forall key :: ItemIn(r, key) == OrElse(ItemIn(mid, key), if key == KeyOf(item) then Some(item) else None)
    requires r.scores.order == Enter(mid.scores.order, KeyOf(item))
    ensures Extended(t, r, lane + [item], k)
  {
    assert (lane + [item])[..|lane|] == lane;
    assert LaneKeys(lane + [item]) == LaneKeys(lane) + [KeyOf(item)];
    EnteredSnoc(t.scores.order, LaneKeys(lane), KeyOf(item));
  }

  /** The inner loop; None stands for the division by zero. */
  method AddLane(t: Table, lane: seq<Item>, k: int) returns (result: Option<Table>)
    requires Aligned(t)
    ensures result.None? <==> Raises(lane, k)
    ensures result.Some? ==> Extended(t, result.value, lane, k)
  {
    var r := t;
    for rank := 0 to |lane|
      invariant Extended(t, r, lane[..rank], k) && !Raises(lane[..rank], k)
    {
      if k + rank + 1 == 0 {
        return None;
      }
      var next := AddItem(r, lane[rank], Gain(k, rank));
      ExtendStep(t, r, next, lane[..rank], lane[rank], k);
      assert lane[..rank + 1] == lane[..rank] + [lane[rank]];
      r := next;
    }
    assert lane[..|lane|] == lane;
    return Some(r);
  }

  /** The dict after all lanes. */
  ghost predicate Fused(r: Table, lanes: seq<seq<Item>>, k: int)
  {
    && Aligned(r)
    && (forall key :: At(r.scores, key) == Score(lanes, key, k))
    && (forall key :: ItemIn(r, key) == Find(lanes, key))
    && r.scores.order == Entered([], AllKeys(lanes))
  }

  lemma FuseStep(mid: Table, r: Table, lanes: seq<seq<Item>>, lane: seq<Item>, k: int)
    requires Fused(mid, lanes, k) && Extended(mid, r, lane, k)
    ensures Fused(r, lanes + [lane], k)
  {
    assert (lanes + [lane])[..|lanes|] == lanes;
    EnteredConcat([], AllKeys(lanes), LaneKeys(lane));
  }

  method Fuse(lanes: seq<seq<Item>>, k: int) returns (result: Option<Table>)
    ensures result.Some? <==> Runs(lanes, k)
    ensures result.Some? ==> Fused(result.value, lanes, k)
  {
    var r := Table(Scores([], map[]), map[]);
    for n := 0 to |lanes|
      invariant Fused(r, lanes[..n], k) && Runs(lanes[..n], k)
    {
      var next := AddLane(r, lanes[n], k);
      if next.None? {
        return None;
      }
      FuseStep(r, next.value, lanes[..n], lanes[n], k);
      assert lanes[..n + 1] == lanes[..n] + [lanes[n]];
      r := next.value;
    }
    assert lanes[..|lanes|] == lanes;
    return Some(r);
  }

  // ---------------------------------------------------------------------------
  // The ranking
  // ---------------------------------------------------------------------------

  function ScoreIn(lanes: seq<seq<Item>>, k: int): string -> real
  {
    (key: string) => Score(lanes, key, k)
  }

  /** `keys` ranks every key of the lanes once, by descending score and then by first occurrence. */
  ghost predicate Ranking(lanes: seq<seq<Item>>, k: int, keys: seq<string>)
  {
    && Distinct(keys)
    && (forall key :: key in keys <==> Find(lanes, key).Some?)
    && (forall i, j :: 0 <= i < j < |keys| ==> Score(lanes, keys[i], k) >= Score(lanes, keys[j], k))
    && Sequenced(keys, ScoreIn(lanes, k), AllKeys(lanes))
  }

  lemma RankedSequenced(t: Table, lanes: seq<seq<Item>>, k: int)
    requires Fused(t, lanes, k)
    ensures Sequenced(Ranked(t.scores), ScoreIn(lanes, k), AllKeys(lanes))
  {
    RankedBy(t.scores, ScoreIn(lanes, k), AllKeys(lanes));
  }

  lemma RankedIsRanking(t: Table, lanes: seq<seq<Item>>, k: int)
    requires Fused(t, lanes, k)
    ensures Ranking(lanes, k, Ranked(t.scores))
    ensures forall key :: key in Ranked(t.scores) ==> key in t.item && Find(lanes, key) == Some(t.item[key])
  {
    var keys := Ranked(t.scores);
    RankedCorrect(t.scores);
    RankedSequenced(t, lanes, k);
    forall key ensures key in keys <==> Find(lanes, key).Some? {
      assert key in keys <==> key in Elements(keys);
      assert ItemIn(t, key) == Find(lanes, key);
    }
  }

  /** `items` are the first items of the first `limit` keys. */
  ghost predicate Represents(lanes: seq<seq<Item>>, keys: seq<string>, limit: int, items: seq<Item>)
  {
    && |items| == |Take(keys, limit)|
    && (forall i :: 0 <= i < |items| ==> Find(lanes, keys[i]) == Some(items[i]))
  }

  ghost predicate IsMerge(lanes: seq<seq<Item>>, k: int, limit: int, items: seq<Item>)
  {
    exists keys :: Ranking(lanes, k, keys) && Represents(lanes, keys, limit, items)
  }

  /** `rrf_merge`: the first items of the best keys, by descending score, unless a negative constant divides by
      zero on the way. */
  method RrfMerge(lanes: seq<seq<Item>>, k: int, limit: int) returns (result: Option<seq<Item>>)
    ensures result.Some? <==> Runs(lanes, k)
    ensures result.Some? ==> IsMerge(lanes, k, limit, result.value)
  {
    var fused := Fuse(lanes, k);
    if fused.None? {
      return None;
    }
    var t := fused.value;
    RankedIsRanking(t, lanes, k);
    var ranked := Ranked(t.scores);
    var best := Take(ranked, limit);
    var items := seq(|best|, i requires 0 <= i < |best| => assert ranked[i] in ranked; t.item[best[i]]);
    assert Represents(lanes, ranked, limit, items) by {
      forall i | 0 <= i < |items| ensures Find(lanes, ranked[i]) == Some(items[i]) {
        assert ranked[i] in ranked;
      }
    }
    return Some(items);
  }

  lemma {:induction false} FindInLaneKey(lane: seq<Item>, key: string)
    ensures FindInLane(lane, key).Some? ==> KeyOf(FindInLane(lane, key).value) == key
  {
    if lane != [] {
      FindInLaneKey(lane[..|lane| - 1], key);
    }
  }

  lemma {:induction false} FindKey(lanes: seq<seq<Item>>, key: string)
    ensures Find(lanes, key).Some? ==> KeyOf(Find(lanes, key).value) == key
  {
    if lanes != [] {
      FindKey(lanes[..|lanes| - 1], key);
      FindInLaneKey(lanes[|lanes| - 1], key);
    }
  }

  lemma MergeKeys(lanes: seq<seq<Item>>, keys: seq<string>, limit: int, items: seq<Item>)
    requires Represents(lanes, keys, limit, items)
    ensures forall i :: 0 <= i < |items| ==> KeyOf(items[i]) == keys[i]
  {
    forall i | 0 <= i < |items| ensures KeyOf(items[i]) == keys[i] {
      FindKey(lanes, keys[i]);
    }
  }

  /** The merged items have distinct keys and come by descending score. */
  lemma MergeSorted(lanes: seq<seq<Item>>, k: int, limit: int, items: seq<Item>, i: nat, j: nat)
    requires IsMerge(lanes, k, limit, items) && i < j < |items|
    ensures KeyOf(items[i]) != KeyOf(items[j])
    ensures Score(lanes, KeyOf(items[i]), k) >= Score(lanes, KeyOf(items[j]), k)
  {
    var keys :| Ranking(lanes, k, keys) && Represents(lanes, keys, limit, items);
    MergeKeys(lanes, keys, limit, items);
  }

  /** A key that is left out scores no more than any item that is not. */
  lemma MergeBest(lanes: seq<seq<Item>>, k: int, limit: int, items: seq<Item>, i: nat, key: string)
    requires IsMerge(lanes, k, limit, items) && i < |items|
    requires Find(lanes, key).Some? && forall j :: 0 <= j < |items| ==> KeyOf(items[j]) != key
    ensures Score(lanes, KeyOf(items[i]), k) >= Score(lanes, key, k)
  {
    var keys :| Ranking(lanes, k, keys) && Represents(lanes, keys, limit, items);
    MergeKeys(lanes, keys, limit, items);
    LeftOutIsWorse(lanes, k, keys, i, |items|, key);
  }

  /** Items of equal score come in the order in which their keys occur first, lane by lane. */
  lemma MergeTies(lanes: seq<seq<Item>>, k: int, limit: int, items: seq<Item>, i: nat, j: nat)
    requires IsMerge(lanes, k, limit, items) && i < j < |items|
    requires Score(lanes, KeyOf(items[i]), k) == Score(lanes, KeyOf(items[j]), k)
    ensures Sooner(AllKeys(lanes), KeyOf(items[i]), KeyOf(items[j]))
  {
    var keys :| Ranking(lanes, k, keys) && Represents(lanes, keys, limit, items);
    MergeKeys(lanes, keys, limit, items);
    RankingTies(lanes, k, keys, i, j);
  }

  lemma RankingTies(lanes: seq<seq<Item>>, k: int, keys: seq<string>, i: nat, j: nat)
    requires Ranking(lanes, k, keys) && i < j < |keys| && Score(lanes, keys[i], k) == Score(lanes, keys[j], k)
    ensures Sooner(AllKeys(lanes), keys[i], keys[j])
  {
    SequencedAt(keys, ScoreIn(lanes, k), AllKeys(lanes), i, j);
  }

  /** The lanes, the constant and the limit leave one result only. */
  lemma MergeUnique(lanes: seq<seq<Item>>, k: int, limit: int, x: seq<Item>, y: seq<Item>)
    requires IsMerge(lanes, k, limit, x) && IsMerge(lanes, k, limit, y)
    ensures x == y
  {
    var s :| Ranking(lanes, k, s) && Represents(lanes, s, limit, x);
    var t :| Ranking(lanes, k, t) && Represents(lanes, t, limit, y);
    RankingUnique(lanes, k, s, t);
    assert forall i :: 0 <= i < |x| ==> Find(lanes, s[i]) == Some(x[i]) && Find(lanes, t[i]) == Some(y[i]);
  }

  lemma RankingUnique(lanes: seq<seq<Item>>, k: int, s: seq<string>, t: seq<string>)
    requires Ranking(lanes, k, s) && Ranking(lanes, k, t)
    ensures s == t
  {
    assert Elements(s) == Elements(t);
    SequenceUnique(s, t, ScoreIn(lanes, k), AllKeys(lanes), |s|);
    SequenceUnique(t, s, ScoreIn(lanes, k), AllKeys(lanes), |t|);
    assert s[..|s|] == s && t[..|t|] == t;
  }

  /** Two lanes with one item each: the item of the first lane comes first. */
  lemma TieByLane(a: Item, b: Item, k: nat, limit: int, items: seq<Item>)
    requires KeyOf(a) != KeyOf(b) && limit >= 2 && IsMerge([[a], [b]], k, limit, items)
    ensures items == [a, b]
  {
    var ka, kb := KeyOf(a), KeyOf(b);
    TwoLanes(a, b, k);
    assert Sooner([ka, kb], ka, kb) by {
      assert [ka, kb][0] == ka && kb !in [ka, kb][..1];
    }
    TiedPair([[a], [b]], k, limit, items, ka, a, kb, b);
  }

  lemma TiedPair(lanes: seq<seq<Item>>, k: int, limit: int, items: seq<Item>, ka: string, a: Item, kb: string, b: Item)
    requires limit >= 2 && IsMerge(lanes, k, limit, items) && ka != kb
    requires Find(lanes, ka) == Some(a) && Find(lanes, kb) == Some(b)
    requires forall key :: Find(lanes, key).Some? <==> key == ka || key == kb
    requires Score(lanes, ka, k) == Score(lanes, kb, k) && Sooner(AllKeys(lanes), ka, kb)
    ensures items == [a, b]
  {
    forall keys | Ranking(lanes, k, keys) ensures keys == [ka, kb] {
      TiedKeys(lanes, k, keys, ka, kb);
    }
    MergeOf(lanes, k, limit, items, [ka, kb]);
    PairRepresents(lanes, ka, kb, limit, items);
  }

  lemma MergeOf(lanes: seq<seq<Item>>, k: int, limit: int, items: seq<Item>, ranking: seq<string>)
    requires IsMerge(lanes, k, limit, items) && forall keys :: Ranking(lanes, k, keys) ==> keys == ranking
    ensures Represents(lanes, ranking, limit, items)
  {
  }

  lemma PairRepresents(lanes: seq<seq<Item>>, ka: string, kb: string, limit: int, items: seq<Item>)
    requires limit >= 2 && Represents(lanes, [ka, kb], limit, items)
    ensures |items| == 2 && Find(lanes, ka) == Some(items[0]) && Find(lanes, kb) == Some(items[1])
  {
    assert Take([ka, kb], limit) == [ka, kb];
    assert [ka, kb][0] == ka && [ka, kb][1] == kb;
  }

  lemma TiedKeys(lanes: seq<seq<Item>>, k: int, keys: seq<string>, a: string, b: string)
    requires Ranking(lanes, k, keys) && a != b && forall key :: Find(lanes, key).Some? <==> key == a || key == b
    requires Score(lanes, a, k) == Score(lanes, b, k) && Sooner(AllKeys(lanes), a, b)
    ensures keys == [a, b]
  {
    TwoKeys(lanes, k, keys, a, b);
    SoonerAsymmetric(AllKeys(lanes), a, b);
    RankingTies(lanes, k, keys, 0, 1);
  }

  lemma TwoKeys(lanes: seq<seq<Item>>, k: int, keys: seq<string>, a: string, b: string)
    requires Ranking(lanes, k, keys) && a != b && forall key :: Find(lanes, key).Some? <==> key == a || key == b
    ensures keys == [a, b] || keys == [b, a]
  {
    assert Elements(keys) == {a, b};
    ElementsSize(keys);
    assert keys[0] in keys && keys[1] in keys;
  }

  lemma TwoLanes(a: Item, b: Item, k: int)
    requires KeyOf(a) != KeyOf(b)
    ensures Score([[a], [b]], KeyOf(a), k) == Score([[a], [b]], KeyOf(b), k) == Gain(k, 0)
    ensures AllKeys([[a], [b]]) == [KeyOf(a), KeyOf(b)]
    ensures forall key :: Find([[a], [b]], key) == if key == KeyOf(a) then Some(a) else if key == KeyOf(b) then Some(b) else None
  {
    var empty: seq<seq<Item>> := [];
    assert [[a], [b]][..1] == [[a]] && [[a]][..0] == empty;
    assert [a][..0] == [] && [b][..0] == [];
    assert AllKeys([[a]]) == AllKeys(empty) + LaneKeys([a]);
    LaneScoreAt([a], 0, k);
    LaneScoreAt([b], 0, k);
    LaneScoreAbsent([a], KeyOf(b), k);
    LaneScoreAbsent([b], KeyOf(a), k);
    ScoreSnoc(empty, [a], KeyOf(a), k);
    ScoreSnoc(empty, [a], KeyOf(b), k);
    ScoreSnoc([[a]], [b], KeyOf(a), k);
    ScoreSnoc([[a]], [b], KeyOf(b), k);
    forall key ensures Find([[a], [b]], key) == if key == KeyOf(a) then Some(a) else if key == KeyOf(b) then Some(b) else None {
      assert Find(empty, key) == None;
      assert Find([[a]], key) == FindInLane([a], key);
      assert FindInLane([a][..0], key) == None && FindInLane([b][..0], key) == None;
    }
  }

  lemma LeftOutIsWorse(lanes: seq<seq<Item>>, k: int, keys: seq<string>, i: nat, n: nat, key: string)
    requires Ranking(lanes, k, keys) && i < n <= |keys| && key in keys && forall j :: 0 <= j < n ==> keys[j] != key
    ensures Score(lanes, keys[i], k) >= Score(lanes, key, k)
  {
    var p :| 0 <= p < |keys| && keys[p] == key;
    assert p >= n;
  }

  // ---------------------------------------------------------------------------
  // Dominance
  // ---------------------------------------------------------------------------

  ghost predicate NoRepeats(lane: seq<Item>)
  {
    forall i, j :: 0 <= i < j < |lane| ==> KeyOf(lane[i]) != KeyOf(lane[j])
  }

  /** In this lane, `a` is ranked before `b` if `b` occurs at all. */
  ghost predicate Before(lane: seq<Item>, a: string, b: string)
  {
    forall j :: 0 <= j < |lane| && KeyOf(lane[j]) == b ==> exists i :: 0 <= i < j && KeyOf(lane[i]) == a
  }

  /** Without repetitions, `a` is before `b` in every lane that has `b`; with a negative constant, where occurring
      costs, `a` is moreover in no other lane. */
  ghost predicate Dominates(lanes: seq<seq<Item>>, a: string, b: string, k: int)
  {
    forall n :: 0 <= n < |lanes| ==>
      NoRepeats(lanes[n]) && Before(lanes[n], a, b) && (k >= 0 || OnlyWith(lanes[n], a, b))
  }

  lemma {:induction false} LaneScoreAbsent(lane: seq<Item>, key: string, k: int)
    requires forall i :: 0 <= i < |lane| ==> KeyOf(lane[i]) != key
    ensures LaneScore(lane, key, k) == 0.0
  {
    if lane != [] {
      LaneScoreAbsent(lane[..|lane| - 1], key, k);
    }
  }

  lemma {:induction false} LaneScoreAt(lane: seq<Item>, i: nat, k: int)
    requires NoRepeats(lane) && i < |lane|
    ensures LaneScore(lane, KeyOf(lane[i]), k) == Gain(k, i)
  {
    if i < |lane| - 1 {
      LaneScoreAt(lane[..|lane| - 1], i, k);
    } else {
      LaneScoreAbsent(lane[..i], KeyOf(lane[i]), k);
    }
  }

  lemma {:induction false} LaneScoreNonNegative(lane: seq<Item>, key: string, k: int)
    requires k >= 0
    ensures LaneScore(lane, key, k) >= 0.0
  {
    if lane != [] {
      LaneScoreNonNegative(lane[..|lane| - 1], key, k);
      GainPositive(k, |lane| - 1);
    }
  }

  /** In no lane does `a` occur without `b`. */
  ghost predicate OnlyWith(lane: seq<Item>, a: string, b: string)
  {
    FindInLane(lane, a).Some? ==> FindInLane(lane, b).Some?
  }

  lemma LaneDominance(lane: seq<Item>, a: string, b: string, k: int)
    requires NoRepeats(lane) && Before(lane, a, b) && !Raises(lane, k) && (k >= 0 || OnlyWith(lane, a, b))
    ensures LaneScore(lane, a, k) >= LaneScore(lane, b, k)
    ensures FindInLane(lane, b).Some? ==> LaneScore(lane, a, k) > LaneScore(lane, b, k)
  {
    FoundInLane(lane, a);
    FoundInLane(lane, b);
    if j :| 0 <= j < |lane| && KeyOf(lane[j]) == b {
      var i :| 0 <= i < j && KeyOf(lane[i]) == a;
      LaneScoreAt(lane, i, k);
      LaneScoreAt(lane, j, k);
      GainDecreases(k, i, j);
    } else {
      LaneScoreAbsent(lane, b, k);
      if k >= 0 {
        LaneScoreNonNegative(lane, a, k);
      } else {
        LaneScoreAbsent(lane, a, k);
      }
    }
  }

  lemma {:induction false} FoundInLane(lane: seq<Item>, key: string)
    ensures FindInLane(lane, key).Some? <==> exists i :: 0 <= i < |lane| && KeyOf(lane[i]) == key
  {
    if lane != [] {
      FoundInLane(lane[..|lane| - 1], key);
    }
  }

  lemma {:induction false} ScoreDominance(lanes: seq<seq<Item>>, a: string, b: string, k: int)
    requires Runs(lanes, k) && Dominates(lanes, a, b, k)
    ensures Score(lanes, a, k) >= Score(lanes, b, k)
    ensures Find(lanes, b).Some? ==> Score(lanes, a, k) > Score(lanes, b, k) && Find(lanes, a).Some?
  {
    if lanes != [] {
      var init, last := lanes[..|lanes| - 1], lanes[|lanes| - 1];
      ScoreDominance(init, a, b, k);
      LaneDominance(last, a, b, k);
      FoundInLane(last, a);
      FoundInLane(last, b);
    }
  }

  /** Dominance: if `a` is ranked before `b` in every lane that has `b`, then whenever `b` makes it into the
      fused result so does `a`, and ahead of it. */
  lemma Dominance(lanes: seq<seq<Item>>, k: int, limit: int, items: seq<Item>, a: string, b: string, j: nat)
    requires IsMerge(lanes, k, limit, items)
    requires Runs(lanes, k) && Dominates(lanes, a, b, k)
    requires j < |items| && KeyOf(items[j]) == b
    ensures exists i :: 0 <= i < j && KeyOf(items[i]) == a
  {
    var keys :| Ranking(lanes, k, keys) && Represents(lanes, keys, limit, items);
    MergeKeys(lanes, keys, limit, items);
    assert keys[j] in keys;
    ScoreDominance(lanes, a, b, k);
    var i := EarlierIfBetter(lanes, k, keys, a, j);
    assert KeyOf(items[i]) == a;
  }

  lemma EarlierIfBetter(lanes: seq<seq<Item>>, k: int, keys: seq<string>, a: string, j: nat) returns (i: nat)
    requires Ranking(lanes, k, keys) && j < |keys| && Find(lanes, a).Some?
    requires Score(lanes, a, k) > Score(lanes, keys[j], k)
    ensures i < j && keys[i] == a
  {
    assert a in keys;
    i :| 0 <= i < |keys| && keys[i] == a;
  }

  lemma ScoreSnoc(lanes: seq<seq<Item>>, lane: seq<Item>, key: string, k: int)
    ensures Score(lanes + [lane], key, k) == Score(lanes, key, k) + LaneScore(lane, key, k)
  {
    assert (lanes + [lane])[..|lanes|] == lanes;
  }

  lemma ThreeLanes(x: seq<Item>, y: seq<Item>, z: seq<Item>, key: string, k: int)
    ensures Score([x, y, z], key, k) == LaneScore(x, key, k) + LaneScore(y, key, k) + LaneScore(z, key, k)
  {
    var empty: seq<seq<Item>> := [];
    ScoreSnoc(empty, x, key, k);
    ScoreSnoc(empty + [x], y, key, k);
    ScoreSnoc(empty + [x] + [y], z, key, k);
    assert [x, y, z] == empty + [x] + [y] + [z];
  }

  /** With a negative constant, being in more lanes costs: here `a` is before `b` wherever `b` is, and yet scores less. */
  lemma NegativeConstant(a: Item, b: Item)
    requires KeyOf(a) != KeyOf(b)
    ensures Runs([[a, b], [a], [a]], -3) && Score([[a, b], [a], [a]], KeyOf(a), -3) < Score([[a, b], [a], [a]], KeyOf(b), -3)
    ensures NoRepeats([a, b]) && NoRepeats([a]) && Before([a, b], KeyOf(a), KeyOf(b)) && Before([a], KeyOf(a), KeyOf(b))
  {
    assert Gain(-3, 0) == -0.5 && Gain(-3, 1) == -1.0;
    LaneScoreAt([a], 0, -3);
    LaneScoreAbsent([a], KeyOf(b), -3);
    LaneScoreAt([a, b], 0, -3);
    LaneScoreAt([a, b], 1, -3);
    ThreeLanes([a, b], [a], [a], KeyOf(a), -3);
    ThreeLanes([a, b], [a], [a], KeyOf(b), -3);
  }
}
