/** A Python dict of scores: keys in order of insertion, ranked by a stable descending sort. */
module ScoreDict {
  import opened Prelude

  datatype Scores<K> = Scores(order: seq<K>, value: map<K, real>)

  ghost predicate Consistent<K>(s: Scores<K>)
  {
    Distinct(s.order) && s.value.Keys == Elements(s.order)
  }

  /** `scores[key]`, zero by default. */
  function At<K(==)>(s: Scores<K>, key: K): real
  {
    if key in s.value then s.value[key] else 0.0
  }

  /** `scores[key] = v` */
  function Set<K(==)>(s: Scores<K>, key: K, v: real): (r: Scores<K>)
    requires Consistent(s)
    ensures Consistent(r) && r.value == s.value[key := v]
  {
    if key in s.value then s.(value := s.value[key := v])
    else
      assert Elements(s.order + [key]) == Elements(s.order) + {key};
      Scores(s.order + [key], s.value[key := v])
  }

  lemma SetAt<K>(s: Scores<K>, key: K, v: real, other: K)
    requires Consistent(s)
    ensures At(Set(s, key, v), other) == if other == key then v else At(s, other)
    ensures other in Set(s, key, v).value <==> other in s.value || other == key
  {
  }

  function ItemsOf<K>(s: Scores<K>): seq<(K, real)>
    requires Consistent(s)
  {
    seq(|s.order|, i requires 0 <= i < |s.order| => assert s.order[i] in Elements(s.order); (s.order[i], s.value[s.order[i]]))
  }

  function Higher<K>(a: (K, real), b: (K, real)): bool
  {
    a.1 >= b.1
  }

  function KeysOf<K>(items: seq<(K, real)>): seq<K>
  {
    seq(|items|, i requires 0 <= i < |items| => items[i].0)
  }

  /** `sorted(scores.items(), key=lambda x: -x[1])`, keys only. */
  function Ranked<K>(s: Scores<K>): seq<K>
    requires Consistent(s)
  {
    KeysOf(StableSort(ItemsOf(s), Higher))
  }

  lemma ItemsFacts<K>(s: Scores<K>)
    requires Consistent(s)
    ensures Distinct(ItemsOf(s))
    ensures forall x :: x in ItemsOf(s) <==> x.0 in s.value && x.1 == s.value[x.0]
  {
    var items := ItemsOf(s);
    forall i, j | 0 <= i < j < |items| ensures items[i] != items[j] {
      assert items[i].0 == s.order[i] && items[j].0 == s.order[j];
    }
    forall x: (K, real) | x.0 in s.value && x.1 == s.value[x.0] ensures x in items {
      assert x.0 in Elements(s.order);
      var i :| 0 <= i < |s.order| && s.order[i] == x.0;
      assert items[i] == x;
    }
  }

  /** A ranking lists every key once, and never a lower score before a higher one. */
  lemma RankedCorrect<K(!new)>(s: Scores<K>)
    requires Consistent(s)
    ensures Distinct(Ranked(s)) && Elements(Ranked(s)) == s.value.Keys
    ensures forall i, j :: 0 <= i < j < |Ranked(s)| ==> At(s, Ranked(s)[i]) >= At(s, Ranked(s)[j])
  {
    var items, sorted := ItemsOf(s), StableSort(ItemsOf(s), Higher);
    var keys := KeysOf(sorted);
    StableSortCorrect(items, Higher);
    PermutationFacts(items, sorted);
    ItemsFacts(s);
    forall i | 0 <= i < |sorted| ensures keys[i] in s.value && sorted[i].1 == At(s, keys[i]) {
      assert sorted[i] in sorted;
    }
    forall i, j | 0 <= i < j < |keys| ensures keys[i] != keys[j] && At(s, keys[i]) >= At(s, keys[j]) {
      assert sorted[i] != sorted[j] && Higher(sorted[i], sorted[j]);
    }
    forall key | key in s.value ensures key in keys {
      assert (key, s.value[key]) in sorted;
      var i :| 0 <= i < |sorted| && sorted[i] == (key, s.value[key]);
      assert keys[i] == key;
    }
  }

  // ---------------------------------------------------------------------------
  // The order of equal scores
  // ---------------------------------------------------------------------------

  /** `a` first occurs before `b` does. */
  ghost predicate Sooner<K(!new)>(keys: seq<K>, a: K, b: K)
  {
    exists p :: 0 <= p < |keys| && keys[p] == a && b !in keys[..p + 1]
  }

  /** The keys of a dict after assignments to `keys`, in turn. */
  function Entered<K(==)>(order: seq<K>, keys: seq<K>): seq<K>
  {
    if keys == [] then order else Enter(Entered(order, keys[..|keys| - 1]), keys[|keys| - 1])
  }

  function Enter<K(==)>(order: seq<K>, key: K): seq<K>
  {
    if key in order then order else order + [key]
  }

  lemma SetOrder<K>(s: Scores<K>, key: K, v: real)
    requires Consistent(s)
    ensures Set(s, key, v).order == Enter(s.order, key)
  {
    assert key in s.order <==> key in Elements(s.order);
  }

  lemma EnteredSnoc<K>(order: seq<K>, keys: seq<K>, key: K)
    ensures Entered(order, keys + [key]) == Enter(Entered(order, keys), key)
  {
    assert (keys + [key])[..|keys|] == keys;
  }

  lemma {:induction false} EnteredConcat<K>(order: seq<K>, x: seq<K>, y: seq<K>)
    ensures Entered(order, x + y) == Entered(Entered(order, x), y)
  {
    if y == [] {
      assert x + y == x;
    } else {
      EnteredConcat(order, x, y[..|y| - 1]);
      EnteredSnoc(order, x + y[..|y| - 1], y[|y| - 1]);
      assert x + y == x + y[..|y| - 1] + [y[|y| - 1]];
    }
  }

  /** Starting empty, the keys of the dict are in order of first occurrence. */
  lemma {:induction false} EnteredInOrder<K(!new)>(keys: seq<K>)
    ensures forall key :: key in Entered([], keys) <==> key in keys
    ensures forall i, j :: 0 <= i < j < |Entered([], keys)| ==> Sooner(keys, Entered([], keys)[i], Entered([], keys)[j])
  {
    if keys != [] {
      var init, last := keys[..|keys| - 1], keys[|keys| - 1];
      var before, after := Entered([], init), Entered([], keys);
      EnteredInOrder(init);
      assert keys == init + [last];
      forall i, j | 0 <= i < j < |after| ensures Sooner(keys, after[i], after[j]) {
        if j < |before| {
          SoonerSnoc(init, before[i], before[j], last);
        } else {
          assert after[i] in init;
          var p :| 0 <= p < |init| && init[p] == after[i];
          assert keys[p] == after[i] && keys[..p + 1] == init[..p + 1];
        }
      }
    }
  }

  lemma SoonerSnoc<K(!new)>(keys: seq<K>, a: K, b: K, last: K)
    requires Sooner(keys, a, b)
    ensures Sooner(keys + [last], a, b)
  {
    var p :| 0 <= p < |keys| && keys[p] == a && b !in keys[..p + 1];
    assert (keys + [last])[p] == a && (keys + [last])[..p + 1] == keys[..p + 1];
  }

  lemma SoonerAsymmetric<K(!new)>(keys: seq<K>, a: K, b: K)
    requires Sooner(keys, a, b)
    ensures !Sooner(keys, b, a)
  {
    var p :| 0 <= p < |keys| && keys[p] == a && b !in keys[..p + 1];
  }

  ghost predicate Precedes<T(!new)>(s: seq<T>, a: T, b: T)
  {
    exists i, j :: 0 <= i < j < |s| && s[i] == a && s[j] == b
  }

  lemma {:induction false} TiesKeep<T(!new)>(s: seq<T>, x: T, leq: (T, T) -> bool, i: nat, j: nat)
    requires i < j < |s| && leq(x, s[i]) && leq(s[i], x) && leq(x, s[j]) && leq(s[j], x)
    ensures Precedes(Ties(s, x, leq), s[i], s[j])
  {
    var rest := Ties(s[1..], x, leq);
    if i > 0 {
      TiesKeep(s[1..], x, leq, i - 1, j - 1);
      var p, q :| 0 <= p < q < |rest| && rest[p] == s[i] && rest[q] == s[j];
      var d := |Ties(s, x, leq)| - |rest|;
      assert Ties(s, x, leq)[p + d] == s[i] && Ties(s, x, leq)[q + d] == s[j];
    } else {
      TiesHas(s[1..], x, leq, j - 1);
      var q :| 0 <= q < |rest| && rest[q] == s[j];
      assert Ties(s, x, leq)[0] == s[0] && Ties(s, x, leq)[q + 1] == s[j];
    }
  }

  lemma {:induction false} TiesHas<T>(s: seq<T>, x: T, leq: (T, T) -> bool, i: nat)
    requires i < |s| && leq(x, s[i]) && leq(s[i], x)
    ensures s[i] in Ties(s, x, leq)
  {
    if i > 0 {
      TiesHas(s[1..], x, leq, i - 1);
    }
  }

  lemma {:induction false} TiesOf<T(!new)>(s: seq<T>, x: T, leq: (T, T) -> bool, a: T, b: T)
    requires Precedes(Ties(s, x, leq), a, b)
    ensures Precedes(s, a, b)
  {
    var ties, rest := Ties(s, x, leq), Ties(s[1..], x, leq);
    var d := |ties| - |rest|;
    var p, q :| 0 <= p < q < |ties| && ties[p] == a && ties[q] == b;
    if p >= d {
      assert rest[p - d] == a && rest[q - d] == b;
      TiesOf(s[1..], x, leq, a, b);
      var i, j :| 0 <= i < j < |s[1..]| && s[1..][i] == a && s[1..][j] == b;
      assert s[i + 1] == a && s[j + 1] == b;
    } else {
      assert rest[q - 1] == b;
      TiesFrom(s[1..], x, leq, b);
      var j :| 0 <= j < |s[1..]| && s[1..][j] == b;
      assert s[0] == a && s[j + 1] == b;
    }
  }

  lemma {:induction false} TiesFrom<T>(s: seq<T>, x: T, leq: (T, T) -> bool, y: T)
    requires y in Ties(s, x, leq)
    ensures y in s
  {
    if s != [] && y in Ties(s[1..], x, leq) {
      TiesFrom(s[1..], x, leq, y);
    }
  }

  lemma RankedScore<K(!new)>(s: Scores<K>, i: nat)
    requires Consistent(s) && i < |Ranked(s)|
    ensures StableSort(ItemsOf(s), Higher)[i] == (Ranked(s)[i], At(s, Ranked(s)[i]))
  {
    var items, sorted := ItemsOf(s), StableSort(ItemsOf(s), Higher);
    StableSortCorrect(items, Higher);
    PermutationFacts(items, sorted);
    ItemsFacts(s);
    assert sorted[i] in sorted;
  }

  /** Keys with equal scores are ranked in their order of insertion. */
  lemma RankedStable<K(!new)>(s: Scores<K>, i: nat, j: nat)
    requires Consistent(s) && i < j < |Ranked(s)| && At(s, Ranked(s)[i]) == At(s, Ranked(s)[j])
    ensures Precedes(s.order, Ranked(s)[i], Ranked(s)[j])
  {
    var items, sorted := ItemsOf(s), StableSort(ItemsOf(s), Higher);
    RankedScore(s, i);
    RankedScore(s, j);
    TiesKeep(sorted, sorted[i], Higher, i, j);
    StableSortStable(items, sorted[i], Higher);
    TiesOf(items, sorted[i], Higher, sorted[i], sorted[j]);
    var p, q :| 0 <= p < q < |items| && items[p] == sorted[i] && items[q] == sorted[j];
    assert s.order[p] == Ranked(s)[i] && s.order[q] == Ranked(s)[j];
  }

  /** Keys with equal scores are ranked in order of first assignment. */
  lemma TiesInOrder<K(!new)>(s: Scores<K>, keys: seq<K>)
    requires Consistent(s) && s.order == Entered([], keys)
    ensures forall i, j :: 0 <= i < j < |Ranked(s)| && At(s, Ranked(s)[i]) == At(s, Ranked(s)[j])
              ==> Sooner(keys, Ranked(s)[i], Ranked(s)[j])
  {
    EnteredInOrder(keys);
    forall i, j | 0 <= i < j < |Ranked(s)| && At(s, Ranked(s)[i]) == At(s, Ranked(s)[j])
      ensures Sooner(keys, Ranked(s)[i], Ranked(s)[j])
    {
      RankedStable(s, i, j);
      var p, q :| 0 <= p < q < |s.order| && s.order[p] == Ranked(s)[i] && s.order[q] == Ranked(s)[j];
    }
  }

  /** `keys` are in descending score, those of equal score in order of first occurrence in `seen`. */
  ghost predicate Sequenced<K(!new)>(keys: seq<K>, score: K -> real, seen: seq<K>)
  {
    forall i, j :: 0 <= i < j < |keys| ==>
      score(keys[i]) > score(keys[j]) || (score(keys[i]) == score(keys[j]) && Sooner(seen, keys[i], keys[j]))
  }

  lemma SequencedAt<K(!new)>(keys: seq<K>, score: K -> real, seen: seq<K>, i: nat, j: nat)
    requires Sequenced(keys, score, seen) && i < j < |keys|
    ensures score(keys[i]) > score(keys[j]) || (score(keys[i]) == score(keys[j]) && Sooner(seen, keys[i], keys[j]))
  {
  }

  /** Read in order of insertion, a dict is ranked by score and then by first assignment. */
  lemma RankedBy<K(!new)>(s: Scores<K>, score: K -> real, seen: seq<K>)
    requires Consistent(s) && s.order == Entered([], seen) && forall key :: At(s, key) == score(key)
    ensures Sequenced(Ranked(s), score, seen)
  {
    RankedCorrect(s);
    TiesInOrder(s, seen);
  }

  /** Scores and first occurrences leave one order only. */
  lemma {:induction false} SequenceUnique<K(!new)>(x: seq<K>, y: seq<K>, score: K -> real, seen: seq<K>, n: nat)
    requires Distinct(x) && Distinct(y) && Elements(x) == Elements(y) && n <= |x|
    requires Sequenced(x, score, seen) && Sequenced(y, score, seen)
    ensures n <= |y| && x[..n] == y[..n]
  {
    ElementsSize(x);
    ElementsSize(y);
    if n > 0 {
      SequenceUnique(x, y, score, seen, n - 1);
      var a, b := x[n - 1], y[n - 1];
      if a != b {
        assert a in Elements(y) && b in Elements(x);
        var p :| 0 <= p < |y| && y[p] == a;
        var q :| 0 <= q < |x| && x[q] == b;
        assert p >= n && q >= n;
        if score(a) == score(b) {
          SoonerAsymmetric(seen, a, b);
        }
      }
      assert x[..n] == x[..n - 1] + [a] && y[..n] == y[..n - 1] + [b];
    }
  }
}
