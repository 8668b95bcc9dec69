/** Vocabulary shared by the models: options, Python list slices, duplicate-free
    sequences and Python's stable sort. */
module Prelude {

  datatype Option<+T> = None | Some(value: T)

  ghost predicate Distinct<T>(s: seq<T>)
  {
    forall i, j :: 0 <= i < j < |s| ==> s[i] != s[j]
  }

  ghost predicate Increasing(s: seq<nat>)
  {
    forall i, j :: 0 <= i < j < |s| ==> s[i] < s[j]
  }

  function Elements<T>(s: seq<T>): set<T>
  {
    set x | x in s
  }

  /** A sequence has at most as many different elements as positions, and exactly as many when none repeats. */
  lemma {:induction false} ElementsSize<T>(s: seq<T>)
    ensures |Elements(s)| <= |s|
    ensures Distinct(s) ==> |Elements(s)| == |s|
  {
    if s != [] {
      var init, last := s[..|s| - 1], s[|s| - 1];
      ElementsSize(init);
      assert s == init + [last];
      assert Elements(s) == Elements(init) + {last};
    }
  }

  /** `list(s)`: the elements of a set or the keys of a dict, in some order. */
  method Enumerate<T(==)>(s: set<T>) returns (r: seq<T>)
    ensures Distinct(r) && Elements(r) == s
  {
    r := [];
    var rest := s;
    while rest != {}
      invariant rest <= s && Distinct(r) && Elements(r) == s - rest
      decreases rest
    {
      var x :| x in rest;
      assert Elements(r + [x]) == Elements(r) + {x};
      r, rest := r + [x], rest - {x};
    }
  }

  /** Cardinality is monotone in the subset order. */
  lemma {:induction false} SubsetSize<T>(a: set<T>, b: set<T>)
    requires a <= b
    ensures |a| <= |b|
  {
    assert b == a + (b - a);
    assert |a + (b - a)| == |a| + |b - a|;
  }

  /** The Python slice `s[:limit]`, negative limits included. */
  function Take<T>(s: seq<T>, limit: int): (r: seq<T>)
    ensures r <= s
    ensures 0 <= limit <= |s| ==> |r| == limit
  {
    if limit >= |s| then s
    else if limit >= 0 then s[..limit]
    else if |s| + limit > 0 then s[..|s| + limit]
    else []
  }

  // ---------------------------------------------------------------------------
  // Stable sorting
  // ---------------------------------------------------------------------------

  /** `leq` is a total preorder: what a sort key induces. */
  ghost predicate TotalPreorder<T(!new)>(leq: (T, T) -> bool)
  {
    && (forall x, y :: leq(x, y) || leq(y, x))
    && (forall x, y, z :: leq(x, y) && leq(y, z) ==> leq(x, z))
  }

  ghost predicate SortedBy<T>(s: seq<T>, leq: (T, T) -> bool)
  {
    forall i, j :: 0 <= i < j < |s| ==> leq(s[i], s[j])
  }

  function InsertBy<T>(x: T, s: seq<T>, leq: (T, T) -> bool): seq<T>
  {
    if s == [] || leq(x, s[0]) then [x] + s
    else [s[0]] + InsertBy(x, s[1..], leq)
  }

  /** Python's `sorted`: equal elements keep their relative order. */
  function StableSort<T>(s: seq<T>, leq: (T, T) -> bool): seq<T>
  {
    if s == [] then [] else InsertBy(s[0], StableSort(s[1..], leq), leq)
  }

  lemma {:induction false} InsertByCorrect<T(!new)>(x: T, s: seq<T>, leq: (T, T) -> bool)
    requires TotalPreorder(leq) && SortedBy(s, leq)
    ensures SortedBy(InsertBy(x, s, leq), leq)
    ensures multiset(InsertBy(x, s, leq)) == multiset{x} + multiset(s)
  {
    if s == [] {
    } else if leq(x, s[0]) {
      forall j | 0 <= j < |s| ensures leq(x, s[j]) {
        assert j > 0 ==> leq(s[0], s[j]);
      }
    } else {
      var rest := InsertBy(x, s[1..], leq);
      InsertByCorrect(x, s[1..], leq);
      assert s == [s[0]] + s[1..];
      forall y | y in rest ensures leq(s[0], y) {
        assert y in multiset(rest);
        if y != x {
          assert y in multiset(s[1..]);
          assert y in s[1..];
        }
      }
    }
  }

  /** The sort returns an ordered permutation of its input. */
  lemma {:induction false} StableSortCorrect<T(!new)>(s: seq<T>, leq: (T, T) -> bool)
    requires TotalPreorder(leq)
    ensures SortedBy(StableSort(s, leq), leq)
    ensures multiset(StableSort(s, leq)) == multiset(s)
    ensures |StableSort(s, leq)| == |s|
  {
    if s != [] {
      StableSortCorrect(s[1..], leq);
      InsertByCorrect(s[0], StableSort(s[1..], leq), leq);
      assert s == [s[0]] + s[1..];
    }
    assert |multiset(StableSort(s, leq))| == |multiset(s)|;
  }

  /** The elements that tie with `x`, in order. */
  function Ties<T>(s: seq<T>, x: T, leq: (T, T) -> bool): seq<T>
  {
    if s == [] then []
    else (if leq(x, s[0]) && leq(s[0], x) then [s[0]] else []) + Ties(s[1..], x, leq)
  }

  lemma {:induction false} InsertByTies<T(!new)>(y: T, s: seq<T>, x: T, leq: (T, T) -> bool)
    requires TotalPreorder(leq)
    ensures Ties(InsertBy(y, s, leq), x, leq) == Ties([y] + s, x, leq)
  {
    assert ([y] + s)[1..] == s;
    if s != [] && !leq(y, s[0]) {
      var rest := InsertBy(y, s[1..], leq);
      InsertByTies(y, s[1..], x, leq);
      assert ([s[0]] + rest)[1..] == rest;
      assert ([y] + s[1..])[1..] == s[1..];
    }
  }

  /** Stability: elements that compare equal come out in their input order. */
  lemma {:induction false} StableSortStable<T(!new)>(s: seq<T>, x: T, leq: (T, T) -> bool)
    requires TotalPreorder(leq)
    ensures Ties(StableSort(s, leq), x, leq) == Ties(s, x, leq)
  {
    if s != [] {
      var rest := StableSort(s[1..], leq);
      StableSortStable(s[1..], x, leq);
      InsertByTies(s[0], rest, x, leq);
      assert ([s[0]] + rest)[1..] == rest;
    }
  }

  /** A permutation of a duplicate-free sequence is duplicate-free and has the same elements. */
  lemma PermutationFacts<T>(s: seq<T>, t: seq<T>)
    requires multiset(s) == multiset(t)
    ensures |s| == |t|
    ensures forall x :: x in s <==> x in t
    ensures Distinct(s) ==> Distinct(t)
  {
    assert |multiset(s)| == |multiset(t)|;
    assert forall x :: x in s <==> x in multiset(s);
    assert forall x :: x in t <==> x in multiset(t);
    if Distinct(s) {
      assert Elements(s) == Elements(t);
      ElementsSize(s);
      DistinctByCount(t);
    }
  }

  /** A sequence with as many different elements as positions has no duplicates. */
  lemma {:induction false} DistinctByCount<T>(t: seq<T>)
    requires |Elements(t)| == |t|
    ensures Distinct(t)
  {
    if t != [] {
      var init, last := t[..|t| - 1], t[|t| - 1];
      assert t == init + [last];
      assert Elements(t) == Elements(init) + {last};
      ElementsSize(init);
      DistinctByCount(init);
      assert last !in Elements(init);
    }
  }
}
