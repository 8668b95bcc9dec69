/** Sums of reals over finite sets, where no order of summation is given. */
module Sums {
  ghost function SumSet<T(!new)>(s: set<T>, f: T -> real): real
  {
    if s == {} then 0.0
    else
      var x :| x in s;
      f(x) + SumSet(s - {x}, f)
  }

  /** Any element may be split off. */
  lemma {:induction false} SumPick<T(!new)>(s: set<T>, f: T -> real, y: T)
    requires y in s
    ensures SumSet(s, f) == f(y) + SumSet(s - {y}, f)
    decreases |s|
  {
    var x :| x in s && SumSet(s, f) == f(x) + SumSet(s - {x}, f);
    if x != y {
      SumPick(s - {x}, f, y);
      SumPick(s - {y}, f, x);
      assert s - {x} - {y} == s - {y} - {x};
    }
  }

  lemma SumAdd<T(!new)>(s: set<T>, f: T -> real, y: T)
    requires y !in s
    ensures SumSet(s + {y}, f) == SumSet(s, f) + f(y)
  {
    SumPick(s + {y}, f, y);
    assert s + {y} - {y} == s;
  }

  lemma {:induction false} SumAgrees<T(!new)>(s: set<T>, f: T -> real, g: T -> real)
    requires forall x :: x in s ==> f(x) == g(x)
    ensures SumSet(s, f) == SumSet(s, g)
    decreases |s|
  {
    if s != {} {
      var x :| x in s;
      SumPick(s, f, x);
      SumPick(s, g, x);
      SumAgrees(s - {x}, f, g);
    }
  }

  lemma {:induction false} SumNonNegative<T(!new)>(s: set<T>, f: T -> real)
    requires forall x :: x in s ==> f(x) >= 0.0
    ensures SumSet(s, f) >= 0.0
    ensures forall x :: x in s && f(x) > 0.0 ==> SumSet(s, f) > 0.0
    decreases |s|
  {
    if s != {} {
      var x :| x in s;
      SumPick(s, f, x);
      SumNonNegative(s - {x}, f);
    }
  }

  /** Non-negative terms: a larger set has a larger sum. */
  lemma {:induction false} SumSubset<T(!new)>(s: set<T>, t: set<T>, f: T -> real)
    requires s <= t && forall x :: x in t ==> f(x) >= 0.0
    ensures SumSet(s, f) <= SumSet(t, f)
    decreases |s|
  {
    if s == {} {
      SumNonNegative(t, f);
    } else {
      var x :| x in s;
      SumPick(s, f, x);
      SumPick(t, f, x);
      SumSubset(s - {x}, t - {x}, f);
    }
  }

  /** What holds of three empty sums and survives each further term holds of the sums. */
  lemma {:induction false} SumsKeep<T(!new)>(s: set<T>, f: T -> real, g: T -> real, h: T -> real, keep: (real, real, real) -> bool)
    requires keep(0.0, 0.0, 0.0)
    requires forall x, p, q, r :: x in s && keep(p, q, r) ==> keep(f(x) + p, g(x) + q, h(x) + r)
    ensures keep(SumSet(s, f), SumSet(s, g), SumSet(s, h))
    decreases |s|
  {
    if s != {} {
      var x :| x in s;
      SumPick(s, f, x);
      SumPick(s, g, x);
      SumPick(s, h, x);
      SumsKeep(s - {x}, f, g, h, keep);
    }
  }
}
