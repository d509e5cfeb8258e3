/** Finite sets listed in a strict total order. */
module Ordering {
  ghost predicate StrictTotalOrder<T(!new)>(less: (T, T) -> bool) {
    && (forall x :: !less(x, x))
    && (forall x, y, z :: less(x, y) && less(y, z) ==> less(x, z))
    && (forall x, y :: x != y ==> less(x, y) || less(y, x))
  }

  ghost predicate Increasing<T>(less: (T, T) -> bool, xs: seq<T>) {
    forall i, j :: 0 <= i < j < |xs| ==> less(xs[i], xs[j])
  }

  ghost predicate IsLeast<T>(less: (T, T) -> bool, s: set<T>, m: T) {
    m in s && forall x :: x in s && x != m ==> less(m, x)
  }

  lemma {:induction false} LeastExists<T(!new)>(less: (T, T) -> bool, s: set<T>) returns (m: T)
    requires StrictTotalOrder(less) && s != {}
    ensures IsLeast(less, s, m)
  {
    m :| m in s;
    if s != {m} {
      var n := LeastExists(less, s - {m});
      if less(n, m) { m := n; }
    }
  }

  /** The elements of `s`, least first. */
  ghost function Sorted<T(!new)>(less: (T, T) -> bool, s: set<T>): (xs: seq<T>)
    requires StrictTotalOrder(less)
  {
    if s == {} then []
    else
      assert exists m :: IsLeast(less, s, m) by { var m := LeastExists(less, s); }
      var m :| IsLeast(less, s, m);
      [m] + Sorted(less, s - {m})
  }

  lemma {:induction false} SortedListsTheSet<T(!new)>(less: (T, T) -> bool, s: set<T>)
    requires StrictTotalOrder(less)
    ensures Increasing(less, Sorted(less, s))
    ensures |Sorted(less, s)| == |s|
    ensures forall x :: x in Sorted(less, s) <==> x in s
  {
    if s != {} {
      var xs := Sorted(less, s);
      SortedListsTheSet(less, s - {xs[0]});
      assert xs == [xs[0]] + xs[1..];
    }
  }

  /** There is only one increasing listing of a set. */
  lemma {:induction false} IncreasingIsUnique<T(!new)>(less: (T, T) -> bool, xs: seq<T>, ys: seq<T>)
    requires StrictTotalOrder(less) && Increasing(less, xs) && Increasing(less, ys)
    requires forall x :: x in xs <==> x in ys
    ensures xs == ys
  {
    assert (xs != [] ==> xs[0] in ys) && (ys != [] ==> ys[0] in xs);
    if xs != [] {
      assert xs[0] == ys[0];
      forall x ensures x in xs[1..] <==> x in ys[1..] {
        assert x in xs <==> x == xs[0] || x in xs[1..];
        assert x in ys <==> x == ys[0] || x in ys[1..];
        assert x in xs[1..] ==> less(xs[0], x);
        assert x in ys[1..] ==> less(ys[0], x);
      }
      IncreasingIsUnique(less, xs[1..], ys[1..]);
      assert xs == [xs[0]] + xs[1..] && ys == [ys[0]] + ys[1..];
    }
  }
}
