/**
 * Python's `list.sort` as a stable insertion sort over a strict comparator `less`.
 * `sort(key=k)` is `less(a, b) == k(a) < k(b)`; `sort(key=k, reverse=True)` is
 * `less(a, b) == k(a) > k(b)`, which keeps equal keys in input order as Python does.
 */
module Sorting {

  /** `less` is a strict weak order: irreflexive, transitive, with transitive incomparability. */
  ghost predicate StrictWeakOrder<T(!new)>(less: (T, T) -> bool)
  {
    (forall a :: !less(a, a))
    && (forall a, b, c :: less(a, b) && less(b, c) ==> less(a, c))
    && (forall a, b, c :: less(a, c) ==> less(a, b) || less(b, c))
  }

  /** No element is strictly before an element that precedes it. */
  ghost predicate SortedBy<T>(s: seq<T>, less: (T, T) -> bool)
  {
    forall i, j :: 0 <= i < j < |s| ==> !less(s[j], s[i])
  }

  /** Insert `x` into `t` after every element that `x` is not strictly before. */
  function Insert<T>(t: seq<T>, x: T, less: (T, T) -> bool): (r: seq<T>)
    ensures multiset(r) == multiset(t) + multiset{x}
  {
    if t == [] || !less(x, t[|t| - 1]) then t + [x]
    else
      assert t == t[..|t| - 1] + [t[|t| - 1]];
      Insert(t[..|t| - 1], x, less) + [t[|t| - 1]]
  }

  /** The stable sort of `s`: each element in turn inserted into the sorted prefix before it. */
  function SortBy<T>(s: seq<T>, less: (T, T) -> bool): (r: seq<T>)
    ensures multiset(r) == multiset(s) && |r| == |s|
  {
    if s == [] then []
    else
      assert s == s[..|s| - 1] + [s[|s| - 1]];
      Insert(SortBy(s[..|s| - 1], less), s[|s| - 1], less)
  }

  lemma {:induction false} InsertSorted<T(!new)>(t: seq<T>, x: T, less: (T, T) -> bool)
    requires StrictWeakOrder(less) && SortedBy(t, less)
    ensures SortedBy(Insert(t, x, less), less)
  {
    if t == [] || !less(x, t[|t| - 1]) {
      assert t == [] || forall i :: 0 <= i < |t| ==> !less(x, t[i]);
    } else {
      var last := t[|t| - 1];
      var u := Insert(t[..|t| - 1], x, less);
      InsertSorted(t[..|t| - 1], x, less);
      assert multiset(u) == multiset(t[..|t| - 1]) + multiset{x};
      forall i | 0 <= i < |u| ensures !less(last, u[i]) {
        assert u[i] in multiset(u);
        if u[i] == x {
        } else {
          assert u[i] in multiset(t[..|t| - 1]);
          var k :| 0 <= k < |t| - 1 && t[k] == u[i];
        }
      }
    }
  }

  /** The result is ordered by `less`; with `multiset(SortBy(s)) == multiset(s)` it is a sort. */
  lemma {:induction false} SortBySorted<T(!new)>(s: seq<T>, less: (T, T) -> bool)
    requires StrictWeakOrder(less)
    ensures SortedBy(SortBy(s, less), less)
  {
    if s != [] {
      SortBySorted(s[..|s| - 1], less);
      InsertSorted(SortBy(s[..|s| - 1], less), s[|s| - 1], less);
    }
  }

  /** The elements of `s` that are neither before nor after `x`, in order. */
  function Ties<T>(s: seq<T>, x: T, less: (T, T) -> bool): (r: seq<T>)
    ensures |r| <= |s|
  {
    if s == [] then []
    else
      var last := s[|s| - 1];
      Ties(s[..|s| - 1], x, less) + (if !less(last, x) && !less(x, last) then [last] else [])
  }

  lemma {:induction false} InsertTies<T(!new)>(t: seq<T>, y: T, x: T, less: (T, T) -> bool)
    requires StrictWeakOrder(less)
    ensures Ties(Insert(t, y, less), x, less) == Ties(t + [y], x, less)
  {
    var r := Insert(t, y, less);
    if t == [] || !less(y, t[|t| - 1]) {
    } else {
      var last := t[|t| - 1];
      var init := t[..|t| - 1];
      InsertTies(init, y, x, less);
      assert r[..|r| - 1] == Insert(init, y, less);
      assert (t + [y])[..|t|] == t && t[..|t| - 1] == init;
      assert (init + [y])[..|init|] == init;
      // `last` and `y` cannot both tie with `x`, because `y` is strictly before `last`.
      assert !(!less(last, x) && !less(x, last) && !less(y, x) && !less(x, y));
    }
  }

  /** Stability: the elements tied with any `x` keep their input order. */
  lemma {:induction false} SortByStable<T(!new)>(s: seq<T>, x: T, less: (T, T) -> bool)
    requires StrictWeakOrder(less)
    ensures Ties(SortBy(s, less), x, less) == Ties(s, x, less)
  {
    if s != [] {
      var init := s[..|s| - 1];
      SortByStable(init, x, less);
      InsertTies(SortBy(init, less), s[|s| - 1], x, less);
      var t := SortBy(init, less);
      assert (t + [s[|s| - 1]])[..|t|] == t;
    }
  }

  /** `[f(x) for x in s]` */
  function Map<T, U>(f: T -> U, s: seq<T>): (r: seq<U>)
    ensures |r| == |s| && forall i :: 0 <= i < |s| ==> r[i] == f(s[i])
  {
    if s == [] then [] else Map(f, s[..|s| - 1]) + [f(s[|s| - 1])]
  }

  /** `list(zip(a, b))` for sequences of equal length. */
  function Zip<A, B>(a: seq<A>, b: seq<B>): (r: seq<(A, B)>)
    requires |a| == |b|
    ensures |r| == |a| && forall i :: 0 <= i < |a| ==> r[i] == (a[i], b[i])
  {
    if a == [] then [] else Zip(a[..|a| - 1], b[..|b| - 1]) + [(a[|a| - 1], b[|b| - 1])]
  }

  lemma {:induction false} InsertMap<T, U>(t: seq<T>, x: T, f: T -> U, lessT: (T, T) -> bool, less: (U, U) -> bool)
    requires forall a, b :: a in t + [x] && b in t + [x] ==> lessT(a, b) == less(f(a), f(b))
    ensures Map(f, Insert(t, x, lessT)) == Insert(Map(f, t), f(x), less)
  {
    var xs := t + [x];
    if t != [] {
      var last := t[|t| - 1];
      assert xs[|t| - 1] == last && xs[|t|] == x;
      assert lessT(x, last) == less(f(x), f(last));
    }
    if t != [] && lessT(x, t[|t| - 1]) {
      var init, last := t[..|t| - 1], t[|t| - 1];
      AgreesInit(t, x, f, lessT, less);
      InsertMap(init, x, f, lessT, less);
      assert Map(f, t)[..|t| - 1] == Map(f, init);
      MapAppend(f, Insert(init, x, lessT), [last]);
    } else {
      MapAppend(f, t, [x]);
    }
  }

  lemma AgreesInit<T, U>(t: seq<T>, x: T, f: T -> U, lessT: (T, T) -> bool, less: (U, U) -> bool)
    requires t != []
    requires forall a, b :: a in t + [x] && b in t + [x] ==> lessT(a, b) == less(f(a), f(b))
    ensures forall a, b :: a in t[..|t| - 1] + [x] && b in t[..|t| - 1] + [x] ==> lessT(a, b) == less(f(a), f(b))
  {
    var init := t[..|t| - 1];
    forall a | a in init + [x] ensures a in t + [x] {
      if a in init {
        var k :| 0 <= k < |init| && init[k] == a;
        assert t[k] == a;
      }
    }
  }

  /**
   * Sorting by a comparator that, on the elements of `s`, only looks at `f(x)` commutes
   * with mapping `f`.
   */
  lemma {:induction false} SortByMap<T, U>(s: seq<T>, f: T -> U, lessT: (T, T) -> bool, less: (U, U) -> bool)
    requires forall a, b :: a in s && b in s ==> lessT(a, b) == less(f(a), f(b))
    ensures Map(f, SortBy(s, lessT)) == SortBy(Map(f, s), less)
  {
    if s != [] {
      var init := s[..|s| - 1];
      var t := SortBy(init, lessT);
      assert forall a :: a in init ==> a in s;
      AgreesWithin(s, init, f, lessT, less);
      SortByMap(init, f, lessT, less);
      forall a | a in t + [s[|s| - 1]] ensures a in s {
        if a in t {
          assert a in multiset(t);
          assert a in multiset(init);
        }
      }
      AgreesWithin(s, t + [s[|s| - 1]], f, lessT, less);
      InsertMap(t, s[|s| - 1], f, lessT, less);
      assert Map(f, s)[..|s| - 1] == Map(f, init);
    }
  }

  lemma AgreesWithin<T, U>(s: seq<T>, u: seq<T>, f: T -> U, lessT: (T, T) -> bool, less: (U, U) -> bool)
    requires forall a :: a in u ==> a in s
    requires forall a, b :: a in s && b in s ==> lessT(a, b) == less(f(a), f(b))
    ensures forall a, b :: a in u && b in u ==> lessT(a, b) == less(f(a), f(b))
  {
  }

  lemma MapAppend<T, U>(f: T -> U, a: seq<T>, b: seq<T>)
    ensures Map(f, a + b) == Map(f, a) + Map(f, b)
  {
  }

  /** Mapping keeps permutations: equal multisets map to equal multisets. */
  lemma {:induction false} MapPermutation<T, U>(f: T -> U, s: seq<T>, t: seq<T>)
    requires multiset(s) == multiset(t)
    ensures multiset(Map(f, s)) == multiset(Map(f, t))
    decreases |s|
  {
    if s == [] {
      assert |t| == |multiset(t)| == 0;
    } else {
      var n := |s| - 1;
      var x := s[n];
      assert s == s[..n] + [x];
      assert x in multiset(t);
      var k :| 0 <= k < |t| && t[k] == x;
      var t' := t[..k] + t[k + 1..];
      assert t == t[..k] + [x] + t[k + 1..];
      assert multiset(t') == multiset(t) - multiset{x} by {
        assert multiset(t) == multiset(t') + multiset{x};
      }
      assert multiset(s[..n]) == multiset(s) - multiset{x} by {
        assert multiset(s) == multiset(s[..n]) + multiset{x};
      }
      MapPermutation(f, s[..n], t');
      MapAppend(f, s[..n], [x]);
      MapAppend(f, t[..k] + [x], t[k + 1..]);
      MapAppend(f, t[..k], [x]);
      MapAppend(f, t[..k], t[k + 1..]);
    }
  }
}
