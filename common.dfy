/** Small value types and arithmetic folds shared by every puzzle model. */
module Common {

  /** A value that may be missing; `None` stands for a Python exception or an absent entry. */
  datatype Option<T> = None | Some(value: T)

  /** Sum of a sequence, folded from the right end so that appending is one unfolding step. */
  function Sum(s: seq<int>): int
  {
    if s == [] then 0 else Sum(s[..|s| - 1]) + s[|s| - 1]
  }

  /** Product of a sequence, the empty product being 1. */
  function Prod(s: seq<int>): int
  {
    if s == [] then 1 else Prod(s[..|s| - 1]) * s[|s| - 1]
  }

  function Max(a: int, b: int): int
  {
    if a >= b then a else b
  }

  function Min(a: int, b: int): int
  {
    if a <= b then a else b
  }

  function Abs(a: int): nat
  {
    if a < 0 then -a else a
  }

  /** `b` raised to the power `e`. */
  function Pow(b: nat, e: nat): nat
  {
    if e == 0 then 1 else b * Pow(b, e - 1)
  }

  lemma {:induction false} PowPositive(b: nat, e: nat)
    requires b > 0
    ensures Pow(b, e) > 0
  {
    if e > 0 {
      PowPositive(b, e - 1);
    }
  }

  lemma {:induction false} PowAdd(b: nat, e1: nat, e2: nat)
    ensures Pow(b, e1 + e2) == Pow(b, e1) * Pow(b, e2)
  {
    if e2 > 0 {
      PowAdd(b, e1, e2 - 1);
      assert Pow(b, e1 + e2) == b * Pow(b, e1 + e2 - 1);
    }
  }

  lemma {:induction false} PowMonotone(b: nat, e1: nat, e2: nat)
    requires b > 1 && e1 < e2
    ensures Pow(b, e1) < Pow(b, e2)
  {
    PowPositive(b, e2 - 1);
    if e1 < e2 - 1 {
      PowMonotone(b, e1, e2 - 1);
    }
  }

  lemma {:induction false} SumAppend(s: seq<int>, t: seq<int>)
    ensures Sum(s + t) == Sum(s) + Sum(t)
  {
    if t != [] {
      assert (s + t)[..|s + t| - 1] == s + t[..|t| - 1];
      SumAppend(s, t[..|t| - 1]);
    } else {
      assert s + t == s;
    }
  }

  lemma {:induction false} SumNonNegative(s: seq<int>)
    requires forall i :: 0 <= i < |s| ==> s[i] >= 0
    ensures Sum(s) >= 0
  {
    if s != [] {
      SumNonNegative(s[..|s| - 1]);
    }
  }

  /** `P` holds of each element of `ys` with the element of `xs` at the same index. */
  ghost predicate Pointwise<A, B>(P: (A, B) -> bool, xs: seq<A>, ys: seq<B>)
    requires |ys| <= |xs|
  {
    forall j :: 0 <= j < |ys| ==> P(xs[j], ys[j])
  }

  lemma PointwiseSnoc<A, B>(P: (A, B) -> bool, xs: seq<A>, ys: seq<B>, y: B)
    requires |ys| < |xs| && Pointwise(P, xs, ys) && P(xs[|ys|], y)
    ensures Pointwise(P, xs, ys + [y])
  {
    var next := ys + [y];
    forall j | 0 <= j < |next| ensures P(xs[j], next[j]) {
      if j < |ys| {
        assert next[j] == ys[j];
      }
    }
  }

  lemma AppendAssoc<T>(a: seq<T>, b: seq<T>, c: seq<T>)
    ensures (a + b) + c == a + (b + c)
  {
  }
}
