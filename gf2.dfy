/**
 * Linear equations over GF(2) with booleans for bits: addition is `!=` (XOR) and
 * multiplication is `&&`. A row of an augmented matrix over `n` unknowns holds `n`
 * coefficients followed by the right-hand side.
 */
module Gf2 {

  type Row = seq<bool>

  /** The GF(2) dot product of the first `k` coefficients of `row` with `x`. */
  function Dot(row: Row, x: seq<bool>, k: nat): bool
    requires k <= |row| && k <= |x|
  {
    if k == 0 then false else Dot(row, x, k - 1) != (row[k - 1] && x[k - 1])
  }

  /** The same sum, over the columns in `p` only. */
  function DotOn(row: Row, x: seq<bool>, k: nat, p: set<nat>): bool
    requires k <= |row| && k <= |x|
  {
    if k == 0 then false else DotOn(row, x, k - 1, p) != ((k - 1) in p && row[k - 1] && x[k - 1])
  }

  /** Every row has `n` coefficients and a right-hand side. */
  predicate Shaped(m: seq<Row>, n: nat)
  {
    forall r :: 0 <= r < |m| ==> |m[r]| == n + 1
  }

  /** `x` satisfies the equation of `row`. */
  predicate Satisfies(row: Row, x: seq<bool>, n: nat)
    requires |row| == n + 1 && |x| == n
  {
    Dot(row, x, n) == row[n]
  }

  /** `x` satisfies every equation of `m`. */
  predicate Solves(m: seq<Row>, x: seq<bool>, n: nat)
    requires Shaped(m, n) && |x| == n
  {
    forall r :: 0 <= r < |m| ==> Satisfies(m[r], x, n)
  }

  /** The sum of two rows, entry by entry. */
  function Xor(a: Row, b: Row): (c: Row)
    requires |a| == |b|
    ensures |c| == |a| && forall k :: 0 <= k < |a| ==> c[k] == (a[k] != b[k])
  {
    seq(|a|, k requires 0 <= k < |a| => a[k] != b[k])
  }

  /** The dot product is linear in the row. */
  lemma {:induction false} DotXor(a: Row, b: Row, x: seq<bool>, k: nat)
    requires |a| == |b| && k <= |a| && k <= |x|
    ensures Dot(Xor(a, b), x, k) == (Dot(a, x, k) != Dot(b, x, k))
  {
    if k > 0 {
      DotXor(a, b, x, k - 1);
    }
  }

  /** A row with no coefficient set sums to 0 whatever `x` is. */
  lemma {:induction false} DotZero(row: Row, x: seq<bool>, k: nat)
    requires k <= |row| && k <= |x|
    requires forall col :: 0 <= col < k ==> !row[col]
    ensures !Dot(row, x, k)
  {
    if k > 0 {
      DotZero(row, x, k - 1);
    }
  }

  /** The sum over no column is 0. */
  lemma {:induction false} DotOnEmpty(row: Row, x: seq<bool>, k: nat)
    requires k <= |row| && k <= |x|
    ensures !DotOn(row, x, k, {})
  {
    if k > 0 {
      DotOnEmpty(row, x, k - 1);
    }
  }

  /** Columns at or past `k` do not take part in the first `k`. */
  lemma {:induction false} DotOnAbove(row: Row, x: seq<bool>, k: nat, p: set<nat>, c: nat)
    requires k <= |row| && k <= |x| && c >= k
    ensures DotOn(row, x, k, p + {c}) == DotOn(row, x, k, p)
  {
    if k > 0 {
      DotOnAbove(row, x, k - 1, p, c);
    }
  }

  /** Adding a column to the set adds its term. */
  lemma {:induction false} DotOnAdd(row: Row, x: seq<bool>, k: nat, p: set<nat>, c: nat)
    requires k <= |row| && k <= |x| && c !in p && c < k
    ensures DotOn(row, x, k, p + {c}) == (DotOn(row, x, k, p) != (row[c] && x[c]))
  {
    if c == k - 1 {
      DotOnAbove(row, x, k - 1, p, c);
    } else {
      DotOnAdd(row, x, k - 1, p, c);
    }
  }

  /** When the row is zero outside `p`, the full sum is the sum over `p`. */
  lemma {:induction false} DotOnZeroOutside(row: Row, x: seq<bool>, k: nat, p: set<nat>)
    requires k <= |row| && k <= |x|
    requires forall col :: 0 <= col < k && col !in p ==> !row[col]
    ensures Dot(row, x, k) == DotOn(row, x, k, p)
  {
    if k > 0 {
      DotOnZeroOutside(row, x, k - 1, p);
    }
  }

  /** The sum over `p` reads `x` only at the columns in `p`. */
  lemma {:induction false} DotOnAgree(row: Row, x: seq<bool>, y: seq<bool>, k: nat, p: set<nat>)
    requires k <= |row| && k <= |x| && k <= |y|
    requires forall col :: col in p && col < k ==> x[col] == y[col]
    ensures DotOn(row, x, k, p) == DotOn(row, y, k, p)
  {
    if k > 0 {
      DotOnAgree(row, x, y, k - 1, p);
    }
  }

  /** Adding row `p` into another row `r` keeps the set of solutions. */
  lemma AddRowKeepsSolutions(m: seq<Row>, n: nat, r: nat, p: nat, x: seq<bool>)
    requires Shaped(m, n) && r < |m| && p < |m| && r != p && |x| == n
    ensures Shaped(m[r := Xor(m[r], m[p])], n)
    ensures Solves(m[r := Xor(m[r], m[p])], x, n) <==> Solves(m, x, n)
  {
    var m' := m[r := Xor(m[r], m[p])];
    DotXor(m[r], m[p], x, n);
    if Solves(m', x, n) {
      assert Satisfies(m'[r], x, n) && Satisfies(m'[p], x, n);
      forall i | 0 <= i < |m| ensures Satisfies(m[i], x, n) {
        if i != r {
          assert m[i] == m'[i];
        }
      }
    }
    if Solves(m, x, n) {
      assert Satisfies(m[r], x, n) && Satisfies(m[p], x, n);
      forall i | 0 <= i < |m'| ensures Satisfies(m'[i], x, n) {
        if i != r {
          assert m[i] == m'[i];
        }
      }
    }
  }

  /** Exchanging two rows keeps the set of solutions. */
  lemma SwapKeepsSolutions(m: seq<Row>, n: nat, i: nat, j: nat, x: seq<bool>)
    requires Shaped(m, n) && i < |m| && j < |m| && |x| == n
    ensures Shaped(m[i := m[j]][j := m[i]], n)
    ensures Solves(m[i := m[j]][j := m[i]], x, n) <==> Solves(m, x, n)
  {
    var m' := m[i := m[j]][j := m[i]];
    if Solves(m, x, n) {
      forall r | 0 <= r < |m'| ensures Satisfies(m'[r], x, n) {
        assert m'[r] == m[if r == j then i else if r == i then j else r];
      }
    }
    if Solves(m', x, n) {
      forall r | 0 <= r < |m| ensures Satisfies(m[r], x, n) {
        assert m[r] == m'[if r == j then i else if r == i then j else r];
      }
    }
  }
}
