/**
 * Day 10: each machine has a light diagram (the target, `#` on) and buttons that toggle sets
 * of lights. Pressing a button twice undoes it, so a solution presses each button at most once
 * and is a solution of A x = target over GF(2), A having one column per button. The solver
 * brings the augmented matrix to reduced row echelon form, rejects inconsistent systems, and
 * tries every assignment of the free variables for the fewest presses.
 */
module Day10 {
  import opened Common
  import opened Bits
  import opened PyText
  import opened Gf2

  // ----- the system -----

  /** The lights toggled by pressing the buttons chosen in `x`: light `r` is the XOR over them. */
  function Light(buttons: seq<seq<bool>>, x: seq<bool>, r: nat, k: nat): bool
    requires k <= |buttons| && k <= |x|
    requires forall c :: 0 <= c < |buttons| ==> r < |buttons[c]|
  {
    if k == 0 then false else Light(buttons, x, r, k - 1) != (x[k - 1] && buttons[k - 1][r])
  }

  /** The light pattern the presses `x` produce from all lights off. */
  function Lights(buttons: seq<seq<bool>>, x: seq<bool>, len: nat): (t: seq<bool>)
    requires |x| == |buttons| && forall c :: 0 <= c < |buttons| ==> |buttons[c]| == len
    ensures |t| == len
  {
    seq(len, r requires 0 <= r < len => Light(buttons, x, r, |buttons|))
  }

  /** Buttons of one machine: each a vector over the `len` lights. */
  predicate ButtonsOf(buttons: seq<seq<bool>>, len: nat)
  {
    forall c :: 0 <= c < |buttons| ==> |buttons[c]| == len
  }

  /** The augmented matrix: row `r` is `[button_0[r], ..., button_{n-1}[r], target[r]]`. */
  predicate AugmentedOf(m: seq<Row>, buttons: seq<seq<bool>>, target: seq<bool>)
    requires ButtonsOf(buttons, |target|)
  {
    |m| == |target| && Shaped(m, |buttons|)
    && forall r :: 0 <= r < |m| ==>
      (forall c :: 0 <= c < |buttons| ==> m[r][c] == buttons[c][r]) && m[r][|buttons|] == target[r]
  }

  /** The nested loop that builds `matrix`. */
  method BuildMatrix(buttons: seq<seq<bool>>, target: seq<bool>) returns (m: seq<Row>)
    requires ButtonsOf(buttons, |target|)
    ensures AugmentedOf(m, buttons, target)
  {
    var n := |buttons|;
    m := [];
    var r := 0;
    while r < |target|
      invariant 0 <= r <= |target| && |m| == r && Shaped(m, n)
      invariant forall i :: 0 <= i < r ==>
        (forall c :: 0 <= c < n ==> m[i][c] == buttons[c][i]) && m[i][n] == target[i]
    {
      var row: Row := [];
      var c := 0;
      while c < n
        invariant 0 <= c <= n && |row| == c
        invariant forall k :: 0 <= k < c ==> row[k] == buttons[k][r]
      {
        row := row + [buttons[c][r]];
        c := c + 1;
      }
      row := row + [target[r]];
      m := m + [row];
      r := r + 1;
    }
  }

  lemma {:induction false} RowDotIsLight(m: seq<Row>, buttons: seq<seq<bool>>, target: seq<bool>, x: seq<bool>, r: nat, k: nat)
    requires ButtonsOf(buttons, |target|) && AugmentedOf(m, buttons, target)
    requires |x| == |buttons| && r < |m| && k <= |buttons|
    ensures Dot(m[r], x, k) == Light(buttons, x, r, k)
  {
    if k > 0 {
      RowDotIsLight(m, buttons, target, x, r, k - 1);
    }
  }

  /** The matrix's solutions are exactly the presses that light the target pattern. */
  lemma SolvesIffLights(m: seq<Row>, buttons: seq<seq<bool>>, target: seq<bool>, x: seq<bool>)
    requires ButtonsOf(buttons, |target|) && AugmentedOf(m, buttons, target) && |x| == |buttons|
    ensures Solves(m, x, |buttons|) <==> Lights(buttons, x, |target|) == target
  {
    forall r | 0 <= r < |m| ensures Dot(m[r], x, |buttons|) == Light(buttons, x, r, |buttons|) {
      RowDotIsLight(m, buttons, target, x, r, |buttons|);
    }
    if Lights(buttons, x, |target|) == target {
      forall r | 0 <= r < |m| ensures Satisfies(m[r], x, |buttons|) {
        assert Lights(buttons, x, |target|)[r] == target[r];
      }
    }
  }

  // ----- elimination -----

  predicate Increasing(s: seq<nat>)
  {
    forall i, j :: 0 <= i < j < |s| ==> s[i] < s[j]
  }

  /**
   * The matrix after columns `0..c` have been processed: `pivots[i]` is the pivot column of
   * row `i`, which holds the only 1 of that column and is 0 left of it; rows past the pivot
   * rows are 0 in every processed column; each processed column is a pivot or free.
   */
  ghost predicate Reduced(m: seq<Row>, n: nat, pivots: seq<nat>, free: seq<nat>, c: nat)
  {
    Shaped(m, n) && c <= n && |pivots| <= |m|
    && Increasing(pivots) && Increasing(free) && |pivots| + |free| == c
    && (forall i :: 0 <= i < |pivots| ==> pivots[i] < c)
    && (forall i :: 0 <= i < |free| ==> free[i] < c)
    && (forall col :: 0 <= col < c ==> (col in pivots <==> col !in free))
    && (forall i, r :: 0 <= i < |pivots| && 0 <= r < |m| ==> (m[r][pivots[i]] <==> r == i))
    && (forall i, k :: 0 <= i < |pivots| && 0 <= k < pivots[i] ==> !m[i][k])
    && (forall r, k :: |pivots| <= r < |m| && 0 <= k < c ==> !m[r][k])
  }

  /** The pivot search: the first row at or below `from` with a 1 in column `c`, or -1. */
  method FindPivot(m: seq<Row>, n: nat, from: nat, c: nat) returns (sel: int)
    requires Shaped(m, n) && c < n
    ensures sel == -1 ==> forall r :: from <= r < |m| ==> !m[r][c]
    ensures sel != -1 ==> from <= sel < |m| && m[sel][c] && forall r :: from <= r < sel ==> !m[r][c]
  {
    var r := from;
    while r < |m|
      invariant r == from || from < r <= |m|
      invariant forall i :: from <= i < r && i < |m| ==> !m[i][c]
    {
      if m[r][c] {
        return r;
      }
      r := r + 1;
    }
    return -1;
  }

  /** `for k in range(c, num_vars + 1): row[k] ^= pivot[k]` */
  method AddRowFrom(a: Row, b: Row, c: nat) returns (s: Row)
    requires |a| == |b| && c <= |a|
    ensures |s| == |a|
    ensures forall k :: 0 <= k < |a| ==> s[k] == if k < c then a[k] else a[k] != b[k]
  {
    s := a;
    var k := c;
    while k < |a|
      invariant c <= k <= |a| && |s| == |a|
      invariant forall i :: 0 <= i < |a| ==> s[i] == if c <= i < k then a[i] != b[i] else a[i]
    {
      s := s[k := s[k] != b[k]];
      k := k + 1;
    }
  }

  /**
   * The elimination loop for pivot row `p` and column `c`: every other row with a 1 in
   * column `c` gets the pivot row added. The pivot row is 0 left of `c`, so adding from
   * column `c` on adds the whole row.
   */
  method ClearColumn(m: seq<Row>, n: nat, p: nat, c: nat) returns (m': seq<Row>)
    requires Shaped(m, n) && p < |m| && c < n
    requires forall k :: 0 <= k < c ==> !m[p][k]
    ensures Shaped(m', n) && |m'| == |m| && m'[p] == m[p]
    ensures forall r :: 0 <= r < |m| && r != p ==> m'[r] == if m[r][c] then Xor(m[r], m[p]) else m[r]
    ensures forall x :: |x| == n ==> (Solves(m', x, n) <==> Solves(m, x, n))
  {
    m' := m;
    var r := 0;
    while r < |m|
      invariant 0 <= r <= |m| && Shaped(m', n) && |m'| == |m| && m'[p] == m[p]
      invariant forall i :: 0 <= i < |m| && i != p ==>
        m'[i] == if i < r && m[i][c] then Xor(m[i], m[p]) else m[i]
      invariant forall x :: |x| == n ==> (Solves(m', x, n) <==> Solves(m, x, n))
    {
      if r != p && m'[r][c] {
        var row := AddRowFrom(m'[r], m'[p], c);
        assert row == Xor(m'[r], m'[p]);
        forall x | |x| == n ensures Solves(m'[r := row], x, n) <==> Solves(m', x, n) {
          AddRowKeepsSolutions(m', n, r, p, x);
        }
        m' := m'[r := row];
      }
      r := r + 1;
    }
  }

  /**
   * One pass of the column loop: column `c` becomes free when every row is a pivot row or
   * no remaining row has a 1 there; otherwise the first such row is swapped up to be the
   * next pivot row and the column is cleared everywhere else.
   */
  method EliminateColumn(m: seq<Row>, n: nat, pivots: seq<nat>, free: seq<nat>, c: nat)
    returns (m': seq<Row>, pivots': seq<nat>, free': seq<nat>)
    requires Reduced(m, n, pivots, free, c) && c < n
    ensures |m'| == |m| && Reduced(m', n, pivots', free', c + 1)
    ensures forall x :: |x| == n ==> (Solves(m', x, n) <==> Solves(m, x, n))
    ensures (pivots' == pivots + [c] && free' == free) || (pivots' == pivots && free' == free + [c])
  {
    var pr := |pivots|;
    if pr >= |m| {
      m', pivots', free' := m, pivots, free + [c];
      assert Reduced(m', n, pivots', free', c + 1) by {
        FreeStep(m, n, pivots, free, c);
      }
      return;
    }
    var sel := FindPivot(m, n, pr, c);
    if sel == -1 {
      m', pivots', free' := m, pivots, free + [c];
      assert Reduced(m', n, pivots', free', c + 1) by {
        FreeStep(m, n, pivots, free, c);
      }
      return;
    }
    var swapped := m[pr := m[sel]][sel := m[pr]];
    forall x | |x| == n ensures Solves(swapped, x, n) <==> Solves(m, x, n) {
      SwapKeepsSolutions(m, n, pr, sel, x);
    }
    SwapStep(m, n, pivots, free, c, sel);
    m' := ClearColumn(swapped, n, pr, c);
    pivots', free' := pivots + [c], free;
    PivotStep(swapped, m', n, pivots, free, c);
  }

  /** A column with no 1 left below the pivot rows becomes free. */
  lemma FreeStep(m: seq<Row>, n: nat, pivots: seq<nat>, free: seq<nat>, c: nat)
    requires Reduced(m, n, pivots, free, c) && c < n
    requires forall r :: |pivots| <= r < |m| ==> !m[r][c]
    ensures Reduced(m, n, pivots, free + [c], c + 1)
  {
    var free' := free + [c];
    forall col | 0 <= col < c + 1 ensures (col in pivots <==> col !in free') {
      if col == c {
        assert c !in pivots;
      }
    }
  }

  /** Swapping the found row up to the next pivot position keeps every property so far. */
  lemma SwapStep(m: seq<Row>, n: nat, pivots: seq<nat>, free: seq<nat>, c: nat, sel: nat)
    requires Reduced(m, n, pivots, free, c) && c < n
    requires |pivots| <= sel < |m| && m[sel][c]
    ensures var s := m[|pivots| := m[sel]][sel := m[|pivots|]];
      Reduced(s, n, pivots, free, c) && s[|pivots|][c]
  {
    var pr := |pivots|;
    var s := m[pr := m[sel]][sel := m[pr]];
    forall r | 0 <= r < |s| ensures s[r] == m[if r == sel then pr else if r == pr then sel else r] {
    }
  }

  /** Clearing column `c` around the new pivot row makes `c` the next pivot column. */
  lemma PivotStep(s: seq<Row>, m': seq<Row>, n: nat, pivots: seq<nat>, free: seq<nat>, c: nat)
    requires Reduced(s, n, pivots, free, c) && c < n && |pivots| < |s| && s[|pivots|][c]
    requires Shaped(m', n) && |m'| == |s| && m'[|pivots|] == s[|pivots|]
    requires forall r :: 0 <= r < |s| && r != |pivots| ==>
      m'[r] == if s[r][c] then Xor(s[r], s[|pivots|]) else s[r]
    ensures Reduced(m', n, pivots + [c], free, c + 1)
  {
    var pr := |pivots|;
    var pv := pivots + [c];
    forall col | 0 <= col < c + 1 ensures (col in pv <==> col !in free) {
      if col == c {
        assert c !in free;
      } else {
        assert col in pv <==> col in pivots;
      }
    }
    forall i, r | 0 <= i < |pv| && 0 <= r < |m'| ensures (m'[r][pv[i]] <==> r == i) {
      if i < pr {
        assert !s[pr][pv[i]];
      }
    }
    forall i, k | 0 <= i < |pv| && 0 <= k < pv[i] ensures !m'[i][k] {
      if i < pr {
        assert !s[pr][k];
      }
    }
    forall r, k | |pv| <= r < |m'| && 0 <= k < c + 1 ensures !m'[r][k] {
      if k < c {
        assert !s[pr][k];
      }
    }
  }

  /**
   * The elimination: swaps and row additions only, so the solutions are those of the
   * matrix it started from, and the result is in reduced row echelon form.
   */
  method Eliminate(m0: seq<Row>, n: nat) returns (m: seq<Row>, pivots: seq<nat>, free: seq<nat>)
    requires Shaped(m0, n)
    ensures |m| == |m0| && Reduced(m, n, pivots, free, n)
    ensures forall x :: |x| == n ==> (Solves(m, x, n) <==> Solves(m0, x, n))
  {
    m, pivots, free := m0, [], [];
    var c := 0;
    while c < n
      invariant 0 <= c <= n && |m| == |m0| && Reduced(m, n, pivots, free, c)
      invariant forall x :: |x| == n ==> (Solves(m, x, n) <==> Solves(m0, x, n))
    {
      m, pivots, free := EliminateColumn(m, n, pivots, free, c);
      c := c + 1;
    }
  }

  // ----- consistency and back-substitution -----

  /** A row past the pivot rows with right-hand side 1 reads `0 = 1`: nothing solves it. */
  lemma InconsistentRow(m: seq<Row>, n: nat, pivots: seq<nat>, free: seq<nat>, r: nat, x: seq<bool>)
    requires Reduced(m, n, pivots, free, n) && |pivots| <= r < |m| && m[r][n] && |x| == n
    ensures !Solves(m, x, n)
  {
    DotZero(m[r], x, n);
    assert !Satisfies(m[r], x, n);
  }

  /** The consistency loop: no row past the pivot rows has right-hand side 1. */
  method CheckRows(m: seq<Row>, n: nat, pivots: seq<nat>, free: seq<nat>) returns (possible: bool)
    requires Reduced(m, n, pivots, free, n)
    ensures possible <==> forall r :: |pivots| <= r < |m| ==> !m[r][n]
  {
    possible := true;
    var r := |pivots|;
    while r < |m|
      invariant |pivots| <= r <= |m|
      invariant forall i :: |pivots| <= i < r ==> !m[i][n]
    {
      if m[r][n] {
        possible := false;
        break;
      }
      r := r + 1;
    }
  }

  /** The free variables right of column `c`: those a pivot row in column `c` may mention. */
  function FreeAbove(free: seq<nat>, c: nat): set<nat>
  {
    set f | f in free && f > c
  }

  /** Pivot row `i` reads: its pivot variable plus its free variables to the right. */
  lemma PivotRowDot(m: seq<Row>, n: nat, pivots: seq<nat>, free: seq<nat>, i: nat, x: seq<bool>)
    requires Reduced(m, n, pivots, free, n) && i < |pivots| && |x| == n
    ensures Dot(m[i], x, n) == (x[pivots[i]] != DotOn(m[i], x, n, FreeAbove(free, pivots[i])))
  {
    var c := pivots[i];
    var F := FreeAbove(free, c);
    forall col | 0 <= col < n && col !in F + {c} ensures !m[i][col] {
      if col in pivots {
        var j :| 0 <= j < |pivots| && pivots[j] == col;
        assert j != i;
      } else {
        assert col in free;
      }
    }
    DotOnZeroOutside(m[i], x, n, F + {c});
    assert c in pivots;
    DotOnAdd(m[i], x, n, F, c);
  }

  /**
   * `assignment` for loop value `i`: bit `j` of `i` on free variable `free[j]`, and each
   * pivot variable chosen so that its row holds.
   */
  ghost predicate Candidate(m: seq<Row>, n: nat, pivots: seq<nat>, free: seq<nat>, i: nat, a: seq<bool>)
    requires Reduced(m, n, pivots, free, n)
  {
    |a| == n
    && (forall j :: 0 <= j < |free| ==> a[free[j]] == (Bit(i, j) == 1))
    && (forall r :: 0 <= r < |pivots| ==>
          a[pivots[r]] == (m[r][n] != DotOn(m[r], a, n, FreeAbove(free, pivots[r]))))
  }

  /** The inner loop: the pivot row's right-hand side plus its free terms right of `c`. */
  method RowValue(m: seq<Row>, n: nat, pivots: seq<nat>, free: seq<nat>, r: nat, c: nat, a: seq<bool>)
    returns (v: bool)
    requires Reduced(m, n, pivots, free, n) && r < |m| && |a| == n
    ensures v == (m[r][n] != DotOn(m[r], a, n, FreeAbove(free, c)))
  {
    v := m[r][n];
    var j := 0;
    DotOnEmpty(m[r], a, n);
    assert FreeAbove(free[..0], c) == {};
    while j < |free|
      invariant 0 <= j <= |free|
      invariant v == (m[r][n] != DotOn(m[r], a, n, FreeAbove(free[..j], c)))
    {
      var fv := free[j];
      ghost var done := FreeAbove(free[..j], c);
      assert free[..j + 1] == free[..j] + [fv];
      if fv > c {
        assert fv !in done;
        assert FreeAbove(free[..j + 1], c) == done + {fv};
        DotOnAdd(m[r], a, n, done, fv);
        if m[r][fv] {
          v := v != a[fv];
        }
      } else {
        assert FreeAbove(free[..j + 1], c) == done;
      }
      j := j + 1;
    }
    assert free[..j] == free;
  }

  /** The free variables' part of `assignment`: bit `j` of `i` on `free[j]`, 0 elsewhere. */
  method FreePart(n: nat, free: seq<nat>, i: nat) returns (a: seq<bool>)
    requires Increasing(free) && forall j :: 0 <= j < |free| ==> free[j] < n
    ensures |a| == n && forall j :: 0 <= j < |free| ==> a[free[j]] == (Bit(i, j) == 1)
  {
    a := seq(n, _ => false);
    var j := 0;
    while j < |free|
      invariant 0 <= j <= |free| && |a| == n
      invariant forall k :: 0 <= k < j ==> a[free[k]] == (Bit(i, k) == 1)
    {
      a := a[free[j] := Bit(i, j) == 1];
      j := j + 1;
    }
  }

  /** One candidate of the search: free bits from `i`, then each pivot variable from its row. */
  method Assign(m: seq<Row>, n: nat, pivots: seq<nat>, free: seq<nat>, i: nat) returns (a: seq<bool>)
    requires Reduced(m, n, pivots, free, n)
    ensures Candidate(m, n, pivots, free, i, a)
  {
    a := FreePart(n, free, i);
    var r := 0;
    while r < |pivots|
      invariant 0 <= r <= |pivots| && |a| == n
      invariant forall j :: 0 <= j < |free| ==> a[free[j]] == (Bit(i, j) == 1)
      invariant forall q :: 0 <= q < r ==>
        a[pivots[q]] == (m[q][n] != DotOn(m[q], a, n, FreeAbove(free, pivots[q])))
    {
      var c := pivots[r];
      var v := RowValue(m, n, pivots, free, r, c, a);
      var a' := a[c := v];
      assert c !in free;
      forall q | 0 <= q < |pivots| ensures DotOn(m[q], a', n, FreeAbove(free, pivots[q])) == DotOn(m[q], a, n, FreeAbove(free, pivots[q])) {
        DotOnAgree(m[q], a', a, n, FreeAbove(free, pivots[q]));
      }
      a := a';
      r := r + 1;
    }
  }

  /** With no `0 = 1` row, every candidate solves the reduced system. */
  lemma CandidateSolves(m: seq<Row>, n: nat, pivots: seq<nat>, free: seq<nat>, i: nat, a: seq<bool>)
    requires Reduced(m, n, pivots, free, n) && forall r :: |pivots| <= r < |m| ==> !m[r][n]
    requires Candidate(m, n, pivots, free, i, a)
    ensures Solves(m, a, n)
  {
    forall r | 0 <= r < |m| ensures Satisfies(m[r], a, n) {
      if r < |pivots| {
        PivotRowDot(m, n, pivots, free, r, a);
      } else {
        DotZero(m[r], a, n);
      }
    }
  }

  /** The bits of `x` on the free variables, as the loop value that produces them. */
  function FreeCode(free: seq<nat>, x: seq<bool>): nat
    requires forall j :: 0 <= j < |free| ==> free[j] < |x|
  {
    FromBits(seq(|free|, j requires 0 <= j < |free| => x[free[j]]))
  }

  /** Every solution is the candidate of the loop value that spells out its free variables. */
  lemma SolutionIsCandidate(m: seq<Row>, n: nat, pivots: seq<nat>, free: seq<nat>, x: seq<bool>)
    requires Reduced(m, n, pivots, free, n) && |x| == n && Solves(m, x, n)
    ensures FreeCode(free, x) < Pow2(|free|)
    ensures Candidate(m, n, pivots, free, FreeCode(free, x), x)
  {
    var bs := seq(|free|, j requires 0 <= j < |free| => x[free[j]]);
    FromBitsBound(bs);
    forall j | 0 <= j < |free| ensures x[free[j]] == (Bit(FreeCode(free, x), j) == 1) {
      BitOfFromBits(bs, j);
    }
    forall r | 0 <= r < |pivots|
      ensures x[pivots[r]] == (m[r][n] != DotOn(m[r], x, n, FreeAbove(free, pivots[r])))
    {
      PivotRowDot(m, n, pivots, free, r, x);
      assert Satisfies(m[r], x, n);
    }
  }

  /** A loop value has one candidate. */
  lemma CandidateUnique(m: seq<Row>, n: nat, pivots: seq<nat>, free: seq<nat>, i: nat, a: seq<bool>, b: seq<bool>)
    requires Reduced(m, n, pivots, free, n)
    requires Candidate(m, n, pivots, free, i, a) && Candidate(m, n, pivots, free, i, b)
    ensures a == b
  {
    forall k | 0 <= k < n ensures a[k] == b[k] {
      if k in free {
        var j :| 0 <= j < |free| && free[j] == k;
      } else {
        assert k in pivots;
        var r :| 0 <= r < |pivots| && pivots[r] == k;
        DotOnAgree(m[r], a, b, n, FreeAbove(free, k));
      }
    }
  }

  // ----- the search over free variables -----

  /** `sum(assignment)`: the number of presses. */
  function Weight(x: seq<bool>): (w: nat)
    ensures w <= |x|
  {
    if x == [] then 0 else Weight(x[..|x| - 1]) + (if x[|x| - 1] then 1 else 0)
  }

  /**
   * The loop over `range(1 << num_free)`: the least weight among the candidates, the
   * `min_presses` of the source (which starts at infinity, here `None`).
   */
  method MinPresses(m: seq<Row>, n: nat, pivots: seq<nat>, free: seq<nat>) returns (best: nat)
    requires Reduced(m, n, pivots, free, n)
    ensures exists i, a :: 0 <= i < Pow2(|free|) && Candidate(m, n, pivots, free, i, a) && Weight(a) == best
    ensures forall i, a :: 0 <= i < Pow2(|free|) && Candidate(m, n, pivots, free, i, a) ==> best <= Weight(a)
  {
    var least: Option<nat> := None;
    var count := Shl(1, |free|);
    var i := 0;
    while i < count
      invariant 0 <= i <= count && count == Pow2(|free|)
      invariant i > 0 ==> least.Some?
      invariant least.Some? ==>
        exists i', a :: 0 <= i' < i && Candidate(m, n, pivots, free, i', a) && Weight(a) == least.value
      invariant least.Some? ==>
        forall i', a :: 0 <= i' < i && Candidate(m, n, pivots, free, i', a) ==> least.value <= Weight(a)
    {
      var a := Assign(m, n, pivots, free, i);
      var w := Weight(a);
      forall a' | Candidate(m, n, pivots, free, i, a') ensures a' == a {
        CandidateUnique(m, n, pivots, free, i, a, a');
      }
      if least.None? || w < least.value {
        least := Some(w);
      }
      i := i + 1;
    }
    best := least.value;
  }

  /** `x` presses buttons so that exactly the target lights are on. */
  ghost predicate Lit(buttons: seq<seq<bool>>, target: seq<bool>, x: seq<bool>)
    requires ButtonsOf(buttons, |target|)
  {
    |x| == |buttons| && Lights(buttons, x, |target|) == target
  }

  /** `k` presses light the target, and no way of lighting it uses fewer. */
  ghost predicate Fewest(buttons: seq<seq<bool>>, target: seq<bool>, k: nat)
    requires ButtonsOf(buttons, |target|)
  {
    (exists x :: Lit(buttons, target, x) && Weight(x) == k)
    && forall x :: Lit(buttons, target, x) ==> k <= Weight(x)
  }

  /**
   * The solver for one machine: `None` for "Impossible config found", which it reports
   * exactly when no presses light the target; otherwise the fewest presses that do.
   */
  method SolveMachine(target: seq<bool>, buttons: seq<seq<bool>>) returns (r: Option<nat>)
    requires ButtonsOf(buttons, |target|)
    ensures r.None? <==> forall x :: !Lit(buttons, target, x)
    ensures r.Some? ==> Fewest(buttons, target, r.value)
  {
    var n := |buttons|;
    var m0 := BuildMatrix(buttons, target);
    var m, pivots, free := Eliminate(m0, n);
    var possible := CheckRows(m, n, pivots, free);
    if !possible {
      var bad :| |pivots| <= bad < |m| && m[bad][n];
      forall x ensures !Lit(buttons, target, x) {
        if |x| == n {
          InconsistentRow(m, n, pivots, free, bad, x);
          SolvesIffLights(m0, buttons, target, x);
        }
      }
      return None;
    }
    var best := MinPresses(m, n, pivots, free);
    MinimumIsFewest(m0, m, buttons, target, pivots, free, best);
    r := Some(best);
  }

  /** The least candidate weight is the fewest presses over all solutions of the machine. */
  lemma MinimumIsFewest(m0: seq<Row>, m: seq<Row>, buttons: seq<seq<bool>>, target: seq<bool>,
                        pivots: seq<nat>, free: seq<nat>, best: nat)
    requires ButtonsOf(buttons, |target|) && AugmentedOf(m0, buttons, target)
    requires Reduced(m, |buttons|, pivots, free, |buttons|)
    requires forall x :: |x| == |buttons| ==> (Solves(m, x, |buttons|) <==> Solves(m0, x, |buttons|))
    requires forall r :: |pivots| <= r < |m| ==> !m[r][|buttons|]
    requires exists i, a :: 0 <= i < Pow2(|free|) && Candidate(m, |buttons|, pivots, free, i, a) && Weight(a) == best
    requires forall i, a :: 0 <= i < Pow2(|free|) && Candidate(m, |buttons|, pivots, free, i, a) ==> best <= Weight(a)
    ensures Fewest(buttons, target, best)
    ensures exists x :: Lit(buttons, target, x)
  {
    var n := |buttons|;
    var i, a :| 0 <= i < Pow2(|free|) && Candidate(m, n, pivots, free, i, a) && Weight(a) == best;
    CandidateSolves(m, n, pivots, free, i, a);
    SolvesIffLights(m0, buttons, target, a);
    assert Lit(buttons, target, a);
    forall x | Lit(buttons, target, x) ensures best <= Weight(x) {
      SolvesIffLights(m0, buttons, target, x);
      SolutionIsCandidate(m, n, pivots, free, x);
    }
  }

  // ----- parsing -----

  /** One machine line: the target lights and one toggle vector per button. */
  datatype Machine = Machine(target: seq<bool>, buttons: seq<seq<bool>>)

  /** A line is skipped (no diagram), raises (a bad index or number), or yields a machine. */
  datatype LineParse = NoDiagram | Raises | Parsed(machine: Machine)

  /**
   * `re.search(r'\[(.*?)\]', line)`: the text between the first `[` and the first `]` after
   * it, and the rest of the line after that `]`.
   */
  function Diagram(line: string): (r: Option<(string, string)>)
    ensures r.Some? ==> '[' in line && ']' !in r.value.0
  {
    if '[' !in line then None
    else
      var i := IndexOf(line, '[');
      var after := line[i + 1..];
      if ']' !in after then None
      else
        var j := IndexOf(after, ']');
        Some((after[..j], after[j + 1..]))
  }

  /** `re.findall(r'\((.*?)\)', s)`: each `(` with the text up to the next `)`, left to right. */
  function Groups(s: string): (gs: seq<string>)
    ensures forall k :: 0 <= k < |gs| ==> ')' !in gs[k]
    decreases |s|
  {
    if '(' !in s then []
    else
      var i := IndexOf(s, '(');
      var after := s[i + 1..];
      if ')' !in after then []
      else
        var j := IndexOf(after, ')');
        [after[..j]] + Groups(after[j + 1..])
  }

  /** `[int(x) for x in parts if x.strip()]`, `None` when some `int` raises. */
  function IntsOf(parts: seq<string>): Option<seq<int>>
  {
    if parts == [] then Some([])
    else
      var x := parts[|parts| - 1];
      match IntsOf(parts[..|parts| - 1])
      case None => None
      case Some(init) =>
        if Strip(x) == [] then Some(init)
        else match ParseInt(x)
          case None => None
          case Some(v) => Some(init + [v])
  }

  /**
   * The toggle vector of a button over `len` lights: light `r` is toggled by index `r`, and by
   * index `r - len` through Python's negative indexing; indices at or past `len` are ignored,
   * and an index below `-len` raises `IndexError`.
   */
  function Button(indices: seq<int>, len: nat): (r: Option<seq<bool>>)
    ensures r.Some? ==> |r.value| == len
  {
    if exists j :: 0 <= j < |indices| && indices[j] < -(len as int) then None
    else Some(seq(len, r requires 0 <= r < len =>
      exists j :: 0 <= j < |indices| && (indices[j] == r || indices[j] == r - len)))
  }

  /** `vec = [0] * L; for idx in indices: if idx < L: vec[idx] = 1` */
  method ButtonVector(indices: seq<int>, len: nat) returns (vec: Option<seq<bool>>)
    ensures vec == Button(indices, len)
  {
    var v := seq(len, _ => false);
    var k := 0;
    while k < |indices|
      invariant 0 <= k <= |indices| && |v| == len
      invariant forall j :: 0 <= j < k ==> indices[j] >= -(len as int)
      invariant forall r :: 0 <= r < len ==>
        (v[r] <==> exists j :: 0 <= j < k && (indices[j] == r || indices[j] == r - len))
    {
      var idx := indices[k];
      if idx < -(len as int) {
        assert indices[k] < -(len as int);
        return None;
      }
      if idx < len {
        if idx >= 0 {
          v := v[idx := true];
        } else {
          v := v[len + idx := true];
        }
      }
      k := k + 1;
    }
    assert v == Button(indices, len).value;
    vec := Some(v);
  }

  /** The buttons of a line, or `None` when one of them raises. */
  function ButtonList(groups: seq<string>, len: nat): (r: Option<seq<seq<bool>>>)
    ensures r.Some? ==> |r.value| == |groups| && ButtonsOf(r.value, len)
  {
    if groups == [] then Some([])
    else
      match ButtonList(groups[..|groups| - 1], len)
      case None => None
      case Some(init) =>
        match IntsOf(Split(groups[|groups| - 1], ','))
        case None => None
        case Some(indices) =>
          match Button(indices, len)
          case None => None
          case Some(vec) => Some(init + [vec])
  }

  /** What the loop body makes of one stripped line before it solves. */
  function ParseLine(line: string): (p: LineParse)
    ensures p.Parsed? ==> ButtonsOf(p.machine.buttons, |p.machine.target|)
  {
    match Diagram(line)
    case None => NoDiagram
    case Some((diag, rest)) =>
      var target := seq(|diag|, i requires 0 <= i < |diag| => diag[i] == '#');
      match ButtonList(Groups(rest), |target|)
      case None => Raises
      case Some(buttons) => Parsed(Machine(target, buttons))
  }

  /** The loop that builds `buttons` from the groups of one line. */
  method ReadButtons(groups: seq<string>, len: nat) returns (r: Option<seq<seq<bool>>>)
    ensures r == ButtonList(groups, len)
  {
    var buttons: seq<seq<bool>> := [];
    var k := 0;
    while k < |groups|
      invariant 0 <= k <= |groups| && ButtonList(groups[..k], len) == Some(buttons)
    {
      var next := ReadButton(groups, len, k, buttons);
      if next.None? {
        ButtonListFails(groups, len, k + 1);
        return None;
      }
      buttons := next.value;
      k := k + 1;
    }
    assert groups[..k] == groups;
    r := Some(buttons);
  }

  /** One turn of the loop: the buttons so far, with group `k` read and added. */
  method ReadButton(groups: seq<string>, len: nat, k: nat, buttons: seq<seq<bool>>)
    returns (r: Option<seq<seq<bool>>>)
    requires k < |groups| && ButtonList(groups[..k], len) == Some(buttons)
    ensures r == ButtonList(groups[..k + 1], len)
  {
    assert groups[..k + 1][..k] == groups[..k];
    var indices := IntsOf(Split(groups[k], ','));
    if indices.None? {
      return None;
    }
    var vec := ButtonVector(indices.value, len);
    if vec.None? {
      return None;
    }
    return Some(buttons + [vec.value]);
  }

  /** Once a prefix of the groups raises, the whole list raises. */
  lemma {:induction false} ButtonListFails(groups: seq<string>, len: nat, k: nat)
    requires k <= |groups| && ButtonList(groups[..k], len).None?
    ensures ButtonList(groups, len).None?
    decreases |groups| - k
  {
    if k < |groups| {
      assert groups[..k + 1][..k] == groups[..k];
      ButtonListFails(groups, len, k + 1);
    } else {
      assert groups[..k] == groups;
    }
  }

  // ----- solve -----

  /** What the solver adds for a line: the fewest presses, or 0 when it skips the line. */
  ghost predicate LineScore(line: string, k: nat)
  {
    match ParseLine(line)
    case Parsed(mc) =>
      ((forall x :: !Lit(mc.buttons, mc.target, x)) && k == 0) || Fewest(mc.buttons, mc.target, k)
    case _ => k == 0
  }

  /** The line loop of `solve`, with the machine solver inlined per line. */
  method SolveLine(line: string) returns (r: Option<nat>)
    ensures r.None? <==> ParseLine(line).Raises?
    ensures r.Some? ==> LineScore(line, r.value)
  {
    var d := Diagram(line);
    if d.None? {
      return Some(0);
    }
    var (diag, rest) := d.value;
    var target := seq(|diag|, i requires 0 <= i < |diag| => diag[i] == '#');
    var buttons := ReadButtons(Groups(rest), |target|);
    if buttons.None? {
      return None;
    }
    var presses := SolveMachine(target, buttons.value);
    if presses.None? {
      return Some(0);
    }
    r := presses;
  }

  /**
   * `solve` on the text of the input file: the total of the fewest presses over the machine
   * lines, or `None` when a line raises. `scores` are the per-line amounts it added.
   */
  method Solve(text: string) returns (total: Option<nat>, ghost scores: seq<nat>)
    ensures total.None? <==> exists k :: 0 <= k < |StrippedLines(text)| && ParseLine(StrippedLines(text)[k]).Raises?
    ensures total.Some? ==> |scores| == |StrippedLines(text)| && total.value == Sum(scores)
    ensures total.Some? ==> forall k :: 0 <= k < |scores| ==> LineScore(StrippedLines(text)[k], scores[k])
  {
    var lines := StrippedLines(text);
    var sum: nat := 0;
    scores := [];
    var k := 0;
    while k < |lines|
      invariant 0 <= k <= |lines| && |scores| == k && sum == Sum(scores)
      invariant Pointwise(Scored, lines, scores)
    {
      var r := SolveLine(lines[k]);
      if r.None? {
        return None, scores;
      }
      assert Scored(lines[k], r.value);
      PointwiseSnoc(Scored, lines, scores, r.value);
      assert (scores + [r.value])[..k] == scores;
      scores := scores + [r.value];
      sum := sum + r.value;
      k := k + 1;
    }
    ScoredAll(lines, scores);
    total := Some(sum);
  }

  lemma ScoredAll(lines: seq<string>, scores: seq<nat>)
    requires |scores| == |lines| && Pointwise(Scored, lines, scores)
    ensures !exists k :: 0 <= k < |lines| && ParseLine(lines[k]).Raises?
    ensures forall k :: 0 <= k < |scores| ==> LineScore(lines[k], scores[k])
  {
    forall k | 0 <= k < |lines| ensures !ParseLine(lines[k]).Raises? && LineScore(lines[k], scores[k]) {
      assert Scored(lines[k], scores[k]);
    }
  }

  /** A line that does not raise, scored `k`. */
  ghost predicate Scored(line: string, k: nat)
  {
    !ParseLine(line).Raises? && LineScore(line, k)
  }
}
