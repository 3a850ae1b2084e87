/**
 * Day 12 shapes: a present is a grid of filled (`true`) and empty cells, read row by row.
 * This module holds the quarter turn, the row flip, the orientation set that
 * `get_variations` collects, and the filled-cell count (`area`).
 */
module Day12Shapes {

  type Grid = seq<seq<bool>>

  /** What the quarter turn can index: a non-empty first row and no row shorter than it. */
  predicate WellFormed(g: Grid)
  {
    |g| >= 1 && |g[0]| >= 1 && forall r :: 0 <= r < |g| ==> |g[r]| >= |g[0]|
  }

  /** A non-empty rectangle: every row as long as the first. */
  predicate Rect(g: Grid)
  {
    |g| >= 1 && |g[0]| >= 1 && forall r :: 0 <= r < |g| ==> |g[r]| == |g[0]|
  }

  /**
   * The quarter turn of an H x W grid: row `c` of the result reads column `c` of `g`
   * from the bottom row up, so cell (r, c) lands on (c, H-1-r) of a W x H grid.
   */
  function Rotate(g: Grid): (t: Grid)
    requires WellFormed(g)
    ensures Rect(t) && |t| == |g[0]| && |t[0]| == |g|
  {
    seq(|g[0]|, c requires 0 <= c < |g[0]| =>
      seq(|g|, k requires 0 <= k < |g| => g[|g| - 1 - k][c]))
  }

  /** The quarter turn moves cell (r, c) to (c, H-1-r). */
  lemma RotateCell(g: Grid, r: nat, c: nat)
    requires WellFormed(g) && r < |g| && c < |g[0]|
    ensures Rotate(g)[c][|g| - 1 - r] == g[r][c]
  {
  }

  /** `curr[::-1]`: the rows in reverse order. */
  function Flip(g: Grid): (f: Grid)
    ensures |f| == |g|
    ensures forall r :: 0 <= r < |g| ==> f[r] == g[|g| - 1 - r]
  {
    seq(|g|, r requires 0 <= r < |g| => g[|g| - 1 - r])
  }

  /** `k` quarter turns; from the first turn on the grid is a rectangle. */
  function Turns(g: Grid, k: nat): (t: Grid)
    requires WellFormed(g)
    ensures WellFormed(t)
    ensures k >= 1 ==> Rect(t)
  {
    if k == 0 then g else Rotate(Turns(g, k - 1))
  }

  /** The row flip of the grid after four turns, where the second pass of the search starts. */
  function Flipped(g: Grid): (f: Grid)
    requires WellFormed(g)
    ensures Rect(f)
  {
    var t := Turns(g, 4);
    Flip(t)
  }

  /** The orientations collected: four turns of `g`, then four turns of the flipped grid. */
  function Orientations(g: Grid): set<Grid>
    requires WellFormed(g)
  {
    {Turns(g, 0), Turns(g, 1), Turns(g, 2), Turns(g, 3),
     Turns(Flipped(g), 0), Turns(Flipped(g), 1), Turns(Flipped(g), 2), Turns(Flipped(g), 3)}
  }

  /** At most eight distinct orientations. */
  lemma OrientationsAtMostEight(g: Grid)
    requires WellFormed(g)
    ensures |Orientations(g)| <= 8
  {
    var f := Flipped(g);
    AtMostEight(Turns(g, 0), Turns(g, 1), Turns(g, 2), Turns(g, 3),
                Turns(f, 0), Turns(f, 1), Turns(f, 2), Turns(f, 3));
  }

  lemma AtMostEight<T>(a0: T, a1: T, a2: T, a3: T, a4: T, a5: T, a6: T, a7: T)
    ensures |{a0, a1, a2, a3, a4, a5, a6, a7}| <= 8
  {
    var s := {a0};
    assert |s + {a1}| <= 2;
    assert |s + {a1} + {a2}| <= 3;
    assert |s + {a1} + {a2} + {a3}| <= 4;
    assert |s + {a1} + {a2} + {a3} + {a4}| <= 5;
    assert |s + {a1} + {a2} + {a3} + {a4} + {a5}| <= 6;
    assert |s + {a1} + {a2} + {a3} + {a4} + {a5} + {a6}| <= 7;
    assert {a0, a1, a2, a3, a4, a5, a6, a7} == s + {a1} + {a2} + {a3} + {a4} + {a5} + {a6} + {a7};
  }

  /** Two quarter turns of a rectangle reverse both the rows and the columns. */
  lemma HalfTurn(g: Grid, r: nat, c: nat)
    requires Rect(g) && r < |g| && c < |g[0]|
    ensures Rect(Rotate(Rotate(g))) && |Rotate(Rotate(g))| == |g| && |Rotate(Rotate(g))[0]| == |g[0]|
    ensures Rotate(Rotate(g))[|g| - 1 - r][|g[0]| - 1 - c] == g[r][c]
  {
    var t := Rotate(g);
    RotateCell(g, r, c);
    RotateCell(t, c, |g| - 1 - r);
  }

  /** Four quarter turns give back the rectangle. */
  lemma FullTurn(g: Grid)
    requires Rect(g)
    ensures Turns(g, 4) == g
  {
    assert Turns(g, 0) == g;
    assert Turns(g, 1) == Rotate(g);
    assert Turns(g, 2) == Rotate(Rotate(g));
    assert Turns(g, 4) == Rotate(Rotate(Turns(g, 2)));
    TwoHalfTurns(g);
  }

  lemma TwoHalfTurns(g: Grid)
    requires Rect(g)
    ensures Rotate(Rotate(Rotate(Rotate(g)))) == g
  {
    var h := Rotate(Rotate(g));
    var u := Rotate(Rotate(h));
    var H, W := |g|, |g[0]|;
    HalfTurn(g, 0, 0);
    HalfTurn(h, 0, 0);
    forall r | 0 <= r < H ensures u[r] == g[r] {
      forall c | 0 <= c < W ensures u[r][c] == g[r][c] {
        HalfTurn(h, H - 1 - r, W - 1 - c);
        HalfTurn(g, r, c);
      }
    }
  }

  /** For a rectangle the second pass is the four turns of its row flip. */
  lemma FlippedRect(g: Grid)
    requires Rect(g)
    ensures Flipped(g) == Flip(g)
  {
    FullTurn(g);
  }

  // ----- filled-cell count -----

  /** `sum(row)`: the filled cells of one row. */
  function RowCount(row: seq<bool>): nat
  {
    if row == [] then 0 else RowCount(row[..|row| - 1]) + (if row[|row| - 1] then 1 else 0)
  }

  /** `sum(sum(r) for r in shape_grid)`: the filled cells of the grid. */
  function Area(g: Grid): nat
  {
    if g == [] then 0 else Area(g[..|g| - 1]) + RowCount(g[|g| - 1])
  }

  /** The filled cells as (row, column) pairs. */
  function Cells(g: Grid): set<(nat, nat)>
  {
    set r: nat, c: nat | r < |g| && c < |g[r]| && g[r][c] :: (r, c)
  }

  function RowCells(row: seq<bool>, r: nat): set<(nat, nat)>
  {
    set c: nat | c < |row| && row[c] :: (r, c)
  }

  lemma {:induction false} RowCountIsCard(row: seq<bool>, r: nat)
    ensures RowCount(row) == |RowCells(row, r)|
  {
    if row != [] {
      var n := |row| - 1;
      RowCountIsCard(row[..n], r);
      var last := if row[n] then {(r, n)} else {};
      assert RowCells(row, r) == RowCells(row[..n], r) + last;
      assert (r, n) !in RowCells(row[..n], r);
    }
  }

  /** `area` is the number of filled cells. */
  lemma {:induction false} AreaIsCellCount(g: Grid)
    ensures Area(g) == |Cells(g)|
  {
    if g != [] {
      var n := |g| - 1;
      AreaIsCellCount(g[..n]);
      RowCountIsCard(g[n], n);
      assert Cells(g) == Cells(g[..n]) + RowCells(g[n], n);
      assert Cells(g[..n]) !! RowCells(g[n], n);
    }
  }

  /** A set that is the image of `s` under a one-to-one map has as many elements as `s`. */
  lemma {:induction false} InjectiveImage<A, B>(s: set<A>, t: set<B>, f: A --> B)
    requires forall x :: x in s ==> f.requires(x) && f(x) in t
    requires forall y :: y in t ==> exists x :: x in s && f(x) == y
    requires forall x, y :: x in s && y in s && f(x) == f(y) ==> x == y
    ensures |t| == |s|
  {
    if s == {} {
      assert t == {};
    } else {
      var x :| x in s;
      InjectiveImage(s - {x}, t - {f(x)}, f);
    }
  }

  /** A quarter turn keeps the filled-cell count of a rectangle. */
  lemma RotateKeepsArea(g: Grid)
    requires Rect(g)
    ensures Area(Rotate(g)) == Area(g)
  {
    var t := Rotate(g);
    var H := |g|;
    var f: ((nat, nat)) --> (nat, nat) := (p: (nat, nat)) requires p.0 < H => (p.1, (H - 1 - p.0) as nat);
    forall q | q in Cells(t) ensures exists p :: p in Cells(g) && f(p) == q {
      var p := (H - 1 - q.1, q.0);
      RotateCell(g, p.0, p.1);
      assert p in Cells(g) && f(p) == q;
    }
    forall p | p in Cells(g) ensures f(p) in Cells(t) {
      RotateCell(g, p.0, p.1);
    }
    InjectiveImage(Cells(g), Cells(t), f);
    AreaIsCellCount(g);
    AreaIsCellCount(t);
  }

  /** The row flip keeps the filled-cell count. */
  lemma FlipKeepsArea(g: Grid)
    ensures Area(Flip(g)) == Area(g)
  {
    var t := Flip(g);
    var H := |g|;
    var f: ((nat, nat)) --> (nat, nat) := (p: (nat, nat)) requires p.0 < H => ((H - 1 - p.0) as nat, p.1);
    forall q | q in Cells(t) ensures exists p :: p in Cells(g) && f(p) == q {
      var p := (H - 1 - q.0, q.1);
      assert p in Cells(g) && f(p) == q;
    }
    forall p | p in Cells(g) ensures f(p) in Cells(t) {
      assert t[H - 1 - p.0] == g[p.0];
    }
    InjectiveImage(Cells(g), Cells(t), f);
    AreaIsCellCount(g);
    AreaIsCellCount(t);
  }

  lemma {:induction false} TurnsKeepArea(g: Grid, k: nat)
    requires Rect(g)
    ensures Area(Turns(g, k)) == Area(g)
  {
    if k > 0 {
      TurnsKeepArea(g, k - 1);
      RotateKeepsArea(Turns(g, k - 1));
    }
  }

  /** Every orientation of a rectangle has the rectangle's area. */
  lemma OrientationsKeepArea(g: Grid, v: Grid)
    requires Rect(g) && v in Orientations(g)
    ensures Area(v) == Area(g)
  {
    FlippedRect(g);
    FlipKeepsArea(g);
    var k :| 0 <= k < 4 && (v == Turns(g, k) || v == Turns(Flip(g), k));
    TurnsKeepArea(g, k);
    TurnsKeepArea(Flip(g), k);
  }
}
