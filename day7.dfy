/**
 * Day 7: tachyon beams fall row by row through a manifold. An `S` starts a beam in its
 * column; a beam on a splitter `^` counts one hit and continues in the columns on either
 * side (those inside the grid); on any other cell it continues straight down. Beams in
 * the same column merge. The answer is the number of hits and the beams left at the end.
 */
module Day7 {
  import opened Common
  import opened PyText

  /** What `solve` ends with. */
  datatype Outcome =
    | NoRows                          // `return 0`: the text has no non-blank line
    | ShortRow                        // IndexError: a row shorter than the longest one
    | Beams(hits: nat, beams: nat)    // `(splitters_hit, len(active_now))`

  /** Every column lies inside the grid. */
  predicate InRange(s: set<nat>, w: nat)
  {
    forall x | x in s :: x < w
  }

  /** The columns below `n` where `row` holds `S`. */
  function Sources(row: string, n: nat): (s: set<nat>)
    requires n <= |row|
    ensures InRange(s, n)
  {
    set x: nat | x < n && row[x] == 'S'
  }

  /** Where a beam entering column `x` of `row` continues. */
  function Successors(row: string, w: nat, x: nat): (s: set<nat>)
    requires |row| == w && x < w
    ensures InRange(s, w)
  {
    if row[x] == '^' then (if x > 0 then {x - 1} else {}) + (if x < w - 1 then {x + 1} else {})
    else {x}
  }

  /** `next_active`: every active beam's continuation, beams that meet merged. */
  function NextActive(row: string, w: nat, active: set<nat>): (next: set<nat>)
    requires |row| == w && InRange(active, w)
    ensures InRange(next, w)
  {
    set x, y | x in active && y in Successors(row, w, x) :: y
  }

  /** The active beams that sit on a splitter. */
  function Splits(row: string, w: nat, active: set<nat>): set<nat>
    requires |row| == w && InRange(active, w)
  {
    set x | x in active && row[x] == '^'
  }

  /** The first `y` rows all have width `w`. */
  predicate RowsOfWidth(g: seq<string>, w: nat, y: nat)
  {
    y <= |g| && forall k | 0 <= k < y :: |g[k]| == w
  }

  /**
   * The beams and the hits after the first `y` rows: each row first adds its sources,
   * then every beam takes its step.
   */
  function Simulate(g: seq<string>, w: nat, y: nat): (r: (set<nat>, nat))
    requires RowsOfWidth(g, w, y)
    ensures InRange(r.0, w)
  {
    if y == 0 then ({}, 0)
    else
      var (active, hits) := Simulate(g, w, y - 1);
      var row := g[y - 1];
      var entering := active + Sources(row, w);
      (NextActive(row, w, entering), hits + |Splits(row, w, entering)|)
  }

  /** `solve` on a text. */
  function Answer(text: string): Outcome
  {
    var g := StrippedLines(text);
    if g == [] then NoRows
    else if !Rect(g, MaxLen(g)) then ShortRow
    else
      var (active, hits) := Simulate(g, MaxLen(g), |g|);
      Beams(hits, |active|)
  }

  // ---------------------------------------------------------------------------------------
  // The loops.

  lemma NextAdd(row: string, w: nat, done: set<nat>, x: nat)
    requires |row| == w && InRange(done, w) && x < w
    ensures NextActive(row, w, done + {x}) == NextActive(row, w, done) + Successors(row, w, x)
  {
  }

  lemma SplitsAdd(row: string, w: nat, done: set<nat>, x: nat)
    requires |row| == w && InRange(done, w) && x < w && x !in done
    ensures |Splits(row, w, done + {x})|
      == |Splits(row, w, done)| + (if row[x] == '^' then 1 else 0)
  {
    if row[x] == '^' {
      assert Splits(row, w, done + {x}) == Splits(row, w, done) + {x};
    } else {
      assert Splits(row, w, done + {x}) == Splits(row, w, done);
    }
  }

  /** Taking `x` out of the beams still to visit moves it to the visited ones. */
  lemma Advance(active: set<nat>, remaining: set<nat>, x: nat)
    requires remaining <= active && x in remaining
    ensures active - (remaining - {x}) == (active - remaining) + {x}
    ensures x !in active - remaining && x in active
  {
  }

  /**
   * `for x in current_beams`: each beam on `^` counts a hit and continues left and right
   * where the grid allows, any other beam continues in its column. The source visits the
   * beams in ascending order; the outcome does not depend on the order.
   */
  method ProcessRow(row: string, w: nat, active: set<nat>) returns (next: set<nat>, added: nat)
    requires |row| == w && InRange(active, w)
    ensures next == NextActive(row, w, active) && added == |Splits(row, w, active)|
  {
    next := {};
    added := 0;
    var remaining := active;
    while remaining != {}
      invariant remaining <= active
      invariant next == NextActive(row, w, active - remaining)
      invariant added == |Splits(row, w, active - remaining)|
      decreases |remaining|
    {
      var x :| x in remaining;
      var done := active - remaining;
      Advance(active, remaining, x);
      NextAdd(row, w, done, x);
      SplitsAdd(row, w, done, x);
      var hit;
      next, hit := MoveBeam(row, w, x, next);
      if hit {
        added := added + 1;
      }
      remaining := remaining - {x};
    }
    assert active - remaining == active;
  }

  /** One beam of the row: a hit on `^` splits it left and right, otherwise it goes on. */
  method MoveBeam(row: string, w: nat, x: nat, next: set<nat>) returns (next': set<nat>, hit: bool)
    requires |row| == w && x < w
    ensures next' == next + Successors(row, w, x) && hit == (row[x] == '^')
  {
    next' := next;
    hit := row[x] == '^';
    if hit {
      if x > 0 {
        next' := next' + {x - 1};
      }
      if x < w - 1 {
        next' := next' + {x + 1};
      }
    } else {
      next' := next' + {x};
    }
  }

  /** `for x in range(W): if row[x] == 'S': active_now.add(x)` */
  method AddSources(row: string, w: nat, active: set<nat>) returns (entering: set<nat>)
    requires |row| == w && InRange(active, w)
    ensures entering == active + Sources(row, w)
  {
    entering := active;
    for x := 0 to w
      invariant entering == active + Sources(row, x)
    {
      if row[x] == 'S' {
        entering := entering + {x};
      }
      assert Sources(row, x + 1) == Sources(row, x) + (if row[x] == 'S' then {x} else {});
    }
  }

  /**
   * `solve`: no rows gives 0; otherwise the rows are simulated in order, and the first row
   * shorter than the longest raises IndexError when the source scan reaches its end.
   */
  method Solve(text: string) returns (r: Outcome)
    ensures r == Answer(text)
  {
    var grid := StrippedLines(text);
    var h := |grid|;
    if h == 0 {
      return NoRows;
    }
    var w := MaxLen(grid);
    var active: set<nat> := {};
    var hits := 0;
    for y := 0 to h
      invariant RowsOfWidth(grid, w, y)
      invariant (active, hits) == Simulate(grid, w, y)
    {
      var row := grid[y];
      if |row| < w {
        assert !Rect(grid, w);
        return ShortRow;
      }
      active := AddSources(row, w, active);
      var next, added := ProcessRow(row, w, active);
      hits := hits + added;
      active := next;
    }
    return Beams(hits, |active|);
  }

  // ---------------------------------------------------------------------------------------
  // What a row step does.

  /**
   * Seen from below: a column holds a beam after a row exactly when a beam fell straight
   * into it, or a splitter beside it sent one sideways.
   */
  lemma BeamFrom(row: string, w: nat, active: set<nat>, y: nat)
    requires |row| == w && InRange(active, w)
    ensures y in NextActive(row, w, active) <==>
      y < w
      && ((y in active && row[y] != '^')
        || (y + 1 < w && y + 1 in active && row[y + 1] == '^')
        || (y > 0 && y - 1 in active && row[y - 1] == '^'))
  {
    if y in NextActive(row, w, active) {
      var x :| x in active && y in Successors(row, w, x);
    }
    if y < w && y in active && row[y] != '^' {
      assert y in Successors(row, w, y);
    }
    if y + 1 < w && y + 1 in active && row[y + 1] == '^' {
      assert y in Successors(row, w, y + 1);
    }
    if y > 0 && y < w && y - 1 in active && row[y - 1] == '^' {
      assert y in Successors(row, w, y - 1);
    }
  }

  /** A row without splitters lets every beam through unchanged. */
  lemma NoSplitters(row: string, w: nat, active: set<nat>)
    requires |row| == w && InRange(active, w) && forall x | 0 <= x < w :: row[x] != '^'
    ensures NextActive(row, w, active) == active && Splits(row, w, active) == {}
  {
    forall y | y in active
      ensures y in NextActive(row, w, active)
    {
      assert y in Successors(row, w, y);
    }
  }

  /** A set of columns inside a width-`w` grid has at most `w` members. */
  lemma {:induction false} ColumnsBound(s: set<nat>, w: nat)
    requires InRange(s, w)
    ensures |s| <= w
  {
    if w == 0 {
      assert s == {};
    } else {
      ColumnsBound(s - {w - 1}, w - 1);
    }
  }

  /** Merging keeps the beams to at most one per column, and the hits never fall. */
  lemma BeamsBound(g: seq<string>, w: nat, y: nat)
    requires RowsOfWidth(g, w, y + 1)
    ensures |Simulate(g, w, y + 1).0| <= w
    ensures Simulate(g, w, y).1 <= Simulate(g, w, y + 1).1
  {
    ColumnsBound(Simulate(g, w, y + 1).0, w);
  }
}
