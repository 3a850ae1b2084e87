/**
 * Day 4 precomputation: part 1 counts the accessible rolls (fewer than 4 neighbouring
 * rolls); part 2 removes every accessible roll at once, round after round, until none is
 * accessible, and counts the rolls removed.
 */
module Day4 {
  import opened Common
  import opened PyText
  import opened RollGrid

  /** `[list(line.strip()) for line in input_str.strip().split('\n')]` */
  function TextGrid(text: string): (g: Grid)
    ensures |g| >= 1
  {
    var parts := Split(Strip(text), '\n');
    seq(|parts|, k requires 0 <= k < |parts| => Strip(parts[k]))
  }

  /**
   * `solve_part1`: the count and the accessible rolls with their neighbour counts, in
   * row-major order; `None` when a row is shorter than the first (IndexError).
   */
  method SolvePart1(g: Grid) returns (r: Option<(nat, seq<Reading>)>)
    ensures r.None? <==> !WellFormed(g)
    ensures r.Some? ==> r.value.1 == Found(g) && r.value.0 == |Found(g)|
  {
    if !WellFormed(g) {
      return None;
    }
    var count, results, _ := Scan(g);
    return Some((count, results));
  }

  /** The `(r, c)` pairs of `to_remove`. */
  function Positions(s: seq<Reading>): (ps: seq<(nat, nat)>)
    ensures |ps| == |s|
  {
    seq(|s|, k requires 0 <= k < |s| => (s[k].row, s[k].col))
  }

  /** `for r, c in to_remove: grid[r][c] = '.'` */
  method RemoveCells(g: Grid, cells: seq<(nat, nat)>) returns (h: Grid)
    requires forall k | 0 <= k < |cells| :: cells[k].0 < |g| && cells[k].1 < |g[cells[k].0]|
    ensures |h| == |g| && forall r | 0 <= r < |g| :: |h[r]| == |g[r]|
    ensures forall r, c | 0 <= r < |g| && 0 <= c < |g[r]| ::
      h[r][c] == if (r, c) in cells then '.' else g[r][c]
  {
    h := g;
    for i := 0 to |cells|
      invariant |h| == |g| && forall r | 0 <= r < |g| :: |h[r]| == |g[r]|
      invariant forall r, c | 0 <= r < |g| && 0 <= c < |g[r]| ::
        h[r][c] == if (r, c) in cells[..i] then '.' else g[r][c]
    {
      var (r, c) := cells[i];
      assert cells[..i + 1] == cells[..i] + [(r, c)];
      h := h[r := h[r][c := '.']];
    }
    assert cells[..|cells|] == cells;
  }

  /** The cells `to_remove` names are exactly the accessible rolls. */
  lemma PositionsOfFound(g: Grid, r: nat, c: nat)
    requires WellFormed(g)
    ensures (r, c) in Positions(Found(g)) <==> Accessible(g, r, c)
  {
    var ps := Positions(Found(g));
    if (r, c) in ps {
      var k :| 0 <= k < |ps| && ps[k] == (r, c);
      FoundIsAccessible(g, Found(g)[k]);
    }
    if Accessible(g, r, c) {
      var x := Reading(r, c, Neighbours(g, r, c));
      FoundIsAccessible(g, x);
      var k :| 0 <= k < |Found(g)| && Found(g)[k] == x;
      assert ps[k] == (r, c);
    }
  }

  /** A grid that agrees with one round of removal is that round's grid. */
  lemma RemovesIsPeeled(h: Grid, g: Grid)
    requires Removes(h, g)
    ensures h == Peeled(g)
  {
    var p := Peeled(g);
    forall r | 0 <= r < |g|
      ensures h[r] == p[r]
    {
    }
  }

  /**
   * One round of `solve_part2`: collect every accessible roll first, then set them all to
   * `'.'`; the round's removals are simultaneous.
   */
  method Round(g: Grid) returns (removed: nat, h: Grid)
    requires WellFormed(g)
    ensures removed == |Found(g)| && h == Peeled(g)
  {
    var count, found, _ := Scan(g);
    var toRemove := Positions(found);
    forall k | 0 <= k < |toRemove|
      ensures toRemove[k].0 < |g| && toRemove[k].1 < |g[toRemove[k].0]|
    {
      FoundIsAccessible(g, found[k]);
    }
    h := RemoveCells(g, toRemove);
    forall r, c | 0 <= r < |g| && 0 <= c < |g[r]|
      ensures h[r][c] == if Accessible(g, r, c) then '.' else g[r][c]
    {
      PositionsOfFound(g, r, c);
    }
    RemovesIsPeeled(h, g);
    removed := |toRemove|;
  }

  /** The rolls removed by repeating rounds until nothing is accessible. */
  function PeelAll(g: Grid): nat
    requires WellFormed(g)
    decreases RollCount(g)
  {
    if Found(g) == [] then 0
    else
      PeelShrinks(g);
      |Found(g)| + PeelAll(Peeled(g))
  }

  /** The grid when the rounds stop. */
  function Final(g: Grid): (f: Grid)
    requires WellFormed(g)
    ensures WellFormed(f)
    decreases RollCount(g)
  {
    if Found(g) == [] then g
    else
      PeelShrinks(g);
      Final(Peeled(g))
  }

  /**
   * `solve_part2` on a grid: a round with nothing to remove ends the loop; every other
   * round removes at least one roll, so the loop stops.
   */
  method Peel(g0: Grid) returns (total: nat)
    requires WellFormed(g0)
    ensures total == PeelAll(g0)
  {
    var grid := g0;
    total := 0;
    while true
      invariant WellFormed(grid) && total + PeelAll(grid) == PeelAll(g0)
      decreases RollCount(grid)
    {
      var removed, next := Round(grid);
      if removed == 0 {
        break;
      }
      PeelShrinks(grid);
      total := total + removed;
      grid := next;
    }
  }

  /** `solve_part2`: the grid read from the text, peeled; `None` when a row is too short. */
  method SolvePart2(text: string) returns (r: Option<nat>)
    ensures r.None? <==> !WellFormed(TextGrid(text))
    ensures r.Some? ==> r.value == PeelAll(TextGrid(text))
  {
    var g := TextGrid(text);
    if !WellFormed(g) {
      return None;
    }
    var total := Peel(g);
    return Some(total);
  }

  /**
   * The precomputation's main: both parts on the same text, as the two numbers written
   * out; `None` when the grid has a row shorter than the first.
   */
  method Precompute(text: string) returns (r: Option<(nat, nat)>)
    ensures r.None? <==> !WellFormed(TextGrid(text))
    ensures r.Some? ==>
      r.value == (|Found(TextGrid(text))|, PeelAll(TextGrid(text)))
  {
    var part1 := SolvePart1(TextGrid(text));
    if part1.None? {
      return None;
    }
    var part2 := SolvePart2(text);
    return Some((part1.value.0, part2.value));
  }

  /** `solve` of the debugging script: the part 1 count read from the text. */
  method DebugSolve(text: string) returns (r: Option<nat>)
    ensures r.None? <==> !WellFormed(TextGrid(text))
    ensures r.Some? ==> r.value == |Found(TextGrid(text))|
  {
    var g := TextGrid(text);
    if !WellFormed(g) {
      return None;
    }
    var count, _, _ := Scan(g);
    return Some(count);
  }

  // ---------------------------------------------------------------------------------------
  // What the rounds achieve.

  /** With nothing accessible, a round changes nothing. */
  lemma NothingToPeel(g: Grid)
    requires WellFormed(g) && Found(g) == []
    ensures Peeled(g) == g
  {
    var p := Peeled(g);
    forall r | 0 <= r < |g|
      ensures p[r] == g[r]
    {
      forall c | 0 <= c < |g[r]|
        ensures p[r][c] == g[r][c]
      {
        if Accessible(g, r, c) {
          FoundIsAccessible(g, Reading(r, c, Neighbours(g, r, c)));
        }
      }
    }
  }

  /** The first round removes exactly part 1's count; part 2 is never below part 1. */
  lemma FirstRound(g: Grid)
    requires WellFormed(g)
    ensures WellFormed(Peeled(g)) && PeelAll(g) == |Found(g)| + PeelAll(Peeled(g))
    ensures PeelAll(g) >= |Found(g)|
  {
    PeelShrinks(g);
    if Found(g) == [] {
      NothingToPeel(g);
    }
  }

  /** When the rounds stop, no roll is accessible. */
  lemma {:induction false} FinalStable(g: Grid, r: int, c: int)
    requires WellFormed(g)
    ensures !Accessible(Final(g), r, c)
    decreases RollCount(g)
  {
    if Found(g) == [] {
      if Accessible(g, r, c) {
        FoundIsAccessible(g, Reading(r, c, Neighbours(g, r, c)));
      }
    } else {
      PeelShrinks(g);
      FinalStable(Peeled(g), r, c);
    }
  }

  /**
   * The rolls removed are the rolls of the grid less those left at the end, and the end
   * grid differs from the start only by rolls turned into `'.'`.
   */
  lemma {:induction false} PeelAllCounts(g: Grid)
    requires WellFormed(g)
    ensures PeelAll(g) + RollCount(Final(g)) == RollCount(g)
    ensures Below(Final(g), g)
    decreases RollCount(g)
  {
    if Found(g) != [] {
      PeelShrinks(g);
      PeeledBelow(g);
      PeelAllCounts(Peeled(g));
      BelowTransitive(Final(Peeled(g)), Peeled(g), g);
    }
  }

  lemma BelowTransitive(a: Grid, b: Grid, g: Grid)
    requires Below(a, b) && Below(b, g)
    ensures Below(a, g)
  {
  }

  /** Peeling the end grid again removes nothing: the rounds reach a fixed point. */
  lemma FinalIsFixed(g: Grid)
    requires WellFormed(g)
    ensures Found(Final(g)) == [] && PeelAll(Final(g)) == 0 && Final(Final(g)) == Final(g)
  {
    var f := Final(g);
    if Found(f) != [] {
      FoundIsAccessible(f, Found(f)[0]);
      FinalStable(g, Found(f)[0].row, Found(f)[0].col);
    }
  }
}
