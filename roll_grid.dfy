/**
 * The Day 4 grid of paper rolls (`@`) shared by every Day 4 script: the 8-neighbour count
 * of a cell, the rolls of the grid in row-major order with their counts, the accessible
 * ones (fewer than 4 neighbouring rolls), and one round of removing all of them at once.
 */
module RollGrid {
  import opened Common
  import opened Bits

  /** One row of characters per line, as `list(line.strip())` builds it. */
  type Grid = seq<string>

  /** `cols = len(grid[0]) if rows > 0 else 0` */
  function Cols(g: Grid): nat
  {
    if |g| > 0 then |g[0]| else 0
  }

  /**
   * Every row is at least as wide as the first: otherwise `grid[r][c]` raises IndexError
   * on the shorter row, since the scans read every cell of a row up to `cols`.
   */
  predicate WellFormed(g: Grid)
  {
    forall r | 0 <= r < |g| :: Cols(g) <= |g[r]|
  }

  /** The bounds test `0 <= nr < rows and 0 <= nc < cols` and the `'@'` test together. */
  predicate IsRoll(g: Grid, r: int, c: int)
    requires WellFormed(g)
  {
    0 <= r < |g| && 0 <= c < Cols(g) && g[r][c] == '@'
  }

  // ---------------------------------------------------------------------------------------
  // The 8-neighbour count.

  /** The offset `(dr, dc)` that the nested loops over `[-1, 0, 1]` visit `k`-th. */
  function Delta(k: nat): (int, int)
    requires k < 9
  {
    if k < 3 then (-1, k - 1) else if k < 6 then (0, k - 4) else (1, k - 7)
  }

  /** The cell the `k`-th offset reaches from `(r, c)`. */
  function Reach(r: int, c: int, k: nat): (int, int)
    requires k < 9
  {
    (r + Delta(k).0, c + Delta(k).1)
  }

  /** The `k`-th offset is not the centre and reaches a roll. */
  predicate Hit(g: Grid, r: int, c: int, k: nat)
    requires WellFormed(g) && k < 9
  {
    Delta(k) != (0, 0) && IsRoll(g, Reach(r, c, k).0, Reach(r, c, k).1)
  }

  /** The neighbouring rolls among the first `k` offsets, the centre `(0, 0)` skipped. */
  function Tally(g: Grid, r: int, c: int, k: nat): nat
    requires WellFormed(g) && k <= 9
  {
    if k == 0 then 0 else Tally(g, r, c, k - 1) + (if Hit(g, r, c, k - 1) then 1 else 0)
  }

  /** `neighbor_count` of cell `(r, c)`. */
  function Neighbours(g: Grid, r: int, c: int): nat
    requires WellFormed(g)
  {
    Tally(g, r, c, 9)
  }

  /** The eight offsets of the 3 x 3 block around a cell, its centre left out. */
  const Offsets: set<(int, int)> :=
    {(-1, -1), (-1, 0), (-1, 1), (0, -1), (0, 1), (1, -1), (1, 0), (1, 1)}

  /** The rolls among the eight cells around `(r, c)`. */
  function NeighbourCells(g: Grid, r: int, c: int): set<(int, int)>
    requires WellFormed(g)
  {
    set d | d in Offsets && IsRoll(g, r + d.0, c + d.1) :: (r + d.0, c + d.1)
  }

  /** Where cell `p` sits in the 3 x 3 block around `(r, c)`, counted as the loops visit it. */
  function Slot(r: int, c: int, p: (int, int)): int
  {
    3 * (p.0 - r + 1) + (p.1 - c + 1)
  }

  /** The cells counted among the first `k` offsets. */
  function Counted(g: Grid, r: int, c: int, k: nat): set<(int, int)>
    requires WellFormed(g) && k <= 9
  {
    if k == 0 then {}
    else Counted(g, r, c, k - 1) + (if Hit(g, r, c, k - 1) then {Reach(r, c, k - 1)} else {})
  }

  /** `Delta` walks the block row by row. */
  lemma DeltaAt(i: nat, j: nat)
    requires i < 3 && j < 3
    ensures Delta(3 * i + j) == (i - 1, j - 1)
  {
  }

  /** Each counted cell is a roll of the block in a slot below `k`. */
  lemma {:induction false} CountedInside(g: Grid, r: int, c: int, k: nat, p: (int, int))
    requires WellFormed(g) && k <= 9 && p in Counted(g, r, c, k)
    ensures -1 <= p.0 - r <= 1 && -1 <= p.1 - c <= 1 && p != (r, c) && 0 <= Slot(r, c, p) < k
    ensures IsRoll(g, p.0, p.1)
  {
    if p !in Counted(g, r, c, k - 1) {
      assert Hit(g, r, c, k - 1) && p == Reach(r, c, k - 1);
    } else {
      CountedInside(g, r, c, k - 1, p);
    }
  }

  /** Every hit among the first `k` offsets is counted. */
  lemma {:induction false} CountedComplete(g: Grid, r: int, c: int, k: nat, i: nat)
    requires WellFormed(g) && i < k <= 9 && Hit(g, r, c, i)
    ensures Reach(r, c, i) in Counted(g, r, c, k)
  {
    if i < k - 1 {
      CountedComplete(g, r, c, k - 1, i);
    }
  }

  /** No cell is counted twice, so the set has as many cells as the tally. */
  lemma {:induction false} CountedSize(g: Grid, r: int, c: int, k: nat)
    requires WellFormed(g) && k <= 9
    ensures |Counted(g, r, c, k)| == Tally(g, r, c, k)
  {
    if k > 0 {
      CountedSize(g, r, c, k - 1);
      if Hit(g, r, c, k - 1) {
        var q := Reach(r, c, k - 1);
        if q in Counted(g, r, c, k - 1) {
          CountedInside(g, r, c, k - 1, q);
          assert false;
        }
      }
    }
  }

  /**
   * `neighbor_count` is the number of rolls among the in-bounds cells of the 3 x 3 block
   * minus its centre, so it lies in 0..8.
   */
  lemma NeighboursAreCells(g: Grid, r: int, c: int)
    requires WellFormed(g)
    ensures Neighbours(g, r, c) == |NeighbourCells(g, r, c)|
    ensures Neighbours(g, r, c) <= 8
  {
    CountedSize(g, r, c, 9);
    CellsCounted(g, r, c);
    CountedCells(g, r, c);
    assert Counted(g, r, c, 9) == NeighbourCells(g, r, c);
    TallyBound(g, r, c, 9);
  }

  lemma CellsCounted(g: Grid, r: int, c: int)
    requires WellFormed(g)
    ensures NeighbourCells(g, r, c) <= Counted(g, r, c, 9)
  {
    forall p | p in NeighbourCells(g, r, c)
      ensures p in Counted(g, r, c, 9)
    {
      var d := (p.0 - r, p.1 - c);
      var i := 3 * (d.0 + 1) + (d.1 + 1);
      DeltaAt(d.0 + 1, d.1 + 1);
      assert Hit(g, r, c, i);
      CountedComplete(g, r, c, 9, i);
    }
  }

  lemma CountedCells(g: Grid, r: int, c: int)
    requires WellFormed(g)
    ensures Counted(g, r, c, 9) <= NeighbourCells(g, r, c)
  {
    forall p | p in Counted(g, r, c, 9)
      ensures p in NeighbourCells(g, r, c)
    {
      CountedInside(g, r, c, 9, p);
      var d := (p.0 - r, p.1 - c);
      assert d in Offsets;
    }
  }

  lemma {:induction false} TallyBound(g: Grid, r: int, c: int, k: nat)
    requires WellFormed(g) && k <= 9
    ensures Tally(g, r, c, k) <= if k >= 5 then k - 1 else k
  {
    if k > 0 {
      TallyBound(g, r, c, k - 1);
      if k == 5 {
        assert !Hit(g, r, c, 4);
      }
    }
  }

  /** The neighbour-count block of the scans: two loops over `[-1, 0, 1]`. */
  method CountNeighbours(g: Grid, r: int, c: int) returns (count: nat)
    requires WellFormed(g)
    ensures count == Neighbours(g, r, c)
  {
    count := 0;
    for i := 0 to 3
      invariant count == Tally(g, r, c, 3 * i)
    {
      for j := 0 to 3
        invariant count == Tally(g, r, c, 3 * i + j)
      {
        var dr, dc := i - 1, j - 1;
        DeltaAt(i, j);
        assert Reach(r, c, 3 * i + j) == (r + dr, c + dc);
        if dr == 0 && dc == 0 {
          continue;
        }
        var nr, nc := r + dr, c + dc;
        if 0 <= nr < |g| && 0 <= nc < Cols(g) {
          if g[nr][nc] == '@' {
            count := count + 1;
          }
        }
      }
    }
  }

  // ---------------------------------------------------------------------------------------
  // The rolls in row-major order.

  /** A roll and its neighbour count: `(r, c, neighbor_count)`. */
  datatype Reading = Reading(row: nat, col: nat, count: nat)

  /** The rolls of row `r` left of column `c`, each with its count. */
  function RowCensus(g: Grid, r: nat, c: nat): (s: seq<Reading>)
    requires WellFormed(g) && r < |g| && c <= Cols(g)
  {
    if c == 0 then []
    else
      RowCensus(g, r, c - 1)
        + (if g[r][c - 1] == '@' then [Reading(r, c - 1, Neighbours(g, r, c - 1))] else [])
  }

  /** The rolls of the rows above row `r`, in row-major order. */
  function Census(g: Grid, r: nat): (s: seq<Reading>)
    requires WellFormed(g) && r <= |g|
  {
    if r == 0 then [] else Census(g, r - 1) + RowCensus(g, r - 1, Cols(g))
  }

  /** The readings with fewer than 4 neighbours, in order. */
  function Accessibles(s: seq<Reading>): (t: seq<Reading>)
    ensures |t| <= |s|
  {
    if s == [] then []
    else Accessibles(s[..|s| - 1]) + (if s[|s| - 1].count < 4 then [s[|s| - 1]] else [])
  }

  /** `rom_data`: 1 for a reading with fewer than 4 neighbours, else 0. */
  function RomBits(s: seq<Reading>): (bits: seq<nat>)
    ensures |bits| == |s|
  {
    if s == [] then []
    else RomBits(s[..|s| - 1]) + [if s[|s| - 1].count < 4 then 1 else 0]
  }

  /** All rolls of the grid. */
  function Rolls(g: Grid): seq<Reading>
    requires WellFormed(g)
  {
    Census(g, |g|)
  }

  /** The accessible rolls, in the order the scans find them. */
  function Found(g: Grid): seq<Reading>
    requires WellFormed(g)
  {
    Accessibles(Rolls(g))
  }

  /** A roll with fewer than 4 neighbouring rolls. */
  predicate Accessible(g: Grid, r: int, c: int)
    requires WellFormed(g)
  {
    IsRoll(g, r, c) && Neighbours(g, r, c) < 4
  }

  /** Row-major order: strictly earlier row, or the same row and an earlier column. */
  predicate Before(a: Reading, b: Reading)
  {
    a.row < b.row || (a.row == b.row && a.col < b.col)
  }

  predicate RowMajor(s: seq<Reading>)
  {
    forall i, j | 0 <= i < j < |s| :: Before(s[i], s[j])
  }

  lemma {:induction false} RowCensusMembers(g: Grid, r: nat, c: nat, x: Reading)
    requires WellFormed(g) && r < |g| && c <= Cols(g)
    ensures x in RowCensus(g, r, c) <==>
      x.row == r && x.col < c && g[r][x.col] == '@' && x.count == Neighbours(g, r, x.col)
  {
    if c > 0 {
      RowCensusMembers(g, r, c - 1, x);
    }
  }

  /**
   * A reading is in the census of the rows above `r` exactly when it names a roll there
   * and carries that roll's neighbour count.
   */
  lemma CensusMembers(g: Grid, r: nat, x: Reading)
    requires WellFormed(g) && r <= |g|
    ensures x in Census(g, r) <==>
      x.row < r && x.col < Cols(g) && g[x.row][x.col] == '@'
      && x.count == Neighbours(g, x.row, x.col)
  {
    if x in Census(g, r) {
      CensusSound(g, r, x);
    }
    if x.row < r && x.col < Cols(g) && g[x.row][x.col] == '@' && x.count == Neighbours(g, x.row, x.col) {
      CensusComplete(g, r, x);
    }
  }

  lemma {:induction false} CensusSound(g: Grid, r: nat, x: Reading)
    requires WellFormed(g) && r <= |g| && x in Census(g, r)
    ensures x.row < r && x.col < Cols(g) && g[x.row][x.col] == '@'
    ensures x.count == Neighbours(g, x.row, x.col)
  {
    CensusSplit(g, r, x);
    if x in Census(g, r - 1) {
      CensusSound(g, r - 1, x);
    } else {
      RowCensusMembers(g, r - 1, Cols(g), x);
    }
  }

  lemma {:induction false} CensusComplete(g: Grid, r: nat, x: Reading)
    requires WellFormed(g) && x.row < r <= |g| && x.col < Cols(g)
    requires g[x.row][x.col] == '@' && x.count == Neighbours(g, x.row, x.col)
    ensures x in Census(g, r)
  {
    CensusSplit(g, r, x);
    if x.row == r - 1 {
      RowCensusMembers(g, r - 1, Cols(g), x);
    } else {
      CensusComplete(g, r - 1, x);
    }
  }

  lemma RowCensusRow(g: Grid, r: nat, c: nat, x: Reading)
    requires WellFormed(g) && r < |g| && c <= Cols(g) && x.row != r
    ensures x !in RowCensus(g, r, c)
  {
    RowCensusMembers(g, r, c, x);
  }

  lemma CensusSplit(g: Grid, r: nat, x: Reading)
    requires WellFormed(g) && 0 < r <= |g|
    ensures x in Census(g, r) <==> x in Census(g, r - 1) || x in RowCensus(g, r - 1, Cols(g))
  {
    var a, b := Census(g, r - 1), RowCensus(g, r - 1, Cols(g));
    assert Census(g, r) == a + b;
  }

  lemma AppendOrdered(a: seq<Reading>, b: seq<Reading>)
    requires RowMajor(a) && RowMajor(b)
    requires forall i, j | 0 <= i < |a| && 0 <= j < |b| :: Before(a[i], b[j])
    ensures RowMajor(a + b)
  {
  }

  lemma {:induction false} RowCensusOrdered(g: Grid, r: nat, c: nat)
    requires WellFormed(g) && r < |g| && c <= Cols(g)
    ensures RowMajor(RowCensus(g, r, c))
  {
    if c > 0 {
      RowCensusOrdered(g, r, c - 1);
      var prev := RowCensus(g, r, c - 1);
      forall i | 0 <= i < |prev|
        ensures prev[i].row == r && prev[i].col < c - 1
      {
        RowCensusMembers(g, r, c - 1, prev[i]);
      }
      if g[r][c - 1] == '@' {
        AppendOrdered(prev, [Reading(r, c - 1, Neighbours(g, r, c - 1))]);
      }
    }
  }

  /** The census is in row-major order. */
  lemma {:induction false} CensusOrdered(g: Grid, r: nat)
    requires WellFormed(g) && r <= |g|
    ensures RowMajor(Census(g, r))
  {
    if r > 0 {
      CensusOrdered(g, r - 1);
      RowCensusOrdered(g, r - 1, Cols(g));
      var a, b := Census(g, r - 1), RowCensus(g, r - 1, Cols(g));
      forall i | 0 <= i < |a|
        ensures a[i].row < r - 1
      {
        CensusMembers(g, r - 1, a[i]);
      }
      forall j | 0 <= j < |b|
        ensures b[j].row == r - 1
      {
        RowCensusMembers(g, r - 1, Cols(g), b[j]);
      }
      AppendOrdered(a, b);
    }
  }

  lemma AccessiblesSnoc(s: seq<Reading>, y: Reading)
    ensures Accessibles(s + [y]) == Accessibles(s) + (if y.count < 4 then [y] else [])
    ensures RomBits(s + [y]) == RomBits(s) + [if y.count < 4 then 1 else 0]
  {
    assert (s + [y])[..|s|] == s;
  }

  /** What one more roll adds to the scan's outputs. */
  lemma Extend(found0: seq<Reading>, rom0: seq<nat>, seen: seq<Reading>, y: Reading)
    ensures found0 + Accessibles(seen + [y]) == found0 + Accessibles(seen) + (if y.count < 4 then [y] else [])
    ensures rom0 + RomBits(seen + [y]) == rom0 + RomBits(seen) + [if y.count < 4 then 1 else 0]
  {
    AccessiblesSnoc(seen, y);
    var a, t := Accessibles(seen), if y.count < 4 then [y] else [];
    Associative(found0, a, t);
    Associative(rom0, RomBits(seen), [if y.count < 4 then 1 else 0]);
  }

  lemma Associative<T>(a: seq<T>, b: seq<T>, c: seq<T>)
    ensures a + (b + c) == a + b + c
  {
  }

  /** Filtering and mapping a concatenation works piece by piece. */
  lemma AccessiblesAppend(a: seq<Reading>, b: seq<Reading>)
    ensures Accessibles(a + b) == Accessibles(a) + Accessibles(b)
    ensures RomBits(a + b) == RomBits(a) + RomBits(b)
  {
    FilterAppend(a, b);
    BitsAppend(a, b);
  }

  lemma {:induction false} FilterAppend(a: seq<Reading>, b: seq<Reading>)
    ensures Accessibles(a + b) == Accessibles(a) + Accessibles(b)
  {
    if b == [] {
      assert a + b == a;
    } else {
      var p, y := b[..|b| - 1], b[|b| - 1];
      var t := if y.count < 4 then [y] else [];
      FilterAppend(a, p);
      assert a + b == (a + p) + [y];
      AccessiblesSnoc(a + p, y);
      assert b == p + [y];
      AccessiblesSnoc(p, y);
      Associative(Accessibles(a), Accessibles(p), t);
    }
  }

  lemma {:induction false} BitsAppend(a: seq<Reading>, b: seq<Reading>)
    ensures RomBits(a + b) == RomBits(a) + RomBits(b)
  {
    if b == [] {
      assert a + b == a;
    } else {
      var p, y := b[..|b| - 1], b[|b| - 1];
      var t := [if y.count < 4 then 1 else 0];
      BitsAppend(a, p);
      assert a + b == (a + p) + [y];
      AccessiblesSnoc(a + p, y);
      assert b == p + [y];
      AccessiblesSnoc(p, y);
      Associative(RomBits(a), RomBits(p), t);
    }
  }

  lemma {:induction false} AccessiblesMembers(s: seq<Reading>, x: Reading)
    ensures x in Accessibles(s) <==> x in s && x.count < 4
  {
    if s != [] {
      AccessiblesMembers(s[..|s| - 1], x);
      assert s == s[..|s| - 1] + [s[|s| - 1]];
    }
  }

  /** Keeping some readings keeps the row-major order. */
  lemma {:induction false} AccessiblesOrdered(s: seq<Reading>)
    requires RowMajor(s)
    ensures RowMajor(Accessibles(s))
  {
    if s != [] {
      var p, y := s[..|s| - 1], s[|s| - 1];
      assert RowMajor(p);
      AccessiblesOrdered(p);
      if y.count < 4 {
        var a := Accessibles(p);
        forall i | 0 <= i < |a|
          ensures Before(a[i], y)
        {
          AccessiblesMembers(p, a[i]);
          var k :| 0 <= k < |p| && p[k] == a[i];
          assert s[k] == p[k];
        }
        AppendOrdered(a, [y]);
      }
    }
  }

  /** `sum(rom_data)` is the number of accessible readings. */
  lemma {:induction false} RomBitsSum(s: seq<Reading>)
    ensures Sum(RomBits(s)) == |Accessibles(s)|
  {
    if s != [] {
      var p := s[..|s| - 1];
      RomBitsSum(p);
      SumAppend(RomBits(p), [if s[|s| - 1].count < 4 then 1 else 0]);
    }
  }

  /**
   * The accessible rolls in the order the scans find them: exactly the rolls with fewer
   * than 4 neighbouring rolls, each with its count, in row-major order.
   */
  lemma FoundIsAccessible(g: Grid, x: Reading)
    requires WellFormed(g)
    ensures x in Found(g) <==> Accessible(g, x.row, x.col) && x.count == Neighbours(g, x.row, x.col)
    ensures RowMajor(Found(g))
  {
    CensusMembers(g, |g|, x);
    AccessiblesMembers(Rolls(g), x);
    CensusOrdered(g, |g|);
    AccessiblesOrdered(Rolls(g));
  }

  // ---------------------------------------------------------------------------------------
  // The row-by-row scan.

  /**
   * The scan every Day 4 script runs: each roll in row-major order, its neighbours counted,
   * an accessible one added to `found` and counted, and one ROM bit per roll.
   */
  method Scan(g: Grid) returns (count: nat, found: seq<Reading>, rom: seq<nat>)
    requires WellFormed(g)
    ensures found == Found(g) && count == |found|
    ensures rom == RomBits(Rolls(g))
  {
    count, found, rom := 0, [], [];
    for r := 0 to |g|
      invariant found == Accessibles(Census(g, r)) && count == |found|
      invariant rom == RomBits(Census(g, r))
    {
      count, found, rom := ScanRow(g, r, count, found, rom);
    }
  }

  /** One row of the scan: the inner loop over the columns. */
  method ScanRow(g: Grid, r: nat, count0: nat, found0: seq<Reading>, rom0: seq<nat>)
    returns (count: nat, found: seq<Reading>, rom: seq<nat>)
    requires WellFormed(g) && r < |g|
    requires found0 == Accessibles(Census(g, r)) && count0 == |found0|
    requires rom0 == RomBits(Census(g, r))
    ensures found == Accessibles(Census(g, r + 1)) && count == |found|
    ensures rom == RomBits(Census(g, r + 1))
  {
    count, found, rom := count0, found0, rom0;
    for c := 0 to Cols(g)
      invariant found == found0 + Accessibles(RowCensus(g, r, c)) && count == |found|
      invariant rom == rom0 + RomBits(RowCensus(g, r, c))
    {
      ghost var seen := RowCensus(g, r, c);
      if g[r][c] != '@' {
        assert seen + [] == seen;
        continue;
      }
      var n := CountNeighbours(g, r, c);
      Extend(found0, rom0, seen, Reading(r, c, n));
      if n < 4 {
        count := count + 1;
        found := found + [Reading(r, c, n)];
        rom := rom + [1];
      } else {
        rom := rom + [0];
      }
    }
    AccessiblesAppend(Census(g, r), RowCensus(g, r, Cols(g)));
  }

  // ---------------------------------------------------------------------------------------
  // One round of `solve_part2`.

  /** The grid after every accessible roll of `g` has been set to `'.'` at once. */
  function Peeled(g: Grid): (h: Grid)
    requires WellFormed(g)
    ensures |h| == |g| && forall r | 0 <= r < |g| :: |h[r]| == |g[r]|
  {
    seq(|g|, r requires 0 <= r < |g| =>
      seq(|g[r]|, c requires 0 <= c < |g[r]| =>
        if Accessible(g, r, c) then '.' else g[r][c]))
  }

  /** `h` is `g` with some rolls turned into `'.'` and nothing else changed. */
  predicate Below(h: Grid, g: Grid)
  {
    |h| == |g| && (forall r | 0 <= r < |g| :: |h[r]| == |g[r]|)
    && forall r, c | 0 <= r < |g| && 0 <= c < |g[r]| ::
      h[r][c] == g[r][c] || (g[r][c] == '@' && h[r][c] == '.')
  }

  /** The number of rolls. */
  function RollCount(g: Grid): nat
    requires WellFormed(g)
  {
    |Rolls(g)|
  }

  /** `h` is `g` after one round: each accessible roll set to `'.'`, every other cell kept. */
  predicate Removes(h: Grid, g: Grid)
  {
    WellFormed(g) && |h| == |g| && (forall r | 0 <= r < |g| :: |h[r]| == |g[r]|)
    && forall r, c | 0 <= r < |g| && 0 <= c < |g[r]| ::
      h[r][c] == if Accessible(g, r, c) then '.' else g[r][c]
  }

  lemma PeeledRemoves(g: Grid)
    requires WellFormed(g)
    ensures Removes(Peeled(g), g)
  {
  }

  lemma RemovesShape(h: Grid, g: Grid)
    requires Removes(h, g)
    ensures WellFormed(h) && Cols(h) == Cols(g)
  {
  }

  /** The round keeps the shape and only turns rolls into `'.'`. */
  lemma PeeledBelow(g: Grid)
    requires WellFormed(g)
    ensures WellFormed(Peeled(g)) && Cols(Peeled(g)) == Cols(g)
    ensures Below(Peeled(g), g)
  {
  }

  /** In row `r`, left of column `c`, the round removes exactly the accessible rolls. */
  lemma {:induction false} PeeledRow(h: Grid, g: Grid, r: nat, c: nat)
    requires Removes(h, g) && r < |g| && c <= Cols(g)
    ensures WellFormed(h) && Cols(h) == Cols(g)
    ensures |RowCensus(h, r, c)| + |Accessibles(RowCensus(g, r, c))| == |RowCensus(g, r, c)|
  {
    RemovesShape(h, g);
    if c > 0 {
      PeeledRow(h, g, r, c - 1);
      var before, after := RowCensus(g, r, c - 1), RowCensus(h, r, c - 1);
      if g[r][c - 1] == '@' {
        var y := Reading(r, c - 1, Neighbours(g, r, c - 1));
        AccessiblesSnoc(before, y);
        assert RowCensus(g, r, c) == before + [y];
        if Neighbours(g, r, c - 1) < 4 {
          assert after + [] == after;
          assert RowCensus(h, r, c) == after;
        } else {
          assert |RowCensus(h, r, c)| == |after| + 1;
        }
      } else {
        assert after + [] == after && before + [] == before;
        assert RowCensus(h, r, c) == after;
        assert RowCensus(g, r, c) == before;
      }
    }
  }

  /** Above row `r`, the round removes exactly the accessible rolls. */
  lemma PeeledRows(h: Grid, g: Grid, r: nat)
    requires Removes(h, g) && r <= |g|
    ensures WellFormed(h) && Cols(h) == Cols(g)
    ensures |Census(h, r)| + |Accessibles(Census(g, r))| == |Census(g, r)|
  {
    RemovesShape(h, g);
    forall k | 0 <= k < r
      ensures RowBalance(h, g, k)
    {
      PeeledRow(h, g, k, Cols(g));
    }
    CensusBalance(h, g, r);
  }

  /** Row `k` of `h` keeps the rolls of row `k` of `g` that are not accessible. */
  predicate RowBalance(h: Grid, g: Grid, k: nat)
    requires WellFormed(h) && WellFormed(g) && Cols(h) == Cols(g) && k < |g| == |h|
  {
    |RowCensus(h, k, Cols(g))| + |Accessibles(RowCensus(g, k, Cols(g)))| == |RowCensus(g, k, Cols(g))|
  }

  lemma {:induction false} CensusBalance(h: Grid, g: Grid, r: nat)
    requires WellFormed(h) && WellFormed(g) && Cols(h) == Cols(g) && r <= |g| == |h|
    requires forall k | 0 <= k < r :: RowBalance(h, g, k)
    ensures |Census(h, r)| + |Accessibles(Census(g, r))| == |Census(g, r)|
  {
    if r > 0 {
      CensusBalance(h, g, r - 1);
      assert RowBalance(h, g, r - 1);
      var a, b := Census(g, r - 1), RowCensus(g, r - 1, Cols(g));
      assert Census(g, r) == a + b;
      assert |Census(h, r)| == |Census(h, r - 1)| + |RowCensus(h, r - 1, Cols(g))|;
      AccessiblesAppend(a, b);
      assert |Accessibles(a + b)| == |Accessibles(a)| + |Accessibles(b)|;
    }
  }

  /** A round removes `len(to_remove)` rolls: at least one, unless nothing is accessible. */
  lemma PeelShrinks(g: Grid)
    requires WellFormed(g)
    ensures WellFormed(Peeled(g)) && Cols(Peeled(g)) == Cols(g)
    ensures RollCount(Peeled(g)) + |Found(g)| == RollCount(g)
  {
    PeeledRemoves(g);
    PeeledRows(Peeled(g), g, |g|);
  }
}
