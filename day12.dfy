/**
 * Day 12 packing feasibility (`can_fit`): can the requested presents be laid on a w x h
 * region without overlap? Each orientation of a present becomes a bit mask with row stride
 * `w`, shifted over the board at search time; the backtracking search `place` tries every
 * orientation at every shift that keeps it inside the board.
 *
 * A mask is the set of its one bits: `a & b == 0` is `a !! b`, `a | b` is `a + b` and
 * `a << s` adds `s` to every element.
 */
module Day12 {
  import opened Common
  import opened Bits
  import opened Sorting
  import opened Day12Shapes

  // ----- get_variations -----

  /** The nested loop that builds the quarter turn of `curr` column by column. */
  method RotateGrid(g: Grid) returns (t: Grid)
    requires WellFormed(g)
    ensures t == Rotate(g)
  {
    var H, W := |g|, |g[0]|;
    t := [];
    var c := 0;
    while c < W
      invariant 0 <= c <= W && |t| == c
      invariant forall j :: 0 <= j < c ==> t[j] == Rotate(g)[j]
    {
      var row: seq<bool> := [];
      var r := H - 1;
      while r >= 0
        invariant -1 <= r <= H - 1 && |row| == H - 1 - r
        invariant forall i :: 0 <= i < |row| ==> row[i] == g[H - 1 - i][c]
      {
        row := row + [g[r][c]];
        r := r - 1;
      }
      assert row == Rotate(g)[c];
      t := t + [row];
      c := c + 1;
    }
  }

  /** The first `n` turns of `base`, as a set. */
  function FirstTurns(base: Grid, n: nat): set<Grid>
    requires WellFormed(base)
  {
    if n == 0 then {} else FirstTurns(base, n - 1) + {Turns(base, n - 1)}
  }

  lemma FirstFour(base: Grid)
    requires WellFormed(base)
    ensures FirstTurns(base, 4) == {Turns(base, 0), Turns(base, 1), Turns(base, 2), Turns(base, 3)}
  {
    assert FirstTurns(base, 1) == {Turns(base, 0)};
    assert FirstTurns(base, 2) == {Turns(base, 0), Turns(base, 1)};
    assert FirstTurns(base, 3) == {Turns(base, 0), Turns(base, 1), Turns(base, 2)};
  }

  /**
   * `list(vars)`: the distinct elements of a set in some order. Python leaves the order of
   * a set's iteration unspecified, so the choice of the next element is left open.
   */
  method ListOfSet<T(==)>(s: set<T>) returns (xs: seq<T>)
    ensures (set x | x in xs) == s && |xs| == |s|
    ensures forall i, j :: 0 <= i < j < |xs| ==> xs[i] != xs[j]
  {
    xs := [];
    var rest := s;
    while rest != {}
      invariant rest <= s && |xs| + |rest| == |s|
      invariant forall x :: x in s ==> (x in rest <==> x !in xs)
      invariant forall x :: x in xs ==> x in s
      invariant forall i, j :: 0 <= i < j < |xs| ==> xs[i] != xs[j]
      decreases |rest|
    {
      var x :| x in rest;
      xs := xs + [x];
      rest := rest - {x};
    }
  }

  /** One pass of `get_variations`: add the grid and turn it, four times. */
  method CollectTurns(base: Grid, found: set<Grid>) returns (found': set<Grid>, curr: Grid)
    requires WellFormed(base)
    ensures found' == found + FirstTurns(base, 4) && curr == Turns(base, 4)
  {
    found' := found;
    curr := base;
    var turn := 0;
    while turn < 4
      invariant 0 <= turn <= 4
      invariant curr == Turns(base, turn)
      invariant found' == found + FirstTurns(base, turn)
    {
      found' := found' + {curr};
      curr := RotateGrid(curr);
      turn := turn + 1;
    }
  }

  /**
   * `get_variations`: four quarter turns of the shape, a row flip, four more turns; each
   * grid met is kept once. The result holds every orientation exactly once, at most eight.
   */
  method GetVariations(g: Grid) returns (vs: seq<Grid>)
    requires WellFormed(g)
    ensures (set v | v in vs) == Orientations(g)
    ensures forall i, j :: 0 <= i < j < |vs| ==> vs[i] != vs[j]
    ensures |vs| <= 8
  {
    var found: set<Grid> := {};
    var curr := g;
    var pass := 0;
    while pass < 2
      invariant 0 <= pass <= 2
      invariant pass == 0 ==> curr == g && found == {}
      invariant pass == 1 ==> curr == Flipped(g) && found == FirstTurns(g, 4)
      invariant pass == 2 ==> found == FirstTurns(g, 4) + FirstTurns(Flipped(g), 4)
    {
      found, curr := CollectTurns(curr, found);
      curr := Flip(curr);
      pass := pass + 1;
    }
    FirstFour(g);
    FirstFour(Flipped(g));
    vs := ListOfSet(found);
    OrientationsAtMostEight(g);
  }

  // ----- masks -----

  /** One orientation as the search uses it: `(base_mask, vh, vw)`. */
  datatype Orient = Orient(bits: set<nat>, vh: nat, vw: nat)

  /** The bits `base + c` of the filled cells among the first `n` of a row. */
  function RowBits(row: seq<bool>, base: nat, n: nat): set<nat>
    requires n <= |row|
  {
    if n == 0 then {} else RowBits(row, base, n - 1) + (if row[n - 1] then {base + n - 1} else {})
  }

  /** The bits of the first `k` rows, row `r` starting at bit `r * w`, `vw` columns each. */
  function MaskRows(v: Grid, w: nat, k: nat): set<nat>
    requires WellFormed(v) && k <= |v|
  {
    if k == 0 then {} else MaskRows(v, w, k - 1) + RowBits(v[k - 1], (k - 1) * w, |v[0]|)
  }

  /** `base_mask`: bit `r * w + c` for each filled cell (r, c) with `c < len(v[0])`. */
  function BaseMask(v: Grid, w: nat): set<nat>
    requires WellFormed(v)
  {
    MaskRows(v, w, |v|)
  }

  /** The nested loop that ORs one bit per filled cell into `base_mask`. */
  method BuildMask(v: Grid, w: nat) returns (o: Orient)
    requires WellFormed(v)
    ensures o == Orient(BaseMask(v, w), |v|, |v[0]|)
  {
    var vh, vw := |v|, |v[0]|;
    var mask: set<nat> := {};
    var r := 0;
    while r < vh
      invariant 0 <= r <= vh && mask == MaskRows(v, w, r)
    {
      var c := 0;
      while c < vw
        invariant 0 <= c <= vw && mask == MaskRows(v, w, r) + RowBits(v[r], r * w, c)
      {
        if v[r][c] {
          mask := mask + {r * w + c};
        }
        c := c + 1;
      }
      r := r + 1;
    }
    o := Orient(mask, vh, vw);
  }

  lemma {:induction false} RowBitsMembers(row: seq<bool>, base: nat, n: nat, x: nat)
    requires n <= |row|
    ensures x in RowBits(row, base, n) <==> base <= x < base + n && row[x - base]
  {
    if n > 0 {
      RowBitsMembers(row, base, n - 1, x);
    }
  }

  /** Row `q` and column `c < w` of bit `q * w + c`. */
  lemma RowCol(x: nat, w: nat, q: nat, c: nat)
    requires c < w && x == q * w + c
    ensures x / w == q && x % w == c
  {
    DivModUnique(x, w, q, c);
  }

  /**
   * When the orientation is no wider than the board, bit `x` of the base mask is set
   * exactly when (x / w, x % w) is a filled cell of the orientation.
   */
  lemma {:induction false} MaskRowsMembers(v: Grid, w: nat, k: nat, x: nat)
    requires WellFormed(v) && k <= |v| && |v[0]| <= w
    ensures x in MaskRows(v, w, k) <==> x / w < k && x % w < |v[0]| && v[x / w][x % w]
  {
    if k > 0 {
      MaskRowsMembers(v, w, k - 1, x);
      RowBitsMembers(v[k - 1], (k - 1) * w, |v[0]|, x);
      RowBand(x, w, k - 1, |v[0]|);
    } else {
      RowBand(x, w, 0, |v[0]|);
    }
  }

  /** Bit `x` lies in the first `n` bits of row `q` exactly when its row is `q` and its column is below `n`. */
  lemma RowBand(x: nat, w: nat, q: nat, n: nat)
    requires 0 < n <= w
    ensures q * w <= x < q * w + n <==> x / w == q && x % w < n
    ensures q * w <= x < q * w + n ==> x - q * w == x % w
  {
    assert x == (x / w) * w + x % w;
    if q * w <= x < q * w + n {
      RowCol(x, w, q, x - q * w);
    }
  }

  /** The popcount of a base mask is the orientation's area when it fits the board's width. */
  lemma BaseMaskArea(v: Grid, w: nat)
    requires Rect(v) && |v[0]| <= w
    ensures |BaseMask(v, w)| == Area(v)
  {
    var f: ((nat, nat)) --> nat := (p: (nat, nat)) => p.0 * w + p.1;
    forall p | p in Cells(v) ensures f(p) in BaseMask(v, w) {
      RowCol(f(p), w, p.0, p.1);
      MaskRowsMembers(v, w, |v|, f(p));
    }
    forall x | x in BaseMask(v, w) ensures exists p :: p in Cells(v) && f(p) == x {
      MaskRowsMembers(v, w, |v|, x);
      var p := (x / w, x % w);
      assert p in Cells(v) && f(p) == x;
    }
    forall p, q | p in Cells(v) && q in Cells(v) && f(p) == f(q) ensures p == q {
      RowCol(f(p), w, p.0, p.1);
      RowCol(f(q), w, q.0, q.1);
    }
    InjectiveImage(Cells(v), BaseMask(v, w), f);
    AreaIsCellCount(v);
  }

  /** `base_mask << shift` */
  function Shift(bits: set<nat>, s: nat): set<nat>
  {
    set b | b in bits :: b + s
  }

  /** The shift test of `place`: a shift below `w * h` with `r + vh <= h` and `c + vw <= w`. */
  predicate Fits(o: Orient, s: nat, w: nat, h: nat)
  {
    w > 0 && s < w * h && s / w + o.vh <= h && s % w + o.vw <= w
  }

  /** Cell `x` of the board is cell (x/w - r0, x%w - c0) of `v` placed with its corner at (r0, c0). */
  predicate Covers(v: Grid, w: nat, r0: nat, c0: nat, x: nat)
    requires WellFormed(v)
  {
    w > 0 && r0 <= x / w < r0 + |v| && c0 <= x % w < c0 + |v[0]| && v[x / w - r0][x % w - c0]
  }

  /**
   * A shift that passes the test puts the orientation on the board without wrapping across
   * rows: the shifted mask is exactly the orientation's filled cells with their corner at
   * (shift // w, shift % w), and every bit is below `w * h`.
   */
  lemma ShiftedMask(v: Grid, w: nat, h: nat, s: nat)
    requires WellFormed(v) && Fits(Orient(BaseMask(v, w), |v|, |v[0]|), s, w, h)
    ensures forall x :: x in Shift(BaseMask(v, w), s) <==> Covers(v, w, s / w, s % w, x)
    ensures forall x :: x in Shift(BaseMask(v, w), s) ==> x < w * h
  {
    forall x: nat ensures x in Shift(BaseMask(v, w), s) <==> Covers(v, w, s / w, s % w, x) {
      if x in Shift(BaseMask(v, w), s) {
        ShiftedBitCovers(v, w, h, s, x);
      }
      if Covers(v, w, s / w, s % w, x) {
        CoveredBitShifted(v, w, h, s, x);
      }
    }
    forall x | x in Shift(BaseMask(v, w), s) ensures x < w * h {
      ShiftedBitCovers(v, w, h, s, x);
      assert x / w + 1 <= h;
      assert x == (x / w) * w + x % w;
      MulMonotone(x / w + 1, h, w);
    }
  }

  lemma ShiftedBitCovers(v: Grid, w: nat, h: nat, s: nat, x: nat)
    requires WellFormed(v) && Fits(Orient(BaseMask(v, w), |v|, |v[0]|), s, w, h)
    requires x in Shift(BaseMask(v, w), s)
    ensures Covers(v, w, s / w, s % w, x)
  {
    var b := x - s;
    assert b in BaseMask(v, w);
    MaskRowsMembers(v, w, |v|, b);
    AddRowCol(s, b, w);
  }

  /** Adding `b` to `s` adds row to row and column to column when the columns do not carry. */
  lemma AddRowCol(s: nat, b: nat, w: nat)
    requires w > 0 && s % w + b % w < w
    ensures (s + b) / w == s / w + b / w && (s + b) % w == s % w + b % w
  {
    assert s == (s / w) * w + s % w;
    assert b == (b / w) * w + b % w;
    RowCol(s + b, w, s / w + b / w, s % w + b % w);
  }

  lemma CoveredBitShifted(v: Grid, w: nat, h: nat, s: nat, x: nat)
    requires WellFormed(v) && Fits(Orient(BaseMask(v, w), |v|, |v[0]|), s, w, h)
    requires Covers(v, w, s / w, s % w, x)
    ensures x in Shift(BaseMask(v, w), s)
  {
    var r0, c0 := s / w, s % w;
    var r, c := x / w - r0, x % w - c0;
    var b := r * w + c;
    assert x == s + b by {
      assert s == r0 * w + c0;
      assert x == (x / w) * w + x % w;
    }
    RowCol(b, w, r, c);
    MaskRowsMembers(v, w, |v|, b);
    assert b in BaseMask(v, w);
  }

  // ----- place -----

  /** What `place` closes over: the board size, each item's orientations and symmetry flags. */
  datatype Board = Board(w: nat, h: nat, masks: seq<seq<Orient>>, same: seq<bool>)
  {
    predicate Valid()
    {
      |masks| == |same|
    }
  }

  /** The choice made for one item: orientation `k` of its list, placed at `shift`. */
  datatype Choice = Choice(k: nat, shift: nat)

  /** The cells item `i` takes under choice `ch` (`base_mask << shift`). */
  function Footprint(b: Board, i: nat, ch: Choice): set<nat>
  {
    if i < |b.masks| && ch.k < |b.masks[i]| then Shift(b.masks[i][ch.k].bits, ch.shift) else {}
  }

  /** `start_pos`: past the previous item's shift when this item repeats it, else 0. */
  function Start(b: Board, i: nat, last: int): int
    requires b.Valid() && i < |b.masks|
  {
    if b.same[i] then last + 1 else 0
  }

  /** The tests `place` makes before recursing on choice `ch` for item `i`. */
  predicate Allowed(b: Board, i: nat, grid: set<nat>, last: int, ch: Choice)
    requires b.Valid()
  {
    i < |b.masks| && ch.k < |b.masks[i]| && Start(b, i, last) <= ch.shift
    && Fits(b.masks[i][ch.k], ch.shift, b.w, b.h) && grid !! Footprint(b, i, ch)
  }

  /** `chs` places items `i..` one after another the way `place` accepts them. */
  predicate Completes(b: Board, i: nat, grid: set<nat>, last: int, chs: seq<Choice>)
    requires b.Valid() && i <= |b.masks|
    decreases |b.masks| - i
  {
    if i == |b.masks| then chs == []
    else
      |chs| > 0 && Allowed(b, i, grid, last, chs[0])
      && Completes(b, i + 1, grid + Footprint(b, i, chs[0]), chs[0].shift, chs[1..])
  }

  /** Some sequence of choices places items `i..` from this state. */
  ghost predicate Finishable(b: Board, i: nat, grid: set<nat>, last: int)
    requires b.Valid() && i <= |b.masks|
  {
    exists chs :: Completes(b, i, grid, last, chs)
  }

  /** Choice `ch` for item `i` passes the tests and the remaining items can then be placed. */
  ghost predicate Leads(b: Board, i: nat, grid: set<nat>, last: int, ch: Choice)
    requires b.Valid() && i < |b.masks|
  {
    Allowed(b, i, grid, last, ch) && Finishable(b, i + 1, grid + Footprint(b, i, ch), ch.shift)
  }

  /**
   * `place(item_idx, current_grid_mask, last_pos)`: True exactly when some sequence of
   * choices for the remaining items passes every test of the search.
   */
  method Place(b: Board, i: nat, grid: set<nat>, last: int) returns (ok: bool)
    requires b.Valid() && i <= |b.masks| && last >= -1
    ensures ok <==> Finishable(b, i, grid, last)
    decreases |b.masks| - i
  {
    if i >= |b.masks| {
      assert Completes(b, i, grid, last, []);
      return true;
    }
    var start := if b.same[i] then last + 1 else 0;
    var options := b.masks[i];
    var k := 0;
    while k < |options|
      invariant 0 <= k <= |options|
      invariant forall ch: Choice :: ch.k < k ==> !Leads(b, i, grid, last, ch)
    {
      var o := options[k];
      var shift := start;
      while shift < b.w * b.h
        invariant start <= shift
        invariant forall s: nat :: start <= s < shift ==> !Leads(b, i, grid, last, Choice(k, s))
      {
        var r, c := shift / b.w, shift % b.w;
        if r + o.vh > b.h || c + o.vw > b.w {
          shift := shift + 1;
          continue;
        }
        var m := Shift(o.bits, shift);
        if grid !! m {
          var sub := Place(b, i + 1, grid + m, shift);
          if sub {
            ghost var rest :| Completes(b, i + 1, grid + m, shift, rest);
            assert Completes(b, i, grid, last, [Choice(k, shift)] + rest);
            return true;
          }
        }
        shift := shift + 1;
      }
      forall ch: Choice | ch.k == k ensures !Leads(b, i, grid, last, ch) {
        if start <= ch.shift < b.w * b.h {
          assert !Leads(b, i, grid, last, Choice(k, ch.shift));
        }
      }
      k := k + 1;
    }
    forall chs ensures !Completes(b, i, grid, last, chs) {
      if |chs| > 0 && Allowed(b, i, grid, last, chs[0]) {
        assert !Leads(b, i, grid, last, chs[0]);
      }
    }
    ok := false;
  }

  /** The choice for item `i` passes the shift test of `place`. */
  predicate ChoiceFits(b: Board, i: nat, ch: Choice)
  {
    i < |b.masks| && ch.k < |b.masks[i]| && Fits(b.masks[i][ch.k], ch.shift, b.w, b.h)
  }

  /**
   * Soundness of the search: an accepted sequence of choices gives every remaining item an
   * orientation at a shift that passes the board test, the footprints are pairwise disjoint
   * and clear of the cells already taken, and an item flagged as repeating its predecessor
   * sits at a strictly larger shift.
   */
  lemma {:induction false} CompletesSound(b: Board, i: nat, grid: set<nat>, last: int, chs: seq<Choice>)
    requires b.Valid() && i <= |b.masks| && Completes(b, i, grid, last, chs)
    ensures |chs| == |b.masks| - i
    ensures forall j :: 0 <= j < |chs| ==> ChoiceFits(b, i + j, chs[j])
    ensures forall j :: 0 <= j < |chs| ==> grid !! Footprint(b, i + j, chs[j])
    ensures forall j1, j2 :: 0 <= j1 < j2 < |chs| ==>
      Footprint(b, i + j1, chs[j1]) !! Footprint(b, i + j2, chs[j2])
    ensures |chs| > 0 && b.same[i] ==> chs[0].shift > last
    ensures forall j :: 0 < j < |chs| && b.same[i + j] ==> chs[j].shift > chs[j - 1].shift
    decreases |b.masks| - i
  {
    if i < |b.masks| {
      var ch := chs[0];
      var rest := chs[1..];
      var grid' := grid + Footprint(b, i, ch);
      CompletesSound(b, i + 1, grid', ch.shift, rest);
      assert forall j :: 0 < j < |chs| ==> chs[j] == rest[j - 1];
      forall j1, j2 | 0 <= j1 < j2 < |chs|
        ensures Footprint(b, i + j1, chs[j1]) !! Footprint(b, i + j2, chs[j2])
      {
        if j1 > 0 {
          assert Footprint(b, i + 1 + (j1 - 1), rest[j1 - 1]) !! Footprint(b, i + 1 + (j2 - 1), rest[j2 - 1]);
        } else {
          assert grid' !! Footprint(b, i + 1 + (j2 - 1), rest[j2 - 1]);
        }
      }
      forall j | 0 < j < |chs| && b.same[i + j] ensures chs[j].shift > chs[j - 1].shift {
        if j > 1 {
          assert rest[j - 1].shift > rest[j - 2].shift;
        }
      }
    }
  }

  // ----- can_fit -----

  /** One entry of `to_place`: the shape's area and its orientation list. */
  datatype Piece = Piece(area: nat, vars: seq<Grid>)

  /** The sort key of `to_place.sort(key=lambda x: x[0], reverse=True)`: larger area first. */
  function LargerArea(a: Piece, b: Piece): bool
  {
    a.area > b.area
  }

  /** A requested shape is missing (`KeyError`) or cannot be turned (`IndexError`). */
  predicate Broken(items: seq<int>, shapes: map<int, Grid>)
  {
    exists idx :: 0 <= idx < |items| && items[idx] > 0 && (idx !in shapes || !WellFormed(shapes[idx]))
  }

  /** The shapes to place, in request order: `items[idx]` copies of shape `idx`. */
  function Demand(items: seq<int>, shapes: map<int, Grid>): (d: seq<Grid>)
  {
    if items == [] then []
    else
      var idx := |items| - 1;
      var cnt := items[idx];
      Demand(items[..idx], shapes) + (if cnt > 0 && idx in shapes then seq(cnt, _ => shapes[idx]) else [])
  }

  /** `total_area`: the sum of area times count over the requested shapes. */
  function TotalArea(items: seq<int>, shapes: map<int, Grid>): int
  {
    if items == [] then 0
    else
      var idx := |items| - 1;
      var cnt := items[idx];
      TotalArea(items[..idx], shapes) + (if cnt > 0 && idx in shapes then Area(shapes[idx]) * cnt else 0)
  }

  /** `p` is the `to_place` entry of shape `g`. */
  predicate Describes(p: Piece, g: Grid)
  {
    WellFormed(g) && p.area == Area(g) && (set v | v in p.vars) == Orientations(g)
  }

  /** One step of the request loop: what index `idx` adds to the demand, the total and the errors. */
  lemma RequestStep(items: seq<int>, shapes: map<int, Grid>, idx: nat)
    requires idx < |items|
    ensures var cnt := items[idx];
      Demand(items[..idx + 1], shapes)
        == Demand(items[..idx], shapes) + (if cnt > 0 && idx in shapes then seq(cnt, _ => shapes[idx]) else [])
    ensures var cnt := items[idx];
      TotalArea(items[..idx + 1], shapes)
        == TotalArea(items[..idx], shapes) + (if cnt > 0 && idx in shapes then Area(shapes[idx]) * cnt else 0)
    ensures Broken(items[..idx + 1], shapes)
      <==> Broken(items[..idx], shapes) || (items[idx] > 0 && (idx !in shapes || !WellFormed(shapes[idx])))
  {
    assert items[..idx + 1][..idx] == items[..idx];
    if Broken(items[..idx + 1], shapes) {
      var j :| 0 <= j < idx + 1 && items[..idx + 1][j] > 0
        && (j !in shapes || !WellFormed(shapes[j]));
      if j < idx {
        assert items[..idx][j] == items[j];
      }
    }
    if Broken(items[..idx], shapes) {
      var j :| 0 <= j < idx && items[..idx][j] > 0 && (j !in shapes || !WellFormed(shapes[j]));
      assert items[..idx + 1][j] == items[j];
    }
  }

  /** `for _ in range(cnt): to_place.append(p)` */
  method AppendCopies(pieces: seq<Piece>, p: Piece, cnt: nat) returns (r: seq<Piece>)
    ensures r == pieces + seq(cnt, _ => p)
  {
    r := pieces;
    var c := 0;
    while c < cnt
      invariant 0 <= c <= cnt && r == pieces + seq(c, _ => p)
    {
      r := r + [p];
      c := c + 1;
    }
  }

  /** One pass of the request loop, for index `idx`, on the entries and total of the indices before it. */
  method RequestOne(items: seq<int>, shapes: map<int, Grid>, idx: nat, pieces: seq<Piece>, total: int)
    returns (ok: bool, pieces': seq<Piece>, total': int)
    requires idx < |items| && !Broken(items[..idx], shapes)
    requires total == TotalArea(items[..idx], shapes)
    requires |pieces| == |Demand(items[..idx], shapes)|
    requires forall j :: 0 <= j < |pieces| ==> Describes(pieces[j], Demand(items[..idx], shapes)[j])
    ensures ok <==> !Broken(items[..idx + 1], shapes)
    ensures ok ==> total' == TotalArea(items[..idx + 1], shapes)
    ensures ok ==> |pieces'| == |Demand(items[..idx + 1], shapes)|
    ensures ok ==> forall j :: 0 <= j < |pieces'| ==> Describes(pieces'[j], Demand(items[..idx + 1], shapes)[j])
  {
    RequestStep(items, shapes, idx);
    var cnt := items[idx];
    pieces', total' := pieces, total;
    if cnt > 0 {
      if idx !in shapes {
        return false, pieces', total';
      }
      var g := shapes[idx];
      var area := Area(g);
      total' := total + area * cnt;
      if !WellFormed(g) {
        return false, pieces', total';
      }
      var vars := GetVariations(g);
      pieces' := AppendCopies(pieces, Piece(area, vars), cnt);
      assert Demand(items[..idx + 1], shapes) == Demand(items[..idx], shapes) + seq(cnt, _ => g);
    }
    ok := true;
  }

  /** The first loop of `can_fit`: area total and one `(area, vars)` entry per requested copy. */
  method CollectPieces(items: seq<int>, shapes: map<int, Grid>) returns (ok: bool, pieces: seq<Piece>, total: int)
    ensures ok <==> !Broken(items, shapes)
    ensures ok ==> total == TotalArea(items, shapes)
    ensures ok ==> |pieces| == |Demand(items, shapes)|
    ensures ok ==> forall j :: 0 <= j < |pieces| ==> Describes(pieces[j], Demand(items, shapes)[j])
  {
    pieces, total := [], 0;
    var idx := 0;
    while idx < |items|
      invariant 0 <= idx <= |items|
      invariant !Broken(items[..idx], shapes)
      invariant total == TotalArea(items[..idx], shapes)
      invariant |pieces| == |Demand(items[..idx], shapes)|
      invariant forall j :: 0 <= j < |pieces| ==> Describes(pieces[j], Demand(items[..idx], shapes)[j])
    {
      ok, pieces, total := RequestOne(items, shapes, idx, pieces, total);
      if !ok {
        BrokenPrefix(items, shapes, idx + 1);
        return;
      }
      idx := idx + 1;
    }
    assert items[..idx] == items;
    ok := true;
  }

  /** An error among the first `n` requests is an error of the whole request list. */
  lemma BrokenPrefix(items: seq<int>, shapes: map<int, Grid>, n: nat)
    requires n <= |items| && Broken(items[..n], shapes)
    ensures Broken(items, shapes)
  {
    var j :| 0 <= j < n && items[..n][j] > 0 && (j !in shapes || !WellFormed(shapes[j]));
    assert items[j] == items[..n][j];
  }

  /** No positive count: nothing is requested, nothing can be missing, and the total is 0. */
  lemma {:induction false} NoRequests(items: seq<int>, shapes: map<int, Grid>)
    requires forall j :: 0 <= j < |items| ==> items[j] <= 0
    ensures !Broken(items, shapes) && Demand(items, shapes) == [] && TotalArea(items, shapes) == 0
  {
    if items != [] {
      var n := |items| - 1;
      NoRequests(items[..n], shapes);
      assert items[..n + 1] == items;
      RequestStep(items, shapes, n);
    }
  }

  /** Shapes compared the way the sort compares their entries: larger area first. */
  function LargerShape(a: Grid, b: Grid): bool
  {
    Area(a) > Area(b)
  }

  /** An entry paired with the shape it describes, compared by the entry's area. */
  function PairLarger(a: (Piece, Grid), b: (Piece, Grid)): bool
  {
    LargerArea(a.0, b.0)
  }

  function PieceOf(a: (Piece, Grid)): Piece
  {
    a.0
  }

  function ShapeOf(a: (Piece, Grid)): Grid
  {
    a.1
  }

  /** Sorting the pairs sorts the entries. */
  lemma SortedPieces(pieces: seq<Piece>, demand: seq<Grid>)
    requires |pieces| == |demand|
    ensures Map(PieceOf, SortBy(Zip(pieces, demand), PairLarger)) == SortBy(pieces, LargerArea)
  {
    var zs := Zip(pieces, demand);
    SortByMap(zs, PieceOf, PairLarger, LargerArea);
    assert Map(PieceOf, zs) == pieces;
  }

  /** Sorting the pairs sorts the shapes by their area, since each entry carries its shape's area. */
  lemma SortedShapes(pieces: seq<Piece>, demand: seq<Grid>)
    requires |pieces| == |demand|
    requires forall j :: 0 <= j < |pieces| ==> pieces[j].area == Area(demand[j])
    ensures Map(ShapeOf, SortBy(Zip(pieces, demand), PairLarger)) == SortBy(demand, LargerShape)
  {
    var zs := Zip(pieces, demand);
    forall a, b | a in zs && b in zs ensures PairLarger(a, b) == LargerShape(ShapeOf(a), ShapeOf(b)) {
      var i :| 0 <= i < |zs| && zs[i] == a;
      var j :| 0 <= j < |zs| && zs[j] == b;
    }
    SortByMap(zs, ShapeOf, PairLarger, LargerShape);
    assert Map(ShapeOf, zs) == demand;
  }

  /** Every sorted pair is still an entry with the shape it describes. */
  lemma SortedPairsDescribe(pieces: seq<Piece>, demand: seq<Grid>)
    requires |pieces| == |demand|
    requires forall j :: 0 <= j < |pieces| ==> Describes(pieces[j], demand[j])
    ensures |SortBy(Zip(pieces, demand), PairLarger)| == |demand|
    ensures forall p :: p in SortBy(Zip(pieces, demand), PairLarger) ==> Describes(p.0, p.1)
  {
    var zs := Zip(pieces, demand);
    var sz := SortBy(zs, PairLarger);
    assert |sz| == |multiset(sz)| == |multiset(zs)| == |zs|;
    forall p | p in sz ensures Describes(p.0, p.1) {
      assert p in multiset(zs);
      var i :| 0 <= i < |zs| && zs[i] == p;
    }
  }

  /**
   * Sorting the entries by area puts them in the order of the stable area sort of the
   * requested shapes, each entry still describing the shape at its position.
   */
  lemma SortedDescribes(pieces: seq<Piece>, demand: seq<Grid>)
    requires |pieces| == |demand|
    requires forall j :: 0 <= j < |pieces| ==> Describes(pieces[j], demand[j])
    ensures |SortBy(pieces, LargerArea)| == |demand| == |SortBy(demand, LargerShape)|
    ensures forall j :: 0 <= j < |demand| ==>
      Describes(SortBy(pieces, LargerArea)[j], SortBy(demand, LargerShape)[j])
  {
    SortedPieces(pieces, demand);
    SortedShapes(pieces, demand);
    SortedPairsDescribe(pieces, demand);
    var sz := SortBy(Zip(pieces, demand), PairLarger);
    forall j | 0 <= j < |demand|
      ensures Describes(SortBy(pieces, LargerArea)[j], SortBy(demand, LargerShape)[j])
    {
      assert sz[j] in sz;
    }
  }

  /** `o` is the `(base_mask, vh, vw)` entry of orientation `v` on a board of width `w`. */
  predicate MaskOf(o: Orient, v: Grid, w: nat)
  {
    WellFormed(v) && o == Orient(BaseMask(v, w), |v|, |v[0]|)
  }

  /** `item_masks`: one mask list per entry, one mask per orientation, in list order. */
  predicate MasksOf(masks: seq<seq<Orient>>, sorted: seq<Piece>, w: nat)
  {
    |masks| == |sorted|
    && forall j :: 0 <= j < |masks| ==>
      |masks[j]| == |sorted[j].vars|
      && forall q :: 0 <= q < |masks[j]| ==> MaskOf(masks[j][q], sorted[j].vars[q], w)
  }

  /** The loop that builds `item_masks`. */
  method BuildMasks(sorted: seq<Piece>, w: nat) returns (masks: seq<seq<Orient>>)
    requires forall j, q :: 0 <= j < |sorted| && 0 <= q < |sorted[j].vars| ==> WellFormed(sorted[j].vars[q])
    ensures MasksOf(masks, sorted, w)
  {
    masks := [];
    var j := 0;
    while j < |sorted|
      invariant 0 <= j <= |sorted| && MasksOf(masks, sorted[..j], w)
    {
      var vars := sorted[j].vars;
      var list: seq<Orient> := [];
      var q := 0;
      while q < |vars|
        invariant 0 <= q <= |vars| && |list| == q
        invariant forall p :: 0 <= p < q ==> MaskOf(list[p], vars[p], w)
      {
        var o := BuildMask(vars[q], w);
        list := list + [o];
        q := q + 1;
      }
      masks := masks + [list];
      j := j + 1;
    }
    assert sorted[..j] == sorted;
  }

  /** `is_same_as_prev`: an entry is flagged when its orientation list equals the previous one's. */
  method SameFlags(sorted: seq<Piece>) returns (same: seq<bool>)
    ensures |same| == |sorted|
    ensures forall i :: 0 <= i < |same| ==> (same[i] <==> i > 0 && sorted[i].vars == sorted[i - 1].vars)
  {
    var flags := new bool[|sorted|](_ => false);
    var i := 1;
    while i < |sorted|
      invariant 1 <= i && (i <= |sorted| || i == 1) && flags.Length == |sorted|
      invariant forall j :: 0 <= j < |sorted| ==>
        (flags[j] <==> 0 < j < i && sorted[j].vars == sorted[j - 1].vars)
    {
      flags[i] := sorted[i].vars == sorted[i - 1].vars;
      i := i + 1;
    }
    same := flags[..];
    assert forall j :: 0 <= j < |sorted| ==> same[j] == flags[j];
  }

  /** Where one present goes: orientation `v` with its top-left corner at (`row`, `col`). */
  datatype Placement = Placement(v: Grid, row: nat, col: nat)

  /**
   * `ps` lays the shapes of `order` on a w x h board: each one turned or flipped into one
   * of its orientations, inside the board, and no board cell covered twice.
   */
  ghost predicate Packs(w: nat, h: nat, order: seq<Grid>, ps: seq<Placement>)
  {
    |ps| == |order|
    && (forall j :: 0 <= j < |ps| ==>
          WellFormed(order[j]) && ps[j].v in Orientations(order[j]) && WellFormed(ps[j].v)
          && ps[j].row + |ps[j].v| <= h && ps[j].col + |ps[j].v[0]| <= w)
    && (forall j1, j2, x ::
          (0 <= j1 < j2 < |ps| && WellFormed(ps[j1].v) && WellFormed(ps[j2].v)
           && Covers(ps[j1].v, w, ps[j1].row, ps[j1].col, x))
          ==> !Covers(ps[j2].v, w, ps[j2].row, ps[j2].col, x))
  }

  /** Where choice `ch` for entry `j` puts its orientation: the corner is (shift // w, shift % w). */
  function PlacementOf(b: Board, sorted: seq<Piece>, j: nat, ch: Choice): Placement
    requires b.w > 0 && j < |sorted| && ch.k < |sorted[j].vars|
  {
    Placement(sorted[j].vars[ch.k], ch.shift / b.w, ch.shift % b.w)
  }

  /** The orientation a choice picks comes from the entry's list, so it is one of the shape's. */
  lemma ChosenOrientation(sorted: seq<Piece>, g: Grid, j: nat, k: nat)
    requires j < |sorted| && k < |sorted[j].vars| && Describes(sorted[j], g)
    ensures sorted[j].vars[k] in Orientations(g)
  {
    assert sorted[j].vars[k] in (set u | u in sorted[j].vars);
  }

  /**
   * A choice that passes the board test puts one of the shape's orientations inside the
   * board, and the cells it covers are the shifted mask's bits.
   */
  lemma ChoicePlaced(b: Board, sorted: seq<Piece>, g: Grid, j: nat, ch: Choice)
    requires MasksOf(b.masks, sorted, b.w) && j < |sorted| && Describes(sorted[j], g)
    requires ChoiceFits(b, j, ch)
    ensures b.w > 0 && ch.k < |sorted[j].vars|
    ensures var p := PlacementOf(b, sorted, j, ch);
      p.v in Orientations(g) && WellFormed(p.v)
      && p.row + |p.v| <= b.h && p.col + |p.v[0]| <= b.w
  {
    assert MaskOf(b.masks[j][ch.k], sorted[j].vars[ch.k], b.w);
    ChosenOrientation(sorted, g, j, ch.k);
  }

  /** The cells a placed orientation covers are the bits of the chosen shifted mask. */
  lemma ChoiceCells(b: Board, sorted: seq<Piece>, j: nat, ch: Choice, x: nat)
    requires MasksOf(b.masks, sorted, b.w) && j < |sorted| && ChoiceFits(b, j, ch)
    ensures b.w > 0 && ch.k < |sorted[j].vars|
    ensures var p := PlacementOf(b, sorted, j, ch);
      WellFormed(p.v) && (Covers(p.v, b.w, p.row, p.col, x) <==> x in Footprint(b, j, ch))
  {
    var v := sorted[j].vars[ch.k];
    assert MaskOf(b.masks[j][ch.k], v, b.w);
    ShiftedMask(v, b.w, b.h, ch.shift);
  }

  /** Every choice passes the board test for its entry. */
  predicate AllFit(b: Board, chs: seq<Choice>)
  {
    forall j :: 0 <= j < |chs| ==> ChoiceFits(b, j, chs[j])
  }

  /** The placements a run of choices describes, one per entry. */
  function Layout(b: Board, sorted: seq<Piece>, chs: seq<Choice>): (ps: seq<Placement>)
    requires MasksOf(b.masks, sorted, b.w) && AllFit(b, chs)
    ensures |ps| == |chs|
  {
    seq(|chs|, j requires 0 <= j < |chs| =>
      assert ChoiceFits(b, j, chs[j]);
      PlacementOf(b, sorted, j, chs[j]))
  }

  /** Each placement of the layout is an orientation of its shape, inside the board. */
  lemma LayoutInBoard(b: Board, sorted: seq<Piece>, order: seq<Grid>, chs: seq<Choice>, j: nat)
    requires MasksOf(b.masks, sorted, b.w) && AllFit(b, chs) && |chs| == |order| == |sorted|
    requires forall i :: 0 <= i < |order| ==> Describes(sorted[i], order[i])
    requires j < |chs|
    ensures var p := Layout(b, sorted, chs)[j];
      WellFormed(order[j]) && p.v in Orientations(order[j]) && WellFormed(p.v)
      && p.row + |p.v| <= b.h && p.col + |p.v[0]| <= b.w
  {
    assert ChoiceFits(b, j, chs[j]);
    ChoicePlaced(b, sorted, order[j], j, chs[j]);
  }

  /** Disjoint footprints make placements that share no cell. */
  lemma LayoutDisjoint(b: Board, sorted: seq<Piece>, chs: seq<Choice>, j1: nat, j2: nat, x: nat)
    requires MasksOf(b.masks, sorted, b.w) && AllFit(b, chs) && |chs| <= |sorted|
    requires j1 < j2 < |chs| && Footprint(b, j1, chs[j1]) !! Footprint(b, j2, chs[j2])
    ensures var ps := Layout(b, sorted, chs);
      WellFormed(ps[j1].v) && WellFormed(ps[j2].v)
      && !(Covers(ps[j1].v, b.w, ps[j1].row, ps[j1].col, x) && Covers(ps[j2].v, b.w, ps[j2].row, ps[j2].col, x))
  {
    assert ChoiceFits(b, j1, chs[j1]) && ChoiceFits(b, j2, chs[j2]);
    ChoiceCells(b, sorted, j1, chs[j1], x);
    ChoiceCells(b, sorted, j2, chs[j2], x);
  }

  /** A layout with both properties is a packing. */
  lemma LayoutPacks(b: Board, sorted: seq<Piece>, order: seq<Grid>, chs: seq<Choice>)
    requires MasksOf(b.masks, sorted, b.w) && AllFit(b, chs) && |chs| == |order| == |sorted|
    requires forall i :: 0 <= i < |order| ==> Describes(sorted[i], order[i])
    requires forall j1, j2 :: 0 <= j1 < j2 < |chs| ==> Footprint(b, j1, chs[j1]) !! Footprint(b, j2, chs[j2])
    ensures Packs(b.w, b.h, order, Layout(b, sorted, chs))
  {
    var ps := Layout(b, sorted, chs);
    forall j | 0 <= j < |ps|
      ensures WellFormed(order[j]) && ps[j].v in Orientations(order[j]) && WellFormed(ps[j].v)
      ensures ps[j].row + |ps[j].v| <= b.h && ps[j].col + |ps[j].v[0]| <= b.w
    {
      LayoutInBoard(b, sorted, order, chs, j);
    }
    forall j1, j2, x | 0 <= j1 < j2 < |ps| && WellFormed(ps[j1].v) && WellFormed(ps[j2].v)
        && Covers(ps[j1].v, b.w, ps[j1].row, ps[j1].col, x)
      ensures !Covers(ps[j2].v, b.w, ps[j2].row, ps[j2].col, x)
    {
      LayoutDisjoint(b, sorted, chs, j1, j2, x);
    }
  }

  /**
   * A run of choices the search accepts on the board built from the sorted entries is a
   * packing of the shapes they describe.
   */
  lemma SearchSound(b: Board, sorted: seq<Piece>, order: seq<Grid>, chs: seq<Choice>)
    requires b.Valid() && MasksOf(b.masks, sorted, b.w)
    requires |order| == |sorted| && forall j :: 0 <= j < |order| ==> Describes(sorted[j], order[j])
    requires Completes(b, 0, {}, -1, chs)
    ensures exists ps :: Packs(b.w, b.h, order, ps)
  {
    CompletesFromStart(b, chs);
    LayoutPacks(b, sorted, order, chs);
    var ps := Layout(b, sorted, chs);
    assert Packs(b.w, b.h, order, ps);
  }

  /** A run the search accepts from the first entry on an empty board fits and never overlaps. */
  lemma CompletesFromStart(b: Board, chs: seq<Choice>)
    requires b.Valid() && Completes(b, 0, {}, -1, chs)
    ensures |chs| == |b.masks| && AllFit(b, chs)
    ensures forall j1, j2 :: 0 <= j1 < j2 < |chs| ==> Footprint(b, j1, chs[j1]) !! Footprint(b, j2, chs[j2])
  {
    CompletesSound(b, 0, {}, -1, chs);
    forall j | 0 <= j < |chs| ensures ChoiceFits(b, j, chs[j]) {
      assert ChoiceFits(b, 0 + j, chs[j]);
    }
    forall j1, j2 | 0 <= j1 < j2 < |chs| ensures Footprint(b, j1, chs[j1]) !! Footprint(b, j2, chs[j2]) {
      assert Footprint(b, 0 + j1, chs[j1]) !! Footprint(b, 0 + j2, chs[j2]);
    }
  }

  /** Every orientation an entry lists can be turned, since each is an orientation of its shape. */
  lemma VarsWellFormed(sorted: seq<Piece>, order: seq<Grid>)
    requires |order| == |sorted| && forall j :: 0 <= j < |order| ==> Describes(sorted[j], order[j])
    ensures forall j, q :: 0 <= j < |sorted| && 0 <= q < |sorted[j].vars| ==> WellFormed(sorted[j].vars[q])
  {
    forall j, q | 0 <= j < |sorted| && 0 <= q < |sorted[j].vars| ensures WellFormed(sorted[j].vars[q]) {
      ChosenOrientation(sorted, order[j], j, q);
    }
  }

  /**
   * The part of `can_fit` after the sort: build the masks and flags and run
   * `place(0, 0, -1)`. True means the shapes the entries describe can be packed.
   */
  method Search(w: nat, h: nat, sorted: seq<Piece>, ghost order: seq<Grid>) returns (found: bool)
    requires |order| == |sorted| && forall j :: 0 <= j < |order| ==> Describes(sorted[j], order[j])
    ensures found ==> exists ps :: Packs(w, h, order, ps)
    ensures sorted == [] ==> found
  {
    VarsWellFormed(sorted, order);
    var masks := BuildMasks(sorted, w);
    var same := SameFlags(sorted);
    var b := Board(w, h, masks, same);
    if sorted == [] {
      assert Completes(b, 0, {}, -1, []);
    }
    found := Place(b, 0, {}, -1);
    if found {
      ghost var chs :| Completes(b, 0, {}, -1, chs);
      SearchSound(b, sorted, order, chs);
    }
  }

  /**
   * `can_fit(w, h, items, shapes)`: `None` when a requested shape is missing or cannot be
   * turned (the `KeyError`/`IndexError` Python raises), otherwise the search's answer.
   */
  method CanFit(w: nat, h: nat, items: seq<int>, shapes: map<int, Grid>) returns (r: Option<bool>)
    ensures r.None? <==> Broken(items, shapes)
    ensures r.Some? && TotalArea(items, shapes) > w * h ==> r == Some(false)
    ensures r == Some(true) ==> exists ps :: Packs(w, h, SortBy(Demand(items, shapes), LargerShape), ps)
    ensures (forall j :: 0 <= j < |items| ==> items[j] <= 0) ==> r == Some(true)
  {
    var ok, pieces, total := CollectPieces(items, shapes);
    if !ok {
      return None;
    }
    if forall j :: 0 <= j < |items| ==> items[j] <= 0 {
      NoRequests(items, shapes);
    }
    if total > w * h {
      return Some(false);
    }
    var sorted := SortBy(pieces, LargerArea);
    SortedDescribes(pieces, Demand(items, shapes));
    var found := Search(w, h, sorted, SortBy(Demand(items, shapes), LargerShape));
    r := Some(found);
  }

  // ----- solve -----

  /** One region line: `WxH: c0 c1 ...`. */
  datatype Region = Region(w: nat, h: nat, counts: seq<int>)

  /** The number of `true` entries. */
  function CountTrue(bs: seq<bool>): (n: nat)
    ensures n <= |bs|
  {
    if bs == [] then 0 else CountTrue(bs[..|bs| - 1]) + (if bs[|bs| - 1] then 1 else 0)
  }

  /** What `can_fit` promises about a region it answers `fits` for. */
  ghost predicate Verdict(shapes: map<int, Grid>, reg: Region, fits: bool)
  {
    (TotalArea(reg.counts, shapes) > reg.w * reg.h ==> !fits)
    && ((forall j :: 0 <= j < |reg.counts| ==> reg.counts[j] <= 0) ==> fits)
    && (fits ==> exists ps :: Packs(reg.w, reg.h, SortBy(Demand(reg.counts, shapes), LargerShape), ps))
  }

  /** `can_fit` on one region, its answer stated as a verdict. */
  method FitRegion(shapes: map<int, Grid>, reg: Region) returns (fits: Option<bool>)
    ensures fits.None? <==> Broken(reg.counts, shapes)
    ensures fits.Some? ==> Verdict(shapes, reg, fits.value)
  {
    fits := CanFit(reg.w, reg.h, reg.counts, shapes);
  }

  /** No region among the first `i` names a missing or malformed shape. */
  predicate NoneBroken(shapes: map<int, Grid>, regions: seq<Region>, i: nat)
    requires i <= |regions|
  {
    forall j :: 0 <= j < i ==> !Broken(regions[j].counts, shapes)
  }

  /** `verdicts[j]` is a verdict on region `j`, for each of the first `i` regions. */
  ghost predicate VerdictsHold(shapes: map<int, Grid>, regions: seq<Region>, verdicts: seq<bool>, i: nat)
    requires i <= |regions| && i <= |verdicts|
  {
    forall j :: 0 <= j < i ==> Verdict(shapes, regions[j], verdicts[j])
  }

  lemma SolveStep(shapes: map<int, Grid>, regions: seq<Region>, verdicts: seq<bool>, fits: bool, i: nat)
    requires i < |regions| && |verdicts| == i
    requires NoneBroken(shapes, regions, i) && VerdictsHold(shapes, regions, verdicts, i)
    requires !Broken(regions[i].counts, shapes) && Verdict(shapes, regions[i], fits)
    ensures NoneBroken(shapes, regions, i + 1)
    ensures VerdictsHold(shapes, regions, verdicts + [fits], i + 1)
    ensures CountTrue(verdicts + [fits]) == CountTrue(verdicts) + (if fits then 1 else 0)
  {
    assert (verdicts + [fits])[..i] == verdicts;
    forall j | 0 <= j < i + 1
      ensures Verdict(shapes, regions[j], (verdicts + [fits])[j])
    {
      if j < i {
        assert (verdicts + [fits])[j] == verdicts[j];
      }
    }
  }

  /**
   * `solve` after the parse: the number of regions `can_fit` accepts, or `None` when it
   * raises for some region. `verdicts` are the answers it counted, region by region.
   */
  method Solve(shapes: map<int, Grid>, regions: seq<Region>) returns (r: Option<nat>, ghost verdicts: seq<bool>)
    ensures r.None? <==> exists i :: 0 <= i < |regions| && Broken(regions[i].counts, shapes)
    ensures r.Some? ==> |verdicts| == |regions| && r.value == CountTrue(verdicts) <= |regions|
    ensures r.Some? ==> forall i :: 0 <= i < |regions| ==> Verdict(shapes, regions[i], verdicts[i])
  {
    var count := 0;
    verdicts := [];
    var i := 0;
    while i < |regions|
      invariant 0 <= i <= |regions| && |verdicts| == i && count == CountTrue(verdicts)
      invariant NoneBroken(shapes, regions, i)
      invariant VerdictsHold(shapes, regions, verdicts, i)
    {
      var fits := FitRegion(shapes, regions[i]);
      if fits.None? {
        return None, verdicts;
      }
      SolveStep(shapes, regions, verdicts, fits.value, i);
      if fits.value {
        count := count + 1;
      }
      verdicts := verdicts + [fits.value];
      i := i + 1;
    }
    r := Some(count);
  }
}
