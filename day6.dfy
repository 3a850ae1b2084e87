/**
 * Day 6: a worksheet of arithmetic problems laid out in columns. The lines are padded to a
 * rectangle; a column holding any non-space character belongs to a problem, and each
 * maximal run of such columns is one problem. Each row of a problem yields numbers (its
 * digit runs) and perhaps an operator; the problem is worth the sum or the product of its
 * numbers, and the answer is the sum over the problems.
 */
module Day6 {
  import opened Common
  import opened PyText

  // ---------------------------------------------------------------------------------------
  // The padded grid.

  /** `[line.ljust(max_len) for line in lines]` */
  function Padded(ls: seq<string>): (g: seq<string>)
    ensures |g| == |ls| && Rect(g, MaxLen(ls))
  {
    seq(|ls|, y requires 0 <= y < |ls| => LJust(ls[y], MaxLen(ls), ' '))
  }

  /** Padding keeps every character of a line and puts spaces after it. */
  lemma PaddedCell(ls: seq<string>, y: nat, x: nat)
    requires y < |ls| && x < MaxLen(ls)
    ensures Padded(ls)[y][x] == if x < |ls[y]| then ls[y][x] else ' '
  {
  }

  // ---------------------------------------------------------------------------------------
  // The column mask.

  /** Some row holds a non-space character at column `x`. */
  predicate Inked(g: seq<string>, w: nat, x: nat)
    requires Rect(g, w) && x < w
  {
    exists y :: 0 <= y < |g| && g[y][x] != ' '
  }

  /** The mask as a sequence. */
  function Mask(g: seq<string>, w: nat): (m: seq<bool>)
    requires Rect(g, w)
    ensures |m| == w
  {
    seq(w, x requires 0 <= x < w => Inked(g, w, x))
  }

  /** `col_mask`: for each column, scan down the rows and stop at the first non-space. */
  method ColumnMask(g: seq<string>, w: nat) returns (mask: array<bool>)
    requires Rect(g, w)
    ensures fresh(mask) && mask[..] == Mask(g, w)
  {
    mask := new bool[w](_ => false);
    for x := 0 to w
      invariant forall j | 0 <= j < x :: mask[j] == Inked(g, w, j)
      invariant forall j | x <= j < w :: !mask[j]
    {
      var y := 0;
      while y < |g|
        invariant 0 <= y <= |g|
        invariant forall j | 0 <= j < x :: mask[j] == Inked(g, w, j)
        invariant forall j | x < j < w :: !mask[j]
        invariant !mask[x] && forall k | 0 <= k < y :: g[k][x] == ' '
      {
        if g[y][x] != ' ' {
          mask[x] := true;
          break;
        }
        y := y + 1;
      }
    }
  }

  /** A column of the padded grid is marked exactly when some line reaches it with a non-space. */
  lemma MaskOfLines(ls: seq<string>, x: nat)
    requires x < MaxLen(ls)
    ensures Mask(Padded(ls), MaxLen(ls))[x]
      <==> exists y :: 0 <= y < |ls| && x < |ls[y]| && ls[y][x] != ' '
  {
    var g := Padded(ls);
    if Inked(g, MaxLen(ls), x) {
      var y :| 0 <= y < |g| && g[y][x] != ' ';
      PaddedCell(ls, y, x);
    }
    if exists y :: 0 <= y < |ls| && x < |ls[y]| && ls[y][x] != ' ' {
      var y :| 0 <= y < |ls| && x < |ls[y]| && ls[y][x] != ' ';
      PaddedCell(ls, y, x);
      assert g[y][x] != ' ';
    }
  }

  // ---------------------------------------------------------------------------------------
  // Regions: the maximal runs of marked columns.

  /** The end of the run of `true` entries starting at `x`. */
  function RunEnd(m: seq<bool>, x: nat): (e: nat)
    requires x <= |m|
    ensures x <= e <= |m| && (forall j | x <= j < e :: m[j]) && (e == |m| || !m[e])
    decreases |m| - x
  {
    if x == |m| || !m[x] then x else RunEnd(m, x + 1)
  }

  /** The runs of `true` entries from `x` on, each as a half-open `(start, end)` pair. */
  function RunsFrom(m: seq<bool>, x: nat): seq<(nat, nat)>
    requires x <= |m|
    decreases |m| - x
  {
    if x == |m| then []
    else if !m[x] then RunsFrom(m, x + 1)
    else
      var e := RunEnd(m, x);
      [(x, e)] + RunsFrom(m, e)
  }

  /** `[s, e)` is a non-empty run of `true` entries with `false` or an end on either side. */
  predicate MaximalRun(m: seq<bool>, r: (nat, nat))
  {
    r.0 < r.1 <= |m| && (forall j | r.0 <= j < r.1 :: m[j])
    && (r.0 == 0 || !m[r.0 - 1]) && (r.1 == |m| || !m[r.1])
  }

  /** A position that no run straddles: the start, the end, or next to a `false`. */
  predicate Boundary(m: seq<bool>, x: nat)
    requires x <= |m|
  {
    x == 0 || x == |m| || !m[x - 1] || !m[x]
  }

  /** `rs` lists the maximal runs at or after `x`, left to right, with a gap between each two. */
  predicate RunsAfter(m: seq<bool>, rs: seq<(nat, nat)>, x: nat)
  {
    (forall k | 0 <= k < |rs| :: MaximalRun(m, rs[k]) && x <= rs[k].0)
    && (forall k | 0 <= k < |rs| - 1 :: rs[k].1 < rs[k + 1].0)
    && (forall j | x <= j < |m| && m[j] :: exists k :: 0 <= k < |rs| && rs[k].0 <= j < rs[k].1)
  }

  /** The first run followed by the runs after it is still a list of runs from `x`. */
  lemma RunsCons(m: seq<bool>, x: nat, tail: seq<(nat, nat)>)
    requires x < |m| && m[x] && Boundary(m, x)
    requires RunsAfter(m, tail, RunEnd(m, x))
    ensures RunsAfter(m, [(x, RunEnd(m, x))] + tail, x)
  {
    var e := RunEnd(m, x);
    var rs := [(x, e)] + tail;
    assert MaximalRun(m, (x, e));
    RunsConsOrdered(m, x, tail);
    forall j | x <= j < |m| && m[j]
      ensures exists k :: 0 <= k < |rs| && rs[k].0 <= j < rs[k].1
    {
      if j < e {
        assert rs[0].0 <= j < rs[0].1;
      } else {
        var k :| 0 <= k < |tail| && tail[k].0 <= j < tail[k].1;
        assert rs[k + 1] == tail[k];
      }
    }
  }

  lemma RunsConsOrdered(m: seq<bool>, x: nat, tail: seq<(nat, nat)>)
    requires x < |m| && m[x]
    requires RunsAfter(m, tail, RunEnd(m, x))
    ensures forall k | 0 <= k < |tail| :: x <= tail[k].0
    ensures forall k | 0 <= k < |tail| :: RunEnd(m, x) < tail[k].0
  {
    forall k | 0 <= k < |tail|
      ensures RunEnd(m, x) < tail[k].0
    {
      assert MaximalRun(m, tail[k]);
      assert m[tail[k].0];
    }
  }

  /** The regions are the maximal runs of marked columns, disjoint and in increasing order. */
  lemma {:induction false} RunsFromMaximal(m: seq<bool>, x: nat)
    requires x <= |m| && Boundary(m, x)
    ensures RunsAfter(m, RunsFrom(m, x), x)
    decreases |m| - x
  {
    if x == |m| {
    } else if !m[x] {
      RunsFromMaximal(m, x + 1);
    } else {
      RunsFromMaximal(m, RunEnd(m, x));
      RunsCons(m, x, RunsFrom(m, RunEnd(m, x)));
    }
  }

  /**
   * `regions`: walk the mask with `start_x` marking an open run; close it at the first
   * unmarked column, and at the right edge if it is still open.
   */
  method Regions(mask: array<bool>) returns (regions: seq<(nat, nat)>)
    ensures regions == RunsFrom(mask[..], 0)
  {
    var m := mask[..];
    var w := mask.Length;
    regions := [];
    var start := -1;
    for x := 0 to w
      invariant -1 <= start < x || (start == -1 && x == 0)
      invariant start == -1 ==> regions + RunsFrom(m, x) == RunsFrom(m, 0)
      invariant start != -1 ==>
        RunEnd(m, start) == RunEnd(m, x)
        && regions + [(start as nat, RunEnd(m, x))] + RunsFrom(m, RunEnd(m, x)) == RunsFrom(m, 0)
    {
      if mask[x] {
        if start == -1 {
          start := x;
        }
      } else {
        if start != -1 {
          regions := regions + [(start as nat, x)];
          start := -1;
        }
      }
    }
    if start != -1 {
      regions := regions + [(start as nat, w)];
    }
  }

  // ---------------------------------------------------------------------------------------
  // The token scan.

  /** The scan's state: numbers so far, the digits of the number being read, the operator. */
  datatype Scan = Scan(numbers: seq<nat>, digits: string, op: Option<char>)

  predicate IsOp(c: char)
  {
    c == '+' || c == '*'
  }

  predicate Clean(s: Scan)
  {
    AllDigits(s.digits)
  }

  /** `numbers.append(int(curr_num_str))` when a number is being read. */
  function Flush(numbers: seq<nat>, digits: string): seq<nat>
    requires AllDigits(digits)
  {
    if digits == [] then numbers else numbers + [DecimalValue(digits)]
  }

  /**
   * One character: a digit extends the number; `+` or `*` ends it and becomes the
   * operator; anything else only ends it.
   */
  function Step(s: Scan, c: char): (r: Scan)
    requires Clean(s)
    ensures Clean(r)
  {
    if IsDigit(c) then s.(digits := s.digits + [c])
    else if IsOp(c) then Scan(Flush(s.numbers, s.digits), "", Some(c))
    else Scan(Flush(s.numbers, s.digits), "", s.op)
  }

  /** The characters of `t` scanned from `s`, left to right. */
  function Fold(s: Scan, t: string): (r: Scan)
    requires Clean(s)
    ensures Clean(r)
    decreases |t|
  {
    if t == [] then s else Step(Fold(s, t[..|t| - 1]), t[|t| - 1])
  }

  /** A token scanned after the earlier rows, the number still being read pushed at its end. */
  function ScanToken(numbers: seq<nat>, op: Option<char>, token: string): (seq<nat>, Option<char>)
  {
    var s := Fold(Scan(numbers, "", op), token);
    (Flush(s.numbers, s.digits), s.op)
  }

  /** The numbers a token contributes on its own. */
  function TokenNumbers(token: string): seq<nat>
  {
    ScanToken([], None, token).0
  }

  /** The last operator of a token, if it has one. */
  function TokenOp(token: string): Option<char>
  {
    ScanToken([], None, token).1
  }

  /** The `while idx < len(token)` loop and the push at the end of the token. */
  method ScanRow(numbers: seq<nat>, op: Option<char>, token: string)
      returns (numbers': seq<nat>, op': Option<char>)
    ensures (numbers', op') == ScanToken(numbers, op, token)
  {
    numbers', op' := numbers, op;
    var cur := "";
    var idx := 0;
    while idx < |token|
      invariant 0 <= idx <= |token|
      invariant Scan(numbers', cur, op') == Fold(Scan(numbers, "", op), token[..idx])
    {
      assert token[..idx + 1][..idx] == token[..idx];
      var c := token[idx];
      if IsDigit(c) {
        cur := cur + [c];
      } else if c == '+' || c == '*' {
        if cur != "" {
          numbers' := numbers' + [DecimalValue(cur)];
          cur := "";
        }
        op' := Some(c);
      } else {
        if cur != "" {
          numbers' := numbers' + [DecimalValue(cur)];
          cur := "";
        }
      }
      idx := idx + 1;
    }
    assert token[..idx] == token;
    if cur != "" {
      numbers' := numbers' + [DecimalValue(cur)];
    }
  }

  lemma {:induction false} FoldAppend(s: Scan, a: string, b: string)
    requires Clean(s)
    ensures Fold(s, a + b) == Fold(Fold(s, a), b)
    decreases |b|
  {
    if b == [] {
      assert a + b == a;
    } else {
      var b' := b[..|b| - 1];
      assert (a + b)[..|a + b| - 1] == a + b';
      FoldAppend(s, a, b');
    }
  }

  /** Numbers found earlier come first; an operator found earlier holds unless replaced. */
  function Shifted(numbers: seq<nat>, op: Option<char>, s: Scan): Scan
  {
    Scan(numbers + s.numbers, s.digits, if s.op.None? then op else s.op)
  }

  lemma FlushShift(numbers: seq<nat>, more: seq<nat>, digits: string)
    requires AllDigits(digits)
    ensures Flush(numbers + more, digits) == numbers + Flush(more, digits)
  {
    if digits != [] {
      assert numbers + more + [DecimalValue(digits)] == numbers + (more + [DecimalValue(digits)]);
    }
  }

  /** A scan's outcome is independent of what came before it, which is only prepended. */
  lemma {:induction false} FoldShift(numbers: seq<nat>, digits: string, op: Option<char>, t: string)
    requires AllDigits(digits)
    ensures Fold(Scan(numbers, digits, op), t) == Shifted(numbers, op, Fold(Scan([], digits, None), t))
    decreases |t|
  {
    if t != [] {
      var t' := t[..|t| - 1];
      FoldShift(numbers, digits, op, t');
      var s := Fold(Scan([], digits, None), t');
      FlushShift(numbers, s.numbers, s.digits);
    }
  }

  /**
   * Scanning a token after earlier rows appends the token's own numbers, and the token's
   * last operator, if any, replaces the one found so far.
   */
  lemma ScanTokenSplit(numbers: seq<nat>, op: Option<char>, token: string)
    ensures ScanToken(numbers, op, token)
      == (numbers + TokenNumbers(token), if TokenOp(token).None? then op else TokenOp(token))
  {
    FoldShift(numbers, "", op, token);
    var s := Fold(Scan([], "", None), token);
    FlushShift(numbers, s.numbers, s.digits);
  }

  lemma {:induction false} FoldDigits(t: string)
    requires AllDigits(t)
    ensures Fold(Scan([], "", None), t) == Scan([], t, None)
    decreases |t|
  {
    if t != [] {
      FoldDigits(t[..|t| - 1]);
      assert t[..|t| - 1] + [t[|t| - 1]] == t;
    }
  }

  /** A run of digits alone is one number, its decimal value, and sets no operator. */
  lemma DigitsAreOneNumber(t: string)
    requires t != [] && AllDigits(t)
    ensures TokenNumbers(t) == [DecimalValue(t)] && TokenOp(t) == None
  {
    FoldDigits(t);
  }

  /**
   * A character that is not a digit cuts the token in two: the numbers are those of the
   * part before it followed by those of the part after it, and the operator is the last
   * one found, the cutting character counting when it is `+` or `*`.
   */
  lemma TokenCut(a: string, c: char, b: string)
    requires !IsDigit(c)
    ensures TokenNumbers(a + [c] + b) == TokenNumbers(a) + TokenNumbers(b)
    ensures TokenOp(a + [c] + b)
      == if TokenOp(b).Some? then TokenOp(b) else if IsOp(c) then Some(c) else TokenOp(a)
  {
    var s0 := Scan([], "", None);
    FoldAppend(s0, a + [c], b);
    assert (a + [c])[..|a + [c]| - 1] == a;
    var sa := Fold(s0, a);
    var after := Step(sa, c);
    FoldShift(after.numbers, "", after.op, b);
    var sb := Fold(s0, b);
    FlushShift(after.numbers, sb.numbers, sb.digits);
  }

  lemma {:induction false} FoldKeepsOp(s: Scan, t: string)
    requires Clean(s) && forall i | 0 <= i < |t| :: !IsOp(t[i])
    ensures Fold(s, t).op == s.op
    decreases |t|
  {
    if t != [] {
      FoldKeepsOp(s, t[..|t| - 1]);
    }
  }

  /** A token without `+` or `*` sets no operator. */
  lemma NoOpToken(t: string)
    requires forall i | 0 <= i < |t| :: !IsOp(t[i])
    ensures TokenOp(t) == None
  {
    FoldKeepsOp(Scan([], "", None), t);
  }

  /** The last `+` or `*` of a token is its operator: the last one wins. */
  lemma LastOpWins(t: string, i: nat)
    requires i < |t| && IsOp(t[i]) && forall j | i < j < |t| :: !IsOp(t[j])
    ensures TokenOp(t) == Some(t[i])
  {
    var b := t[i + 1..];
    assert t == t[..i] + [t[i]] + b;
    NoOpToken(b);
    TokenCut(t[..i], t[i], b);
  }

  // ---------------------------------------------------------------------------------------
  // Evaluating the regions.

  /** The numbers and operator gathered from the first `y` rows of the region `[s, e)`. */
  function RegionScan(g: seq<string>, w: nat, s: nat, e: nat, y: nat): (seq<nat>, Option<char>)
    requires Rect(g, w) && s <= e <= w && y <= |g|
  {
    if y == 0 then ([], None)
    else
      var (numbers, op) := RegionScan(g, w, s, e, y - 1);
      var token := Strip(g[y - 1][s..e]);
      if token == [] then (numbers, op) else ScanToken(numbers, op, token)
  }

  /**
   * Rows never share a number: each row appends the numbers of its own token, and its
   * last operator, if any, replaces the region's operator so far.
   */
  lemma RegionRow(g: seq<string>, w: nat, s: nat, e: nat, y: nat)
    requires Rect(g, w) && s <= e <= w && y < |g|
    ensures var token := Strip(g[y][s..e]);
      RegionScan(g, w, s, e, y + 1).0 == RegionScan(g, w, s, e, y).0 + TokenNumbers(token)
      && RegionScan(g, w, s, e, y + 1).1
        == if TokenOp(token).Some? then TokenOp(token) else RegionScan(g, w, s, e, y).1
  {
    var token := Strip(g[y][s..e]);
    var (numbers, op) := RegionScan(g, w, s, e, y);
    ScanTokenSplit(numbers, op, token);
    if token == [] {
      assert TokenNumbers(token) == [];
      assert numbers + [] == numbers;
    }
  }

  /** A region is worth the sum of its numbers under `+`, their product under `*`, else 0. */
  function Value(numbers: seq<nat>, op: Option<char>): int
  {
    if op == Some('+') then Sum(numbers)
    else if op == Some('*') then Prod(numbers)
    else 0
  }

  /** One region of `solve`: gather its numbers and operator row by row, then evaluate. */
  method RegionValue(g: seq<string>, w: nat, s: nat, e: nat) returns (val: int)
    requires Rect(g, w) && s <= e <= w
    ensures val == Value(RegionScan(g, w, s, e, |g|).0, RegionScan(g, w, s, e, |g|).1)
  {
    var numbers: seq<nat> := [];
    var op: Option<char> := None;
    for y := 0 to |g|
      invariant (numbers, op) == RegionScan(g, w, s, e, y)
    {
      var token := Strip(g[y][s..e]);
      if token == [] {
        continue;
      }
      numbers, op := ScanRow(numbers, op, token);
    }
    if op == Some('+') {
      val := Sum(numbers);
    } else if op == Some('*') {
      val := 1;
      for i := 0 to |numbers|
        invariant val == Prod(numbers[..i])
      {
        assert numbers[..i + 1][..i] == numbers[..i];
        val := val * numbers[i];
      }
      assert numbers[..|numbers|] == numbers;
    } else {
      val := 0;
    }
  }

  /** The regions lie within the grid's width. */
  predicate Within(rs: seq<(nat, nat)>, w: nat)
  {
    forall k | 0 <= k < |rs| :: rs[k].0 <= rs[k].1 <= w
  }

  /** The sum of the region values. */
  function Total(g: seq<string>, w: nat, rs: seq<(nat, nat)>): int
    requires Rect(g, w) && Within(rs, w)
  {
    if rs == [] then 0
    else
      var r := rs[|rs| - 1];
      var (numbers, op) := RegionScan(g, w, r.0, r.1, |g|);
      Total(g, w, rs[..|rs| - 1]) + Value(numbers, op)
  }

  lemma RunsWithin(m: seq<bool>)
    ensures Within(RunsFrom(m, 0), |m|)
  {
    RunsFromMaximal(m, 0);
  }

  /** The answer for a text: 0 without lines, else the total over the regions of the grid. */
  function Answer(text: string): int
  {
    var ls := ReadLines(text);
    if ls == [] then 0
    else
      var g := Padded(ls);
      var w := MaxLen(ls);
      RunsWithin(Mask(g, w));
      Total(g, w, RunsFrom(Mask(g, w), 0))
  }

  /** `for (r_start, r_end) in regions: ... total += val` */
  method SumRegions(g: seq<string>, w: nat, regions: seq<(nat, nat)>) returns (total: int)
    requires Rect(g, w) && Within(regions, w)
    ensures total == Total(g, w, regions)
  {
    total := 0;
    for i := 0 to |regions|
      invariant total == Total(g, w, regions[..i])
    {
      assert regions[..i + 1][..i] == regions[..i];
      var (s, e) := regions[i];
      var val := RegionValue(g, w, s, e);
      total := total + val;
    }
    assert regions[..|regions|] == regions;
  }

  /** `solve`: read the lines, pad them, mark the columns, split the regions, add their values. */
  method Solve(text: string) returns (total: int)
    ensures total == Answer(text)
  {
    var lines := ReadLines(text);
    if lines == [] {
      return 0;
    }
    var w := MaxLen(lines);
    var g := Padded(lines);
    var mask := ColumnMask(g, w);
    var regions := Regions(mask);
    RunsWithin(mask[..]);
    total := SumRegions(g, w, regions);
  }
}
