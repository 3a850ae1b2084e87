/**
 * The Day 7 input image: the grid padded with `.` to a rectangle, then one character code
 * per line as two upper-case hex digits, row by row, and the `WIDTH`/`HEIGHT`/`MEM_SIZE`
 * parameters.
 */
module Day7Hex {
  import opened Common
  import opened PyText
  import opened Bits
  import opened HexText

  /** `[line.ljust(max_len, '.') for line in lines]` */
  function DotPadded(ls: seq<string>): (g: seq<string>)
    ensures |g| == |ls| && Rect(g, MaxLen(ls))
  {
    seq(|ls|, y requires 0 <= y < |ls| => LJust(ls[y], MaxLen(ls), '.'))
  }

  /** `f"{ord(char):02X}"` for each character of a row. */
  function ByteLines(row: string): (out: seq<string>)
    ensures |out| == |row|
  {
    seq(|row|, i requires 0 <= i < |row| => Format(row[i] as nat, 2, true))
  }

  /** The lines of all rows, first row first. */
  function RowMajor(g: seq<string>): seq<string>
  {
    if g == [] then [] else RowMajor(g[..|g| - 1]) + ByteLines(g[|g| - 1])
  }

  /** `localparam WIDTH`, `HEIGHT` and `MEM_SIZE`. */
  datatype Params = Params(width: nat, height: nat, memSize: nat)

  /** The parameters of a `w` by `h` image: one memory word per cell. */
  function ParamsOf(w: nat, h: nat): (p: Params)
    ensures p.width == w && p.height == h && p.memSize == w * h
  {
    Params(w, h, w * h)
  }

  /**
   * `generate_hex`: nothing for a text without a non-blank line; otherwise the padded grid
   * written row by row and character by character, and the parameters.
   */
  method GenerateHex(text: string) returns (r: Option<(seq<string>, Params)>)
    ensures r.None? <==> StrippedLines(text) == []
    ensures r.Some? ==>
      var ls := StrippedLines(text);
      r.value.0 == RowMajor(DotPadded(ls))
      && r.value.1 == ParamsOf(MaxLen(ls), |ls|)
  {
    var lines := StrippedLines(text);
    if lines == [] {
      return None;
    }
    var maxLen := MaxLen(lines);
    var grid := DotPadded(lines);
    var h := |grid|;
    var w := maxLen;
    var out: seq<string> := [];
    for y := 0 to h
      invariant out == RowMajor(grid[..y])
    {
      out := EmitRow(out, grid[y]);
      assert grid[..y + 1][..y] == grid[..y];
    }
    assert grid[..h] == grid;
    return Some((out, ParamsOf(w, h)));
  }

  /** The inner loop: one line per character of the row, appended to what was written. */
  method EmitRow(out: seq<string>, line: string) returns (r: seq<string>)
    ensures r == out + ByteLines(line)
  {
    r := out;
    for i := 0 to |line|
      invariant r == out + ByteLines(line)[..i]
    {
      assert ByteLines(line)[..i + 1] == ByteLines(line)[..i] + [Format(line[i] as nat, 2, true)];
      r := r + [Format(line[i] as nat, 2, true)];
    }
    assert ByteLines(line)[..|line|] == ByteLines(line);
  }

  lemma MulStep(y: nat, n: nat, w: nat, x: nat)
    requires y < n && x < w
    ensures y * w + x < n * w
  {
    MulMonotone(y + 1, n, w);
  }

  lemma MulSucc(n: nat, w: nat)
    ensures n * w + w == (n + 1) * w
  {
  }

  /** In a rectangle of width `w`, the line `y * w + x` is the cell of row `y`, column `x`. */
  lemma {:induction false} RowMajorAt(g: seq<string>, w: nat, y: nat, x: nat)
    requires Rect(g, w) && y < |g| && x < w
    ensures |RowMajor(g)| == |g| * w && y * w + x < |g| * w
    ensures RowMajor(g)[y * w + x] == Format(g[y][x] as nat, 2, true)
  {
    MulStep(y, |g|, w, x);
    var front := g[..|g| - 1];
    var n := |front|;
    var i := y * w + x;
    RowMajorLength(g, w);
    RowMajorLength(front, w);
    assert RowMajor(g) == RowMajor(front) + ByteLines(g[n]);
    if y < n {
      assert front[y] == g[y];
      RowMajorAt(front, w, y, x);
      MulStep(y, n, w, x);
      assert RowMajor(g)[i] == RowMajor(front)[i];
    } else {
      assert y == n && i == n * w + x;
      assert RowMajor(g)[i] == ByteLines(g[y])[x];
    }
  }

  lemma {:induction false} RowMajorLength(g: seq<string>, w: nat)
    requires Rect(g, w)
    ensures |RowMajor(g)| == |g| * w
  {
    if g != [] {
      var n := |g| - 1;
      RowMajorLength(g[..n], w);
      MulSucc(n, w);
    }
  }

  /** Every character of every line fits in one byte. */
  predicate Narrow(ls: seq<string>)
  {
    forall y, i | 0 <= y < |ls| && 0 <= i < |ls[y]| :: ls[y][i] as int < 256
  }

  /**
   * The image has `W * H` lines of exactly two digits; line `y * W + x` reads back as the
   * character of line `y` at column `x`, or `.` where the line is shorter.
   */
  lemma CellLine(ls: seq<string>, y: nat, x: nat)
    requires Narrow(ls) && y < |ls| && x < MaxLen(ls)
    ensures var out := RowMajor(DotPadded(ls));
      |out| == |ls| * MaxLen(ls) && y * MaxLen(ls) + x < |out|
      && |out[y * MaxLen(ls) + x]| == 2
      && ParseHex(out[y * MaxLen(ls) + x]) == Some((if x < |ls[y]| then ls[y][x] else '.') as nat)
  {
    var g := DotPadded(ls);
    assert |g| == |ls|;
    DotCell(ls, y, x);
    GridCell(g, MaxLen(ls), y, x);
  }

  /** The line of a cell holding a one-byte character. */
  lemma GridCell(g: seq<string>, w: nat, y: nat, x: nat)
    requires Rect(g, w) && y < |g| && x < w && g[y][x] as int < 256
    ensures |RowMajor(g)| == |g| * w && y * w + x < |g| * w
    ensures |RowMajor(g)[y * w + x]| == 2
    ensures ParseHex(RowMajor(g)[y * w + x]) == Some(g[y][x] as nat)
  {
    MulStep(y, |g|, w, x);
    RowMajorAt(g, w, y, x);
    ByteLine(g[y][x]);
  }

  /** Padding keeps every character of a line and puts `.` after it. */
  lemma DotCell(ls: seq<string>, y: nat, x: nat)
    requires y < |ls| && x < MaxLen(ls)
    ensures DotPadded(ls)[y][x] == if x < |ls[y]| then ls[y][x] else '.'
  {
  }

  /** A character below 256 is written in two digits that read back as its code. */
  lemma ByteLine(c: char)
    requires c as int < 256
    ensures |Format(c as nat, 2, true)| == 2 && ParseHex(Format(c as nat, 2, true)) == Some(c as nat)
  {
    assert Pow16(2) == 256;
    FormatRoundTrip(c as nat, 2, true);
  }
}
