/**
 * Day 12 input: blocks separated by a blank line. A block whose first line holds both `x`
 * and `:` lists regions, one `WxH: c0 c1 ...` per line; any other block is a present shape,
 * a header `idx:` and then its rows, `#` for a filled cell. `parse_input` collects the
 * shapes by index (a later block for the same index replaces the earlier one) and the
 * regions in file order.
 */
module Day12Input {
  import opened Common
  import opened PyText
  import Day12Shapes

  type Grid = Day12Shapes.Grid

  /** A region line as read: `int()` accepts any integer, a negative one included. */
  datatype RawRegion = RawRegion(w: int, h: int, counts: seq<int>)

  /** What `parse_input` returns: the shapes by index and the regions in file order. */
  datatype Parsed = Parsed(shapes: map<int, Grid>, regions: seq<RawRegion>)

  // ---------------------------------------------------------------------------------------
  // Lines.

  /** `s.split(':', 1)` when `s` holds a colon: the text before the first colon and after it. */
  function SplitColon(s: string): (r: Option<(string, string)>)
    ensures r.None? <==> ':' !in s
    ensures r.Some? ==> s == r.value.0 + ":" + r.value.1 && ':' !in r.value.0
  {
    if ':' !in s then None
    else
      var i := IndexOf(s, ':');
      assert s == s[..i] + ":" + s[i + 1..];
      Some((s[..i], s[i + 1..]))
  }

  /** `list(map(int, words))`, or `None` when `int()` refuses one of the words. */
  function Ints(words: seq<string>): (r: Option<seq<int>>)
    ensures r.None? <==> exists k :: 0 <= k < |words| && ParseInt(words[k]).None?
    ensures r.Some? ==> (|r.value| == |words|
      && forall k | 0 <= k < |words| :: ParseInt(words[k]) == Some(r.value[k]))
  {
    if words == [] then Some([])
    else
      var n := |words| - 1;
      var front := words[..n];
      assert forall k | 0 <= k < n :: front[k] == words[k];
      match (Ints(front), ParseInt(words[n]))
      case (Some(vs), Some(v)) =>
        assert forall k | 0 <= k < |words| :: ParseInt(words[k]) == Some((vs + [v])[k]);
        Some(vs + [v])
      case (None, _) => None
      case (_, None) => None
  }

  /**
   * One line of a regions block: `Some(None)` for a line the loop passes over (blank, no
   * colon, or no `x` before the colon), `Some(Some(r))` for a region, and `None` where
   * `int()` or the unpacking into `w, h` raises ValueError.
   */
  function RegionLine(line: string): Option<Option<RawRegion>>
  {
    var t := Strip(line);
    if t == [] then Some(None)
    else
      match SplitColon(t)
      case None => Some(None)
      case Some((before, after)) => RegionParts(Strip(before), after)
  }

  /** The header and the text after the colon: a region only when the header holds `x`. */
  function RegionParts(header: string, after: string): Option<Option<RawRegion>>
  {
    if 'x' !in header then Some(None) else Sized(Split(header, 'x'), after)
  }

  /** `w, h = map(int, dims)` and `counts = list(map(int, after.split()))`. */
  function Sized(dims: seq<string>, after: string): Option<Option<RawRegion>>
  {
    if |dims| != 2 then None
    else
      match ParseInt(dims[0])
      case None => None
      case Some(w) =>
        match ParseInt(dims[1])
        case None => None
        case Some(h) =>
          match Ints(SplitWs(Strip(after)))
          case None => None
          case Some(cs) => Some(Some(RawRegion(w, h, cs)))
  }

  /** The regions of the lines in order, or `None` from the first line that raises. */
  function RegionLines(lines: seq<string>): Option<seq<RawRegion>>
  {
    if lines == [] then Some([])
    else
      match (RegionLines(lines[..|lines| - 1]), RegionLine(lines[|lines| - 1]))
      case (Some(rs), Some(None)) => Some(rs)
      case (Some(rs), Some(Some(r))) => Some(rs + [r])
      case _ => None
  }

  lemma {:induction false} RegionLinesNoneStays(lines: seq<string>, k: nat)
    requires k <= |lines| && RegionLines(lines[..k]) == None
    ensures RegionLines(lines) == None
    decreases |lines| - k
  {
    if k < |lines| {
      assert lines[..k + 1][..k] == lines[..k];
      RegionLinesNoneStays(lines, k + 1);
    } else {
      assert lines[..k] == lines;
    }
  }

  /** `[1 if c == '#' else 0 for c in line]`, with `true` for 1. */
  function ShapeRow(line: string): (row: seq<bool>)
    ensures |row| == |line|
  {
    seq(|line|, c requires 0 <= c < |line| => line[c] == '#')
  }

  /** The rows of a shape: one per non-blank line, read after stripping it. */
  function ShapeGrid(lines: seq<string>): Grid
  {
    if lines == [] then []
    else
      var t := Strip(lines[|lines| - 1]);
      ShapeGrid(lines[..|lines| - 1]) + (if t == [] then [] else [ShapeRow(t)])
  }

  // ---------------------------------------------------------------------------------------
  // Blocks.

  /**
   * One block added to what has been read so far: a blank block changes nothing; a block
   * whose first line holds `x` and `:` adds its regions; otherwise a header with a colon
   * sets the shape of its index, and a header without one is passed over.
   */
  function Block(acc: Parsed, block: string): Option<Parsed>
  {
    var b := Strip(block);
    if b == [] then Some(acc)
    else
      var lines := Split(b, '\n');
      var first := Strip(lines[0]);
      if 'x' in first && ':' in first then
        match RegionLines(lines)
        case None => None
        case Some(rs) => Some(acc.(regions := acc.regions + rs))
      else
        match SplitColon(first)
        case None => Some(acc)
        case Some((before, _)) =>
          match ParseInt(Strip(before))
          case None => None
          case Some(idx) => Some(acc.(shapes := acc.shapes[idx := ShapeGrid(lines[1..])]))
  }

  /** The blocks read in order from nothing, or `None` from the first block that raises. */
  function Blocks(blocks: seq<string>): Option<Parsed>
  {
    if blocks == [] then Some(Parsed(map[], []))
    else
      match Blocks(blocks[..|blocks| - 1])
      case None => None
      case Some(acc) => Block(acc, blocks[|blocks| - 1])
  }

  lemma {:induction false} BlocksNoneStays(blocks: seq<string>, k: nat)
    requires k <= |blocks| && Blocks(blocks[..k]) == None
    ensures Blocks(blocks) == None
    decreases |blocks| - k
  {
    if k < |blocks| {
      assert blocks[..k + 1][..k] == blocks[..k];
      BlocksNoneStays(blocks, k + 1);
    } else {
      assert blocks[..k] == blocks;
    }
  }

  lemma BlocksStep(blocks: seq<string>, k: nat, acc: Parsed)
    requires k < |blocks| && Blocks(blocks[..k]) == Some(acc)
    ensures Blocks(blocks[..k + 1]) == Block(acc, blocks[k])
  {
    assert blocks[..k + 1][..k] == blocks[..k];
  }

  /** `parse_input` on the text of the file. */
  function Parse(content: string): Option<Parsed>
  {
    Blocks(SplitOn(content, "\n\n"))
  }

  // ---------------------------------------------------------------------------------------
  // The loops of `parse_input`.

  /** `for c in b_line: row.append(1 if c == '#' else 0)` */
  method ReadRow(line: string) returns (row: seq<bool>)
    ensures row == ShapeRow(line)
  {
    row := [];
    for c := 0 to |line|
      invariant row == ShapeRow(line[..c])
    {
      assert line[..c + 1][..c] == line[..c];
      row := row + [line[c] == '#'];
    }
    assert line[..|line|] == line;
  }

  /** `for b_line in lines[1:]`: the rows of the shape under its header line. */
  method ReadShape(lines: seq<string>) returns (grid: Grid)
    requires lines != []
    ensures grid == ShapeGrid(lines[1..])
  {
    grid := [];
    var rest := lines[1..];
    for k := 0 to |rest|
      invariant grid == ShapeGrid(rest[..k])
    {
      var line := Strip(rest[k]);
      ShapeGridStep(rest, k);
      if line == [] {
        continue;
      }
      var row := ReadRow(line);
      if row != [] {
        grid := grid + [row];
      }
    }
    assert rest[..|rest|] == rest;
  }

  lemma ShapeGridStep(lines: seq<string>, k: nat)
    requires k < |lines|
    ensures ShapeGrid(lines[..k + 1])
      == ShapeGrid(lines[..k]) + (if Strip(lines[k]) == [] then [] else [ShapeRow(Strip(lines[k]))])
  {
    assert lines[..k + 1][..k] == lines[..k];
  }

  /** `for line in lines` of a regions block. */
  method ReadRegions(lines: seq<string>) returns (r: Option<seq<RawRegion>>)
    ensures r == RegionLines(lines)
  {
    var regions := [];
    for k := 0 to |lines|
      invariant RegionLines(lines[..k]) == Some(regions)
    {
      assert lines[..k + 1][..k] == lines[..k];
      var found := RegionLine(lines[k]);
      if found.None? {
        RegionLinesNoneStays(lines, k + 1);
        return None;
      }
      if found.value.Some? {
        regions := regions + [found.value.value];
      }
    }
    assert lines[..|lines|] == lines;
    return Some(regions);
  }

  /** The body of `for block in blocks`: one block added to what has been read so far. */
  method ReadBlock(acc: Parsed, block: string) returns (r: Option<Parsed>)
    ensures r == Block(acc, block)
  {
    var b := Strip(block);
    if b == [] {
      return Some(acc);
    }
    var lines := Split(b, '\n');
    var first := Strip(lines[0]);
    if 'x' in first && ':' in first {
      var found := ReadRegions(lines);
      if found.None? {
        return None;
      }
      return Some(acc.(regions := acc.regions + found.value));
    }
    var parts := SplitColon(first);
    if parts.None? {
      return Some(acc);
    }
    var idx := ParseInt(Strip(parts.value.0));
    if idx.None? {
      return None;
    }
    var grid := ReadShape(lines);
    return Some(acc.(shapes := acc.shapes[idx.value := grid]));
  }

  /** `parse_input`: the blocks in order; `None` where the source raises ValueError. */
  method ParseInput(content: string) returns (r: Option<Parsed>)
    ensures r == Parse(content)
  {
    var blocks := SplitOn(content, "\n\n");
    var acc := Parsed(map[], []);
    for k := 0 to |blocks|
      invariant Blocks(blocks[..k]) == Some(acc)
    {
      var next := ReadNext(blocks, k, acc);
      if next.None? {
        BlocksNoneStays(blocks, k + 1);
        return None;
      }
      acc := next.value;
    }
    assert blocks[..|blocks|] == blocks;
    return Some(acc);
  }

  /** One turn of `for block in blocks`: what has been read so far, with block `k` added. */
  method ReadNext(blocks: seq<string>, k: nat, acc: Parsed) returns (r: Option<Parsed>)
    requires k < |blocks| && Blocks(blocks[..k]) == Some(acc)
    ensures r == Blocks(blocks[..k + 1])
  {
    BlocksStep(blocks, k, acc);
    r := ReadBlock(acc, blocks[k]);
  }
}
