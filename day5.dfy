/**
 * Day 5: ingredient ID ranges and the IDs to check. An ID is fresh when it lies in some
 * range, both ends included; the scripts count the fresh IDs, list them, and write one ROM
 * bit per ID for the hardware.
 */
module Day5 {
  import opened Common
  import opened PyText
  import opened VerilogRom

  /** A `start-end` line. */
  datatype Range = Range(start: int, end: int)

  // ---------------------------------------------------------------------------------------
  // parse_input

  /** `start, end = map(int, line.split('-'))`: exactly two pieces, each an integer. */
  function RangeOf(line: string): Option<Range>
  {
    var ps := Split(line, '-');
    if |ps| != 2 then None
    else
      match (ParseInt(ps[0]), ParseInt(ps[1]))
      case (Some(a), Some(b)) => Some(Range(a, b))
      case _ => None
  }

  /**
   * The range lines and the ID lines: the stripped text cut at each blank line, the first
   * two pieces split into lines; `None` without a blank line (IndexError on `parts[1]`).
   */
  function Sections(text: string): Option<(seq<string>, seq<string>)>
  {
    var parts := SplitOn(Strip(text), "\n\n");
    if |parts| < 2 then None else Some((Split(parts[0], '\n'), Split(parts[1], '\n')))
  }

  /** Every range line parsed, or `None` at the first that is not one. */
  function RangesOf(lines: seq<string>): (r: Option<seq<Range>>)
    ensures r.Some? ==> |r.value| == |lines|
  {
    if lines == [] then Some([])
    else
      match (RangesOf(lines[..|lines| - 1]), RangeOf(lines[|lines| - 1]))
      case (Some(rs), Some(x)) => Some(rs + [x])
      case _ => None
  }

  /** `int(line)` for every ID line, or `None` at the first that is not an integer. */
  function IdsOf(lines: seq<string>): (r: Option<seq<int>>)
    ensures r.Some? ==> |r.value| == |lines|
  {
    if lines == [] then Some([])
    else
      match (IdsOf(lines[..|lines| - 1]), ParseInt(lines[|lines| - 1]))
      case (Some(ids), Some(x)) => Some(ids + [x])
      case _ => None
  }

  /** What `parse_input` returns, `None` where it raises. */
  function Parsed(text: string): Option<(seq<Range>, seq<int>)>
  {
    match Sections(text)
    case None => None
    case Some((rl, il)) =>
      match (RangesOf(rl), IdsOf(il))
      case (Some(rs), Some(ids)) => Some((rs, ids))
      case _ => None
  }

  lemma {:induction false} RangesNoneStays(lines: seq<string>, k: nat)
    requires k <= |lines| && RangesOf(lines[..k]) == None
    ensures RangesOf(lines) == None
    decreases |lines| - k
  {
    if k < |lines| {
      assert lines[..k + 1][..k] == lines[..k];
      RangesNoneStays(lines, k + 1);
    } else {
      assert lines[..k] == lines;
    }
  }

  lemma {:induction false} IdsNoneStays(lines: seq<string>, k: nat)
    requires k <= |lines| && IdsOf(lines[..k]) == None
    ensures IdsOf(lines) == None
    decreases |lines| - k
  {
    if k < |lines| {
      assert lines[..k + 1][..k] == lines[..k];
      IdsNoneStays(lines, k + 1);
    } else {
      assert lines[..k] == lines;
    }
  }

  /** The range loop of `parse_input`. */
  method ReadRanges(lines: seq<string>) returns (r: Option<seq<Range>>)
    ensures r == RangesOf(lines)
  {
    var ranges := [];
    for k := 0 to |lines|
      invariant RangesOf(lines[..k]) == Some(ranges)
    {
      assert lines[..k + 1][..k] == lines[..k];
      var x := RangeOf(lines[k]);
      if x.None? {
        RangesNoneStays(lines, k + 1);
        return None;
      }
      ranges := ranges + [x.value];
    }
    assert lines[..|lines|] == lines;
    return Some(ranges);
  }

  /** The ID loop of `parse_input`. */
  method ReadIds(lines: seq<string>) returns (r: Option<seq<int>>)
    ensures r == IdsOf(lines)
  {
    var ids := [];
    for k := 0 to |lines|
      invariant IdsOf(lines[..k]) == Some(ids)
    {
      assert lines[..k + 1][..k] == lines[..k];
      var x := ParseInt(lines[k]);
      if x.None? {
        IdsNoneStays(lines, k + 1);
        return None;
      }
      ids := ids + [x.value];
    }
    assert lines[..|lines|] == lines;
    return Some(ids);
  }

  /** `parse_input` on the file's text; `None` where it raises. */
  method ParseInput(text: string) returns (r: Option<(seq<Range>, seq<int>)>)
    ensures r == Parsed(text)
  {
    var sections := Sections(text);
    if sections.None? {
      return None;
    }
    var ranges := ReadRanges(sections.value.0);
    if ranges.None? {
      return None;
    }
    var ids := ReadIds(sections.value.1);
    if ids.None? {
      return None;
    }
    return Some((ranges.value, ids.value));
  }

  /** A blank line, `\n\n`, starts at `j`. */
  predicate BlankAt(c: string, j: int)
  {
    0 <= j && j + 2 <= |c| && c[j..j + 2] == "\n\n"
  }

  /**
   * The cut is at the first blank line: the range lines joined back are the stripped text
   * up to the first `\n\n`, and the ID lines joined back are what follows it, up to the
   * next `\n\n` or the end.
   */
  lemma SectionsCut(text: string)
    requires Sections(text).Some?
    ensures var c := Strip(text);
      exists i :: BlankAt(c, i) && (forall j | 0 <= j < i :: !BlankAt(c, j))
        && JoinSep(Sections(text).value.0, '\n') == c[..i]
        && var rest := c[i + 2..];
           var ids := JoinSep(Sections(text).value.1, '\n');
           ids <= rest && (ids == rest || BlankAt(rest, |ids|))
  {
    var c := Strip(text);
    var parts := SplitOn(c, "\n\n");
    var i := Find(c, "\n\n").value;
    var rest := c[i + 2..];
    assert parts[0] == c[..i] && parts[1] == SplitOn(rest, "\n\n")[0];
    JoinSplit(parts[0], '\n');
    JoinSplit(parts[1], '\n');
    FirstBlank(c);
    FirstPiece(rest);
  }

  /** `Find` stops at the first blank line. */
  lemma FirstBlank(c: string)
    requires Find(c, "\n\n").Some?
    ensures BlankAt(c, Find(c, "\n\n").value)
    ensures forall j | 0 <= j < Find(c, "\n\n").value :: !BlankAt(c, j)
  {
    forall j | 0 <= j < Find(c, "\n\n").value
      ensures !BlankAt(c, j)
    {
      if BlankAt(c, j) {
        FindLeftmost(c, "\n\n", j);
      }
    }
  }

  /** The first piece of a cut ends the text or stops at a blank line. */
  lemma FirstPiece(rest: string)
    ensures var p := SplitOn(rest, "\n\n")[0];
      p <= rest && (p == rest || BlankAt(rest, |p|))
  {
  }

  // ---------------------------------------------------------------------------------------
  // solve

  /** `start <= id_val <= end` */
  predicate InRange(x: Range, id: int)
  {
    x.start <= id <= x.end
  }

  /** Some range holds the ID. */
  predicate Fresh(ranges: seq<Range>, id: int)
  {
    exists k :: 0 <= k < |ranges| && InRange(ranges[k], id)
  }

  /** The inner loop: stop at the first range holding the ID. */
  method IsFresh(ranges: seq<Range>, id: int) returns (isFresh: bool)
    ensures isFresh <==> Fresh(ranges, id)
  {
    for k := 0 to |ranges|
      invariant forall j | 0 <= j < k :: !InRange(ranges[j], id)
    {
      if ranges[k].start <= id <= ranges[k].end {
        return true;
      }
    }
    return false;
  }

  /** The fresh IDs in input order, each occurrence kept. */
  function FreshIds(ranges: seq<Range>, ids: seq<int>): seq<int>
  {
    if ids == [] then []
    else FreshIds(ranges, ids[..|ids| - 1]) + (if Fresh(ranges, ids[|ids| - 1]) then [ids[|ids| - 1]] else [])
  }

  /**
   * The outer loop of `solve`: each fresh ID counted and listed in input order (`matches`
   * of the precomputation).
   */
  method CountFresh(ranges: seq<Range>, ids: seq<int>) returns (count: nat, matches: seq<int>)
    ensures matches == FreshIds(ranges, ids) && count == |matches|
  {
    count, matches := 0, [];
    for k := 0 to |ids|
      invariant matches == FreshIds(ranges, ids[..k]) && count == |matches|
    {
      assert ids[..k + 1][..k] == ids[..k];
      var isFresh := IsFresh(ranges, ids[k]);
      if isFresh {
        count := count + 1;
        matches := matches + [ids[k]];
      }
    }
    assert ids[..|ids|] == ids;
  }

  /**
   * An ID in several ranges counts once, and a repeated ID once per occurrence: the fresh
   * list holds each value as often as the input when it is fresh, and never otherwise.
   */
  lemma {:induction false} FreshOccurrences(ranges: seq<Range>, ids: seq<int>, x: int)
    ensures multiset(FreshIds(ranges, ids))[x] == if Fresh(ranges, x) then multiset(ids)[x] else 0
  {
    if ids != [] {
      var p := ids[..|ids| - 1];
      FreshOccurrences(ranges, p, x);
      assert ids == p + [ids[|ids| - 1]];
    }
  }

  /** The count never exceeds the number of IDs, and is 0 without ranges. */
  lemma {:induction false} FreshBound(ranges: seq<Range>, ids: seq<int>)
    ensures |FreshIds(ranges, ids)| <= |ids|
    ensures ranges == [] ==> FreshIds(ranges, ids) == []
  {
    if ids != [] {
      FreshBound(ranges, ids[..|ids| - 1]);
    }
  }

  /** `solve` of the solution script: the number of fresh IDs; `None` where parsing raises. */
  method Solve(text: string) returns (r: Option<nat>)
    ensures r.None? <==> Parsed(text).None?
    ensures r.Some? ==> r.value == |FreshIds(Parsed(text).value.0, Parsed(text).value.1)|
  {
    var parsed := ParseInput(text);
    if parsed.None? {
      return None;
    }
    var count, _ := CountFresh(parsed.value.0, parsed.value.1);
    return Some(count);
  }

  /** `solve` of the precomputation: the count and the fresh IDs in input order. */
  method Precompute(text: string) returns (r: Option<(nat, seq<int>)>)
    ensures r.None? <==> Parsed(text).None?
    ensures r.Some? ==>
      r.value.1 == FreshIds(Parsed(text).value.0, Parsed(text).value.1) && r.value.0 == |r.value.1|
  {
    var parsed := ParseInput(text);
    if parsed.None? {
      return None;
    }
    var count, matches := CountFresh(parsed.value.0, parsed.value.1);
    return Some((count, matches));
  }

  // ---------------------------------------------------------------------------------------
  // The ROM generator

  /** `rom_data`: 1 for a fresh ID, 0 otherwise, one entry per ID. */
  function FreshBits(ranges: seq<Range>, ids: seq<int>): (bits: seq<nat>)
    ensures |bits| == |ids|
  {
    if ids == [] then []
    else FreshBits(ranges, ids[..|ids| - 1]) + [if Fresh(ranges, ids[|ids| - 1]) then 1 else 0]
  }

  /** Entry `i` is 1 exactly when ID `i` is fresh. */
  lemma {:induction false} FreshBitAt(ranges: seq<Range>, ids: seq<int>, i: nat)
    requires i < |ids|
    ensures FreshBits(ranges, ids)[i] == if Fresh(ranges, ids[i]) then 1 else 0
  {
    if i < |ids| - 1 {
      FreshBitAt(ranges, ids[..|ids| - 1], i);
    }
  }

  /** `count` is `sum(rom_data)`. */
  lemma {:induction false} FreshBitsSum(ranges: seq<Range>, ids: seq<int>)
    ensures Sum(FreshBits(ranges, ids)) == |FreshIds(ranges, ids)|
  {
    if ids != [] {
      var p := ids[..|ids| - 1];
      FreshBitsSum(ranges, p);
      SumAppend(FreshBits(ranges, p), [if Fresh(ranges, ids[|ids| - 1]) then 1 else 0]);
    }
  }

  /** The generator's loop: a bit per ID, and `count` raised with every 1. */
  method RomData(ranges: seq<Range>, ids: seq<int>) returns (rom: seq<nat>, count: nat)
    ensures rom == FreshBits(ranges, ids) && count == |FreshIds(ranges, ids)|
  {
    rom, count := [], 0;
    for k := 0 to |ids|
      invariant rom == FreshBits(ranges, ids[..k]) && count == |FreshIds(ranges, ids[..k])|
    {
      assert ids[..k + 1][..k] == ids[..k];
      var isFresh := IsFresh(ranges, ids[k]);
      if isFresh {
        rom := rom + [1];
        count := count + 1;
      } else {
        rom := rom + [0];
      }
    }
    assert ids[..|ids|] == ids;
  }

  /** Assignments per group of lines in the `initial` block. */
  const Group: nat := 20

  /** `DEPTH`, the `Sum:` comment and the address bus top index. */
  datatype Header = Header(depth: nat, count: nat, addrTop: int)

  /**
   * `generate_rom_verilog_day5`: the header and one assignment per address, in groups of
   * 20; `None` where parsing raises.
   */
  method GenerateRomVerilog(text: string) returns (r: Option<(Header, seq<(nat, nat)>)>)
    ensures r.None? <==> Parsed(text).None?
    ensures r.Some? ==>
      var (ranges, ids) := Parsed(text).value;
      var rom := FreshBits(ranges, ids);
      r.value.0 == Header(|ids|, |FreshIds(ranges, ids)|, AddrTop(|ids|))
      && |r.value.1| == |ids| && forall j | 0 <= j < |ids| :: r.value.1[j] == (j, rom[j])
  {
    var parsed := ParseInput(text);
    if parsed.None? {
      return None;
    }
    var rom, count := RomData(parsed.value.0, parsed.value.1);
    var assigns := Assignments(rom, Group);
    return Some((Header(|rom|, count, AddrTop(|rom|)), assigns));
  }
}
