/**
 * Writing a Day 12 input: region lines `WxH: c0 c1 ...`, shape blocks `idx:` followed by
 * rows of `#` and `.`, blocks separated by a blank line. Reading what is written this way
 * with `parse_input` gives back the shapes and the regions written.
 */
module Day12Print {
  import opened Common
  import opened PyText
  import opened Day12Input

  /** The digit character of `d`. */
  function DigitChar(d: nat): (c: char)
    requires d < 10
    ensures IsDigit(c) && DigitValue(c) == d
  {
    ('0' as int + d) as char
  }

  /** `str(n)`: the decimal digits of `n`, most significant first. */
  function Dec(n: nat): (s: string)
    ensures s != [] && AllDigits(s) && DecimalValue(s) == n
    decreases n
  {
    if n < 10 then
      var s := [DigitChar(n)];
      assert s[..0] == [];
      s
    else
      var d := Dec(n / 10);
      var c := DigitChar(n % 10);
      assert (d + [c])[..|d|] == d;
      d + [c]
  }

  /** Digits are neither white space nor any of the separators of the input. */
  lemma DigitsPlain(s: string)
    requires AllDigits(s)
    ensures Unspaced(s) && ':' !in s && 'x' !in s && '\n' !in s
  {
    forall i | 0 <= i < |s|
      ensures !IsSpace(s[i])
    {
      assert IsDigit(s[i]);
    }
  }

  /** `int(str(n)) == n`. */
  lemma ParseIntDec(n: nat)
    ensures ParseInt(Dec(n)) == Some(n)
  {
    var s := Dec(n);
    DigitsPlain(s);
    StripNoSpace(s);
    assert IsDigit(s[0]);
  }

  /** Text with a non-space character at each end is its own `strip()`. */
  lemma StripEnds(s: string)
    requires |s| > 0 && !IsSpace(s[0]) && !IsSpace(s[|s| - 1])
    ensures Strip(s) == s
  {
    assert LStrip(s) == s;
  }

  // ---------------------------------------------------------------------------------------
  // Counts separated by spaces.

  /** Every count is a natural number. */
  predicate Naturals(cs: seq<int>)
  {
    forall k | 0 <= k < |cs| :: cs[k] >= 0
  }

  /** `" " + str(c)` for each count in turn. */
  function Spaced(cs: seq<int>): string
    requires Naturals(cs)
  {
    if cs == [] then [] else " " + Dec(cs[0]) + Spaced(cs[1..])
  }

  /** `[str(c) for c in cs]` */
  function Decs(cs: seq<int>): (ws: seq<string>)
    requires Naturals(cs)
    ensures |ws| == |cs|
  {
    seq(|cs|, k requires 0 <= k < |cs| => Dec(cs[k]))
  }

  /** Spaced counts start with a space and end with a digit. */
  lemma {:induction false} SpacedEnds(cs: seq<int>)
    requires Naturals(cs) && cs != []
    ensures |Spaced(cs)| >= 2 && Spaced(cs)[0] == ' '
    ensures IsDigit(Spaced(cs)[|Spaced(cs)| - 1])
  {
    var d := Dec(cs[0]);
    var s := Spaced(cs);
    if cs[1..] == [] {
      assert Spaced(cs[1..]) == [];
      assert s == " " + d;
      assert s[|s| - 1] == d[|d| - 1];
    } else {
      SpacedEnds(cs[1..]);
      var rest := Spaced(cs[1..]);
      assert s == " " + d + rest;
      assert s[|s| - 1] == rest[|rest| - 1];
    }
  }

  /** A leading space does not change `split()`. */
  lemma SplitWsSpace(u: string)
    ensures SplitWs([' '] + u) == SplitWs(u)
  {
    assert ([' '] + u)[1..] == u;
    assert LStrip([' '] + u) == LStrip(u);
  }

  /** A word without spaces followed by a space (or nothing) is the first word of `split()`. */
  lemma SplitWsWord(d: string, rest: string)
    requires d != [] && Unspaced(d) && (rest == [] || IsSpace(rest[0]))
    ensures SplitWs(d + rest) == [d] + SplitWs(rest)
  {
    var s := d + rest;
    var k := SpaceIndex(s);
    assert k == |d| by {
      assert forall i | 0 <= i < |d| :: s[i] == d[i] && !IsSpace(s[i]);
      assert rest != [] ==> s[|d|] == rest[0] && IsSpace(s[|d|]);
    }
    assert LStrip(s) == s by {
      assert s[0] == d[0];
    }
    assert s[..k] == d && s[k..] == rest;
  }

  /** `" ".join(...).split()` gives the words back. */
  lemma {:induction false} SplitWsSpaced(cs: seq<int>)
    requires Naturals(cs)
    ensures SplitWs(Spaced(cs)) == Decs(cs)
  {
    if cs != [] {
      var d := Dec(cs[0]);
      var rest := Spaced(cs[1..]);
      if cs[1..] != [] {
        SpacedEnds(cs[1..]);
      }
      DigitsPlain(d);
      assert Spaced(cs) == [' '] + (d + rest);
      SplitWsSpace(d + rest);
      SplitWsWord(d, rest);
      SplitWsSpaced(cs[1..]);
      DecsCons(cs);
    }
  }

  lemma DecsCons(cs: seq<int>)
    requires Naturals(cs) && cs != []
    ensures Decs(cs) == [Dec(cs[0])] + Decs(cs[1..])
  {
    forall k | 0 <= k < |cs|
      ensures Decs(cs)[k] == ([Dec(cs[0])] + Decs(cs[1..]))[k]
    {
      if k > 0 {
        assert cs[1..][k - 1] == cs[k];
      }
    }
  }

  /** Text that starts and ends with a digit is its own `strip()`. */
  lemma DigitEnds(s: string)
    requires |s| > 0 && IsDigit(s[0]) && IsDigit(s[|s| - 1])
    ensures LStrip(s) == s && RStrip(s) == s && Strip(s) == s
  {
    assert !IsSpace(s[0]) && !IsSpace(s[|s| - 1]);
  }

  lemma SpacedCons(cs: seq<int>)
    requires Naturals(cs) && cs != []
    ensures Spaced(cs) == [' '] + (Dec(cs[0]) + Spaced(cs[1..]))
  {
  }

  /** Stripping the spaced counts drops the leading space. */
  lemma StripSpaced(cs: seq<int>)
    requires Naturals(cs) && cs != []
    ensures Strip(Spaced(cs)) == Dec(cs[0]) + Spaced(cs[1..])
  {
    var u := Dec(cs[0]) + Spaced(cs[1..]);
    SpacedCons(cs);
    SpacedEnds(cs);
    LStripSpace(u);
    assert u[0] == Dec(cs[0])[0];
    assert u[|u| - 1] == Spaced(cs)[|Spaced(cs)| - 1];
    DigitEnds(u);
  }

  lemma LStripSpace(u: string)
    ensures LStrip([' '] + u) == LStrip(u)
  {
    assert ([' '] + u)[1..] == u;
  }

  /** The counts after the colon, stripped and split, read back as the counts. */
  lemma CountsBack(cs: seq<int>)
    requires Naturals(cs)
    ensures Ints(SplitWs(Strip(Spaced(cs)))) == Some(cs)
  {
    if cs != [] {
      var u := Dec(cs[0]) + Spaced(cs[1..]);
      StripSpaced(cs);
      SpacedCons(cs);
      SplitWsSpace(u);
      SplitWsSpaced(cs);
      assert SplitWs(Strip(Spaced(cs))) == Decs(cs);
    }
    IntsDecs(cs);
  }

  lemma IntsSnoc(ws: seq<string>, w: string, vs: seq<int>, v: int)
    requires Ints(ws) == Some(vs) && ParseInt(w) == Some(v)
    ensures Ints(ws + [w]) == Some(vs + [v])
  {
    assert (ws + [w])[..|ws|] == ws;
    assert (ws + [w])[|ws|] == w;
  }

  lemma {:induction false} IntsDecs(cs: seq<int>)
    requires Naturals(cs)
    ensures Ints(Decs(cs)) == Some(cs)
  {
    if cs != [] {
      var n := |cs| - 1;
      var front := cs[..n];
      assert Decs(cs) == Decs(front) + [Dec(cs[n])];
      IntsDecs(front);
      ParseIntDec(cs[n]);
      IntsSnoc(Decs(front), Dec(cs[n]), front, cs[n]);
      assert front + [cs[n]] == cs;
    }
  }

  // ---------------------------------------------------------------------------------------
  // Region lines.

  /** A region `parse_input` can meet in a well-formed input: no negative number. */
  predicate Printable(r: RawRegion)
  {
    r.w >= 0 && r.h >= 0 && Naturals(r.counts)
  }

  /** `f"{w}x{h}:" + "".join(" " + str(c) for c in counts)` */
  function RegionText(r: RawRegion): string
    requires Printable(r)
  {
    Dec(r.w) + "x" + Dec(r.h) + ":" + Spaced(r.counts)
  }

  /** A non-empty run of decimal digits, as `str` writes a natural number. */
  predicate Numeral(s: string)
  {
    s != [] && AllDigits(s)
  }

  /** The size part `WxH` is free of white space and colons, and holds an `x`. */
  lemma SizeText(a: string, b: string)
    requires Numeral(a) && Numeral(b)
    ensures var head := a + "x" + b;
      Unspaced(head) && ':' !in head && '\n' !in head && 'x' in head
      && Split(head, 'x') == [a, b]
  {
    var head := a + "x" + b;
    DigitsPlain(a);
    DigitsPlain(b);
    assert head[|a|] == 'x';
    SplitCons(a, 'x', b);
  }

  /** `RegionLine` taken apart into the steps of the source line by line. */
  lemma RegionLineOf(t: string, head: string, body: string, a: string, b: string,
                     w: int, h: int, cs: seq<int>)
    requires t != [] && Strip(t) == t && SplitColon(t) == Some((head, body))
    requires Strip(head) == head && 'x' in head && Split(head, 'x') == [a, b]
    requires ParseInt(a) == Some(w) && ParseInt(b) == Some(h)
    requires Ints(SplitWs(Strip(body))) == Some(cs)
    ensures RegionLine(t) == Some(Some(RawRegion(w, h, cs)))
  {
    SizedOf(a, b, body, w, h, cs);
    RegionPartsOf(head, a, b, body, Some(Some(RawRegion(w, h, cs))));
    RegionLineParts(t, head, body, Some(Some(RawRegion(w, h, cs))));
  }

  lemma SizedOf(a: string, b: string, body: string, w: int, h: int, cs: seq<int>)
    requires ParseInt(a) == Some(w) && ParseInt(b) == Some(h)
    requires Ints(SplitWs(Strip(body))) == Some(cs)
    ensures Sized([a, b], body) == Some(Some(RawRegion(w, h, cs)))
  {
  }

  lemma RegionPartsOf(head: string, a: string, b: string, body: string, r: Option<Option<RawRegion>>)
    requires 'x' in head && Split(head, 'x') == [a, b] && Sized([a, b], body) == r
    ensures RegionParts(head, body) == r
  {
  }

  lemma RegionLineParts(t: string, head: string, body: string, r: Option<Option<RawRegion>>)
    requires t != [] && Strip(t) == t && SplitColon(t) == Some((head, body))
    requires Strip(head) == head && RegionParts(head, body) == r
    ensures RegionLine(t) == r
  {
  }

  /** `split(':', 1)` cuts at the colon after a colon-free head. */
  lemma ColonAfter(head: string, body: string)
    requires ':' !in head
    ensures SplitColon(head + ":" + body) == Some((head, body))
  {
    var s := head + ":" + body;
    assert s[..|head|] == head && s[|head| + 1..] == body;
    IndexOfAt(s, ':', |head|);
  }

  /** A region line reads back as the region written. */
  lemma RegionLineRoundTrip(r: RawRegion)
    requires Printable(r)
    ensures RegionLine(RegionText(r)) == Some(Some(r))
  {
    var head := Dec(r.w) + "x" + Dec(r.h);
    var body := Spaced(r.counts);
    var s := RegionText(r);
    SizeText(Dec(r.w), Dec(r.h));
    assert s == head + ":" + body;
    assert Strip(s) == s by {
      if r.counts != [] {
        SpacedEnds(r.counts);
        assert s[|s| - 1] == body[|body| - 1];
      } else {
        assert s[|s| - 1] == ':';
      }
      assert s[0] == Dec(r.w)[0] && IsDigit(s[0]);
      StripEnds(s);
    }
    ColonAfter(head, body);
    StripNoSpace(head);
    ParseIntDec(r.w);
    ParseIntDec(r.h);
    CountsBack(r.counts);
    RegionLineOf(s, head, body, Dec(r.w), Dec(r.h), r.w, r.h, r.counts);
  }

  /** The first and the last character of a text joined by `c`. */
  lemma {:induction false} JoinSepEnds(ls: seq<string>, c: char)
    requires ls != [] && forall i | 0 <= i < |ls| :: ls[i] != []
    ensures var s := JoinSep(ls, c);
      |s| > 0 && s[0] == ls[0][0] && s[|s| - 1] == ls[|ls| - 1][|ls[|ls| - 1]| - 1]
  {
    if |ls| > 1 {
      JoinSepEnds(ls[1..], c);
      var rest := JoinSep(ls[1..], c);
      assert JoinSep(ls, c) == ls[0] + [c] + rest;
    }
  }

  /** Splitting a text joined by `c` gives the parts back when none holds `c`. */
  lemma {:induction false} SplitJoinSep(ls: seq<string>, c: char)
    requires ls != [] && NoSep(ls, c)
    ensures Split(JoinSep(ls, c), c) == ls
  {
    if |ls| == 1 {
      assert JoinSep(ls, c) == ls[0];
    } else {
      SplitJoinSep(ls[1..], c);
      SplitCons(ls[0], c, JoinSep(ls[1..], c));
      assert ls == [ls[0]] + ls[1..];
    }
  }

  // ---------------------------------------------------------------------------------------
  // Shape blocks.

  /** A shape row as written: `#` for a filled cell, `.` for an empty one. */
  function RowText(row: seq<bool>): (t: string)
    ensures |t| == |row|
  {
    seq(|row|, c requires 0 <= c < |row| => if row[c] then '#' else '.')
  }

  /** The rows of a grid as written. */
  function RowTexts(g: Grid): (ls: seq<string>)
    ensures |ls| == |g|
  {
    seq(|g|, r requires 0 <= r < |g| => RowText(g[r]))
  }

  /** No row is empty: an empty row would be a blank line, which the reader passes over. */
  predicate NoEmptyRow(g: Grid)
  {
    forall r | 0 <= r < |g| :: g[r] != []
  }

  /** The block of shape `idx`: the header `idx:`, then one line per row. */
  function ShapeText(idx: nat, g: Grid): string
  {
    JoinSep([Dec(idx) + ":"] + RowTexts(g), '\n')
  }

  /** A written row holds only `#` and `.`: it is its own `strip()` and holds no newline. */
  lemma RowTextPlain(row: seq<bool>)
    requires row != []
    ensures var t := RowText(row);
      t != [] && '\n' !in t && Strip(t) == t
  {
    var t := RowText(row);
    assert Unspaced(t) && '\n' !in t by {
      forall i | 0 <= i < |t|
        ensures !IsSpace(t[i]) && t[i] != '\n'
      {
        assert t[i] == '#' || t[i] == '.';
      }
    }
    StripNoSpace(t);
  }

  /** A written row reads back as the row. */
  lemma RowTextBack(row: seq<bool>)
    ensures ShapeRow(RowText(row)) == row
  {
    var t := RowText(row);
    forall c | 0 <= c < |row|
      ensures ShapeRow(t)[c] == row[c]
    {
      assert t[c] == (if row[c] then '#' else '.');
    }
  }

  lemma ShapeGridSnoc(lines: seq<string>, line: string, g: Grid)
    requires ShapeGrid(lines) == g && line != [] && Strip(line) == line
    ensures ShapeGrid(lines + [line]) == g + [ShapeRow(line)]
  {
    assert (lines + [line])[..|lines|] == lines;
  }

  /** The rows read back as the grid. */
  lemma {:induction false} ShapeGridBack(g: Grid)
    requires NoEmptyRow(g)
    ensures ShapeGrid(RowTexts(g)) == g
  {
    if g != [] {
      var n := |g| - 1;
      var front := g[..n];
      assert front + [g[n]] == g;
      assert RowTexts(g) == RowTexts(front) + [RowText(g[n])];
      assert ShapeGrid(RowTexts(front) + [RowText(g[n])]) == front + [g[n]] by {
        ShapeGridBack(front);
        RowTextPlain(g[n]);
        RowTextBack(g[n]);
        ShapeGridSnoc(RowTexts(front), RowText(g[n]), front);
      }
    }
  }

  /** The lines of a shape block: its header and its rows. */
  lemma ShapeLines(idx: nat, g: Grid)
    requires NoEmptyRow(g)
    ensures var ls := [Dec(idx) + ":"] + RowTexts(g);
      NoSep(ls, '\n') && (forall i | 0 <= i < |ls| :: ls[i] != [])
      && Split(ShapeText(idx, g), '\n') == ls
  {
    var ls := [Dec(idx) + ":"] + RowTexts(g);
    DigitsPlain(Dec(idx));
    forall i | 0 <= i < |ls|
      ensures '\n' !in ls[i] && ls[i] != []
    {
      if i > 0 {
        RowTextPlain(g[i - 1]);
      }
    }
    SplitJoinSep(ls, '\n');
  }

  /** A shape block as `Block` meets it, step by step. */
  lemma ShapeBlockOf(acc: Parsed, block: string, lines: seq<string>, before: string, after: string, idx: int)
    requires block != [] && Strip(block) == block && Split(block, '\n') == lines
    requires Strip(lines[0]) == lines[0] && 'x' !in lines[0]
    requires SplitColon(lines[0]) == Some((before, after)) && ParseInt(Strip(before)) == Some(idx)
    ensures Block(acc, block) == Some(acc.(shapes := acc.shapes[idx := ShapeGrid(lines[1..])]))
  {
  }

  /** A shape block reads back as the shape, set at its index. */
  lemma ShapeBlockRoundTrip(acc: Parsed, idx: nat, g: Grid)
    requires NoEmptyRow(g)
    ensures Block(acc, ShapeText(idx, g)) == Some(acc.(shapes := acc.shapes[idx := g]))
  {
    var ls := [Dec(idx) + ":"] + RowTexts(g);
    ShapeTextFacts(idx, g);
    ShapeBlockOf(acc, ShapeText(idx, g), ls, Dec(idx), [], idx);
  }

  /** What `Block` reads on the way through a shape block. */
  lemma ShapeTextFacts(idx: nat, g: Grid)
    requires NoEmptyRow(g)
    ensures var text := ShapeText(idx, g);
      var ls := [Dec(idx) + ":"] + RowTexts(g);
      text != [] && Strip(text) == text && Split(text, '\n') == ls
      && Strip(ls[0]) == ls[0] && 'x' !in ls[0] && SplitColon(ls[0]) == Some((Dec(idx), []))
      && ParseInt(Strip(Dec(idx))) == Some(idx) && ShapeGrid(ls[1..]) == g
  {
    var ls := [Dec(idx) + ":"] + RowTexts(g);
    var text := ShapeText(idx, g);
    assert ls[0] == Dec(idx) + ":" && ls[1..] == RowTexts(g);
    assert Split(text, '\n') == ls by { ShapeLines(idx, g); }
    assert text != [] && Strip(text) == text by { ShapeTextStripped(idx, g); }
    HeaderText(idx);
    ShapeGridBack(g);
  }

  /** A shape block starts with a digit and ends with `:`, `#` or `.`, so it is its own `strip()`. */
  lemma ShapeTextStripped(idx: nat, g: Grid)
    requires NoEmptyRow(g)
    ensures ShapeText(idx, g) != [] && Strip(ShapeText(idx, g)) == ShapeText(idx, g)
  {
    var ls := [Dec(idx) + ":"] + RowTexts(g);
    var text := ShapeText(idx, g);
    assert forall i | 0 <= i < |ls| :: ls[i] != [];
    JoinSepEnds(ls, '\n');
    assert !IsSpace(text[0]) by {
      assert text[0] == Dec(idx)[0] && IsDigit(Dec(idx)[0]);
    }
    assert !IsSpace(text[|text| - 1]) by {
      if g != [] {
        var t := RowText(g[|g| - 1]);
        assert ls[|ls| - 1] == t;
        assert t[|t| - 1] == '#' || t[|t| - 1] == '.';
      }
    }
    StripEnds(text);
  }

  /** The header line `idx:` of a shape block. */
  lemma HeaderText(idx: nat)
    ensures var hd := Dec(idx) + ":";
      Strip(hd) == hd && 'x' !in hd && SplitColon(hd) == Some((Dec(idx), []))
      && ParseInt(Strip(Dec(idx))) == Some(idx)
  {
    var hd := Dec(idx) + ":";
    DigitsPlain(Dec(idx));
    assert hd == Dec(idx) + ":" + [];
    ColonAfter(Dec(idx), []);
    assert hd[0] == Dec(idx)[0] && hd[|hd| - 1] == ':';
    StripEnds(hd);
    StripNoSpace(Dec(idx));
    ParseIntDec(idx);
  }

  // ---------------------------------------------------------------------------------------
  // The regions block.

  /** Every region is printable. */
  predicate AllPrintable(rs: seq<RawRegion>)
  {
    forall i | 0 <= i < |rs| :: Printable(rs[i])
  }

  function RegionTexts(rs: seq<RawRegion>): (ls: seq<string>)
    requires AllPrintable(rs)
    ensures |ls| == |rs|
  {
    seq(|rs|, i requires 0 <= i < |rs| => RegionText(rs[i]))
  }

  /** The block of the regions: one line each. */
  function RegionsText(rs: seq<RawRegion>): string
    requires AllPrintable(rs)
  {
    JoinSep(RegionTexts(rs), '\n')
  }

  /** Spaced counts hold no newline. */
  lemma {:induction false} SpacedPlain(cs: seq<int>)
    requires Naturals(cs)
    ensures '\n' !in Spaced(cs)
  {
    if cs != [] {
      DigitsPlain(Dec(cs[0]));
      SpacedPlain(cs[1..]);
      SpacedCons(cs);
    }
  }

  /** A line `a x b : body` with numerals `a`, `b` and a body of spaced numerals. */
  lemma LineShape(a: string, b: string, body: string)
    requires Numeral(a) && Numeral(b) && '\n' !in body
    requires body == [] || IsDigit(body[|body| - 1])
    ensures var s := a + "x" + b + ":" + body;
      s != [] && 'x' in s && ':' in s && '\n' !in s
      && IsDigit(s[0]) && (IsDigit(s[|s| - 1]) || s[|s| - 1] == ':')
  {
    var head := a + "x" + b;
    var s := head + ":" + body;
    SizeText(a, b);
    assert s[|head|] == ':' && s[|a|] == 'x' && s[0] == a[0];
    assert body == [] ==> s[|s| - 1] == ':';
    assert body != [] ==> s[|s| - 1] == body[|body| - 1];
  }

  /** A region line starts with a digit, ends with a digit or the colon, holds `x`, `:` and no newline. */
  lemma RegionTextShape(r: RawRegion)
    requires Printable(r)
    ensures var s := RegionText(r);
      s != [] && 'x' in s && ':' in s && '\n' !in s
      && IsDigit(s[0]) && (IsDigit(s[|s| - 1]) || s[|s| - 1] == ':')
  {
    SpacedPlain(r.counts);
    if r.counts != [] {
      SpacedEnds(r.counts);
    }
    LineShape(Dec(r.w), Dec(r.h), Spaced(r.counts));
  }

  /** A region line is its own `strip()`. */
  lemma RegionTextStripped(r: RawRegion)
    requires Printable(r)
    ensures Strip(RegionText(r)) == RegionText(r)
  {
    RegionTextShape(r);
    StripEnds(RegionText(r));
  }

  lemma RegionLinesSnoc(lines: seq<string>, line: string, rs: seq<RawRegion>, r: RawRegion)
    requires RegionLines(lines) == Some(rs) && RegionLine(line) == Some(Some(r))
    ensures RegionLines(lines + [line]) == Some(rs + [r])
  {
    assert (lines + [line])[..|lines|] == lines;
  }

  /** The region lines read back as the regions, in order. */
  lemma {:induction false} RegionLinesBack(rs: seq<RawRegion>)
    requires AllPrintable(rs)
    ensures RegionLines(RegionTexts(rs)) == Some(rs)
  {
    if rs != [] {
      var n := |rs| - 1;
      var front := rs[..n];
      assert front + [rs[n]] == rs;
      assert RegionTexts(rs) == RegionTexts(front) + [RegionText(rs[n])];
      RegionLinesBack(front);
      RegionLineRoundTrip(rs[n]);
      RegionLinesSnoc(RegionTexts(front), RegionText(rs[n]), front, rs[n]);
    }
  }

  /** A regions block as `Block` meets it, step by step. */
  lemma RegionsBlockOf(acc: Parsed, block: string, lines: seq<string>, rs: seq<RawRegion>)
    requires block != [] && Strip(block) == block && Split(block, '\n') == lines
    requires Strip(lines[0]) == lines[0] && 'x' in lines[0] && ':' in lines[0]
    requires RegionLines(lines) == Some(rs)
    ensures Block(acc, block) == Some(acc.(regions := acc.regions + rs))
  {
  }

  /** A regions block reads back as its regions, added after those read before. */
  lemma RegionsBlockRoundTrip(acc: Parsed, rs: seq<RawRegion>)
    requires rs != [] && AllPrintable(rs)
    ensures Block(acc, RegionsText(rs)) == Some(acc.(regions := acc.regions + rs))
  {
    var ls := RegionTexts(rs);
    var text := RegionsText(rs);
    RegionsTextShape(rs);
    RegionTextStripped(rs[0]);
    RegionTextShape(rs[0]);
    RegionLinesBack(rs);
    RegionsBlockOf(acc, text, ls, rs);
  }

  /** The regions block splits into the region lines and is its own `strip()`. */
  lemma RegionsTextShape(rs: seq<RawRegion>)
    requires rs != [] && AllPrintable(rs)
    ensures var text := RegionsText(rs);
      text != [] && Strip(text) == text && Split(text, '\n') == RegionTexts(rs)
  {
    var ls := RegionTexts(rs);
    var text := RegionsText(rs);
    assert Split(text, '\n') == ls by {
      RegionsNoNewline(rs);
      SplitJoinSep(ls, '\n');
    }
    RegionsTextStripped(rs);
  }

  /** The regions block starts and ends with a region line, so it is its own `strip()`. */
  lemma RegionsTextStripped(rs: seq<RawRegion>)
    requires rs != [] && AllPrintable(rs)
    ensures RegionsText(rs) != [] && Strip(RegionsText(rs)) == RegionsText(rs)
  {
    var ls := RegionTexts(rs);
    assert forall i | 0 <= i < |ls| :: ls[i] != [] by { RegionsNoNewline(rs); }
    assert !IsSpace(ls[0][0]) by { RegionTextEnds(rs[0]); }
    assert !IsSpace(ls[|ls| - 1][|ls[|ls| - 1]| - 1]) by { RegionTextEnds(rs[|rs| - 1]); }
    JoinedStripped(ls, '\n');
  }

  /** Lines joined by `c` are their own `strip()` when the first and last characters are not spaces. */
  lemma JoinedStripped(ls: seq<string>, c: char)
    requires ls != [] && forall i | 0 <= i < |ls| :: ls[i] != []
    requires !IsSpace(ls[0][0]) && !IsSpace(ls[|ls| - 1][|ls[|ls| - 1]| - 1])
    ensures JoinSep(ls, c) != [] && Strip(JoinSep(ls, c)) == JoinSep(ls, c)
  {
    JoinSepEnds(ls, c);
    StripEnds(JoinSep(ls, c));
  }

  /** A region line starts with a digit and ends with a digit or the colon. */
  lemma RegionTextEnds(r: RawRegion)
    requires Printable(r)
    ensures var s := RegionText(r);
      s != [] && !IsSpace(s[0]) && !IsSpace(s[|s| - 1])
  {
    RegionTextShape(r);
  }

  lemma RegionsNoNewline(rs: seq<RawRegion>)
    requires AllPrintable(rs)
    ensures NoSep(RegionTexts(rs), '\n')
    ensures forall i | 0 <= i < |rs| :: RegionTexts(rs)[i] != []
  {
    var ls := RegionTexts(rs);
    forall i | 0 <= i < |ls|
      ensures ls[i] != [] && '\n' !in ls[i]
    {
      RegionTextShape(rs[i]);
    }
  }
}
