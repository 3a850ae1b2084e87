/**
 * The Day 4 character dump and its checker. `make_hex` writes the grid file with every line
 * stripped and newline-terminated, then three rows of `'.'`, one character code per line;
 * `verify_hex` reads the codes back into text, splits it into rows, compares them with the
 * grid file and runs the part 1 scan on the decoded rows.
 */
module Day4Hex {
  import opened Common
  import opened PyText
  import opened HexText
  import opened CharHex
  import opened RollGrid
  import Day4

  // ---------------------------------------------------------------------------------------
  // make_hex

  /** `'.' * width`, a padding row without its newline. */
  function DotRow(width: nat): (s: string)
    ensures |s| == width && forall i | 0 <= i < width :: s[i] == '.'
  {
    seq(width, _ => '.')
  }

  /** `line.strip()` for every line. */
  function StripAll(ls: seq<string>): (r: seq<string>)
    ensures |r| == |ls|
  {
    seq(|ls|, k requires 0 <= k < |ls| => Strip(ls[k]))
  }

  /**
   * The text `make_hex` dumps for the lines of the grid file: each line stripped and
   * newline-terminated, then three rows of `'.'` as wide as the first stripped line.
   */
  function Padded(lines: seq<string>): string
    requires |lines| >= 1
  {
    var w := |Strip(lines[0])|;
    JoinLines(StripAll(lines) + [DotRow(w), DotRow(w), DotRow(w)])
  }

  lemma JoinOne(s: string)
    ensures JoinLines([s]) == s + "\n"
  {
  }

  /** Joining one more line appends it and its newline. */
  lemma JoinStep(ls: seq<string>, k: nat)
    requires k < |ls|
    ensures JoinLines(ls[..k + 1]) == JoinLines(ls[..k]) + ls[k] + "\n"
  {
    JoinLinesAppend(ls[..k], [ls[k]]);
    JoinOne(ls[k]);
    assert ls[..k + 1] == ls[..k] + [ls[k]];
  }

  /** The three padding rows, joined. */
  lemma JoinDots(w: nat)
    ensures JoinLines([DotRow(w), DotRow(w), DotRow(w)])
      == (DotRow(w) + "\n") + (DotRow(w) + "\n") + (DotRow(w) + "\n")
  {
    var d := DotRow(w);
    JoinLinesAppend([d], [d, d]);
    JoinLinesAppend([d], [d]);
    JoinOne(d);
    assert [d] + [d, d] == [d, d, d];
    assert [d] + [d] == [d, d];
  }

  /** The content loop and the padding, as `make_hex` builds them. */
  method PadContent(lines: seq<string>) returns (content: string)
    requires |lines| >= 1
    ensures content == Padded(lines)
  {
    var stripped := StripAll(lines);
    content := "";
    for k := 0 to |lines|
      invariant content == JoinLines(stripped[..k])
    {
      JoinStep(stripped, k);
      content := content + Strip(lines[k]) + "\n";
    }
    var w := |Strip(lines[0])|;
    var dummy := DotRow(w) + "\n";
    content := content + dummy + dummy + dummy;
    assert stripped[..|lines|] == stripped;
    JoinLinesAppend(stripped, [DotRow(w), DotRow(w), DotRow(w)]);
    JoinDots(w);
  }

  /**
   * `make_hex` (and `make_hex_example`, which differs only in the file it reads): `None` for
   * an empty file (the script exits), else one two-digit code line per character of the
   * padded text.
   */
  method MakeHex(text: string) returns (r: Option<seq<string>>)
    ensures r.None? <==> text == []
    ensures r.Some? ==> r.value == CodeLines(Padded(ReadLines(text)))
  {
    var lines := ReadLines(text);
    if |lines| == 0 {
      return None;
    }
    var content := PadContent(lines);
    var hex := StringToHex(content);
    return Some(hex);
  }

  // ---------------------------------------------------------------------------------------
  // verify_hex: decoding

  /**
   * `chr(code)`: `None` above the last code point (ValueError) and on a surrogate, which is
   * not a character here.
   */
  function Chr(code: nat): (r: Option<char>)
    ensures r.Some? ==> Ord(r.value) == code
    ensures r.None? <==> code >= 0x11_0000 || 0xD800 <= code < 0xE000
  {
    if code < 0xD800 || 0xE000 <= code < 0x11_0000 then Some(code as char) else None
  }

  /** `chr` inverts `ord`. */
  lemma ChrOrd(c: char)
    ensures Chr(Ord(c)) == Some(c)
  {
  }

  /**
   * Hex digits with single underscores between them (none leading, none trailing, no two in
   * a row), read as a number; anything else is `None`.
   */
  function UnderscoredHex(s: string): (r: Option<nat>)
    ensures r.Some? ==> s != []
  {
    if s == [] then None
    else match HexValue(s[|s| - 1])
      case None => None
      case Some(lo) =>
        if |s| == 1 then Some(lo)
        else
          var init := s[..|s| - 1];
          var rest := if init[|init| - 1] == '_' then init[..|init| - 1] else init;
          match UnderscoredHex(rest)
          case None => None
          case Some(hi) => Some(hi * 16 + lo)
  }

  /** A sign, if any, and the text after it. */
  function SplitSign(s: string): (bool, string)
  {
    if s != [] && (s[0] == '-' || s[0] == '+') then (s[0] == '-', s[1..]) else (false, s)
  }

  /**
   * The digits after an optional `0x` or `0X` prefix. One underscore may follow the prefix
   * directly, so `0x_41` is read as `41`.
   */
  function AfterPrefix(t: string): string
  {
    if |t| >= 2 && t[0] == '0' && (t[1] == 'x' || t[1] == 'X') then
      if |t| >= 3 && t[2] == '_' then t[3..] else t[2..]
    else t
  }

  /** The unsigned part of `int(t, 16)`: an optional prefix, then underscored hex digits. */
  function Magnitude(t: string): Option<nat>
  {
    UnderscoredHex(AfterPrefix(t))
  }

  /**
   * `int(s, 16)` on stripped text: an optional sign, an optional `0x`/`0X` prefix, then hex
   * digits with single underscores between them. Anything else is `None` (ValueError).
   */
  function PyIntHex(s: string): Option<int>
  {
    match Magnitude(SplitSign(s).1)
    case None => None
    case Some(v) => Some(if SplitSign(s).0 then -(v as int) else v as int)
  }

  /** `chr(int(line.strip(), 16))`: a negative code makes `chr` raise. */
  function DecodeLine(line: string): Option<char>
  {
    match PyIntHex(Strip(line))
    case None => None
    case Some(code) => if code < 0 then None else Chr(code)
  }

  /** A plain run of hex digits has no prefix, and its magnitude is its `ParseHex` value. */
  lemma MagnitudeDigits(d: string)
    requires ParseHex(d).Some?
    ensures AfterPrefix(d) == d && Magnitude(d) == ParseHex(d)
  {
    assert AfterPrefix(d) == d by {
      if |d| >= 2 {
        HexDigitAt(d, 1);
      }
    }
    UnderscoredPlain(d);
  }

  /** A plain run of hex digits is read by `int(s, 16)` as by `ParseHex`. */
  lemma PyIntHexDigits(s: string)
    requires ParseHex(s).Some?
    ensures PyIntHex(s) == Some(ParseHex(s).value)
  {
    assert SplitSign(s) == (false, s) by {
      HexDigitAt(s, 0);
    }
    MagnitudeDigits(s);
  }

  /** Each character of a parsed hex number is a hex digit. */
  lemma {:induction false} HexDigitAt(s: string, i: nat)
    requires ParseHex(s).Some? && i < |s|
    ensures HexValue(s[i]).Some?
  {
    if i < |s| - 1 {
      assert s[..|s| - 1][i] == s[i];
      HexDigitAt(s[..|s| - 1], i);
    }
  }

  /** Without underscores, the underscored reading is the plain one. */
  lemma {:induction false} UnderscoredPlain(s: string)
    requires ParseHex(s).Some?
    ensures UnderscoredHex(s) == ParseHex(s)
  {
    if |s| >= 2 {
      var init := s[..|s| - 1];
      HexDigitAt(init, |init| - 1);
      UnderscoredPlain(init);
    }
  }

  /** `41` in hex is 65. */
  lemma HexFortyOne()
    ensures UnderscoredHex("41") == Some(65) && UnderscoredHex("4_1") == Some(65)
  {
    assert "41"[..1] == "4" && "4_1"[..2] == "4_" && "4_"[..1] == "4";
  }

  /** `int(s, 16)` also takes a `0x` prefix, a sign and underscores between digits. */
  lemma PyIntHexForms()
    ensures PyIntHex("0x41") == Some(65) && PyIntHex("0X_41") == Some(65)
    ensures PyIntHex("+41") == Some(65) && PyIntHex("-41") == Some(-65)
    ensures PyIntHex("4_1") == Some(65)
  {
    HexFortyOne();
    assert SplitSign("0x41") == (false, "0x41") && AfterPrefix("0x41") == "41";
    assert SplitSign("0X_41") == (false, "0X_41") && AfterPrefix("0X_41") == "41";
    assert SplitSign("+41") == (false, "41") && AfterPrefix("41") == "41";
    assert SplitSign("-41") == (true, "41");
    assert SplitSign("4_1") == (false, "4_1") && AfterPrefix("4_1") == "4_1";
  }

  /** `-0` is zero; a bare prefix, empty text and a doubled sign are refused. */
  lemma PyIntHexRefusals()
    ensures PyIntHex("-0") == Some(0)
    ensures PyIntHex("0x") == None && PyIntHex("") == None && PyIntHex("--1") == None
  {
    assert SplitSign("-0") == (true, "0") && AfterPrefix("0") == "0";
    assert AfterPrefix("0x") == [];
    assert SplitSign("--1") == (true, "-1") && AfterPrefix("-1") == "-1";
    assert UnderscoredHex("-1") == None by {
      assert "-1"[..1] == "-";
    }
  }

  /** A leading, trailing or doubled underscore is refused. */
  lemma PyIntHexUnderscores()
    ensures PyIntHex("_41") == None && PyIntHex("41_") == None && PyIntHex("4__1") == None
  {
    assert AfterPrefix("_41") == "_41" && AfterPrefix("41_") == "41_";
    assert AfterPrefix("4__1") == "4__1";
    assert UnderscoredHex("_41") == None by {
      assert "_41"[..2] == "_4" && "_4"[..1] == "_";
    }
    assert UnderscoredHex("4__1") == None by {
      assert "4__1"[..3] == "4__" && "4__"[..2] == "4_";
    }
  }

  /** A `0x` or `0X` prefix before hex digits is dropped, and no sign is read. */
  lemma MagnitudePrefixed(d: string, p: string)
    requires ParseHex(d).Some? && (p == "0x" || p == "0X")
    ensures SplitSign(p + d) == (false, p + d) && Magnitude(p + d) == ParseHex(d)
  {
    assert AfterPrefix(p + d) == d by {
      HexDigitAt(d, 0);
      assert (p + d)[2..] == d;
    }
    MagnitudeDigits(d);
  }

  /** A run of hex digits after a `0x` or `0X` prefix or a `+` sign reads as the digits alone. */
  lemma PyIntHexPrefixed(d: string)
    requires ParseHex(d).Some?
    ensures PyIntHex("0x" + d) == Some(ParseHex(d).value)
    ensures PyIntHex("0X" + d) == Some(ParseHex(d).value)
    ensures PyIntHex("+" + d) == Some(ParseHex(d).value)
  {
    MagnitudePrefixed(d, "0x");
    MagnitudePrefixed(d, "0X");
    MagnitudeDigits(d);
    assert SplitSign("+" + d) == (false, d);
  }

  /** A `-` before a run of hex digits negates it. */
  lemma PyIntHexNegated(d: string)
    requires ParseHex(d).Some?
    ensures PyIntHex("-" + d) == Some(-(ParseHex(d).value as int))
  {
    MagnitudeDigits(d);
    SignedRead(d, ParseHex(d).value);
  }

  /** A `-` or `+` sign before text of magnitude `v` gives `-v` or `v`. */
  lemma SignedRead(t: string, v: nat)
    requires Magnitude(t) == Some(v)
    ensures PyIntHex("-" + t) == Some(-(v as int)) && PyIntHex("+" + t) == Some(v as int)
  {
    assert SplitSign("-" + t) == (true, t);
    assert SplitSign("+" + t) == (false, t);
  }

  /**
   * A line of hex digits decodes to the same character with a `0x` or `0X` prefix or a `+`
   * sign; with a `-` sign it decodes only when the value is zero (`-0`), and `chr` raises
   * on any other negative value.
   */
  lemma DecodeLineSigned(d: string)
    requires ParseHex(d).Some?
    ensures DecodeLine("0x" + d) == Chr(ParseHex(d).value)
    ensures DecodeLine("0X" + d) == Chr(ParseHex(d).value)
    ensures DecodeLine("+" + d) == Chr(ParseHex(d).value)
    ensures DecodeLine("-" + d) == if ParseHex(d).value == 0 then Some(0 as char) else None
  {
    DecodeLinePrefixed(d, "0x");
    DecodeLinePrefixed(d, "0X");
    DecodeLinePrefixed(d, "+");
    DecodeLineNegated(d);
  }

  /** A line of hex digits after a `0x` or `0X` prefix or a `+` sign decodes as the digits. */
  lemma DecodeLinePrefixed(d: string, p: string)
    requires ParseHex(d).Some? && (p == "0x" || p == "0X" || p == "+")
    ensures DecodeLine(p + d) == Chr(ParseHex(d).value)
  {
    var v := ParseHex(d).value;
    assert !IsSpace(d[|d| - 1]) by {
      HexDigitAt(d, |d| - 1);
      HexDigitClean(d[|d| - 1]);
    }
    assert PyIntHex(p + d) == Some(v as int) by {
      PyIntHexPrefixed(d);
    }
    DecodeRead(p, d, v);
  }

  /** A line of hex digits after a `-` sign decodes only when the value is zero. */
  lemma DecodeLineNegated(d: string)
    requires ParseHex(d).Some?
    ensures DecodeLine("-" + d) == if ParseHex(d).value == 0 then Some(0 as char) else None
  {
    var v := ParseHex(d).value;
    assert !IsSpace(d[|d| - 1]) by {
      HexDigitAt(d, |d| - 1);
      HexDigitClean(d[|d| - 1]);
    }
    var line := "-" + d;
    assert line[0] == '-' && line[|line| - 1] == d[|d| - 1];
    StripEnds(line);
    assert SplitSign(line) == (true, d);
    MagnitudeDigits(d);
  }

  /** A signed or prefixed line without surrounding white space decodes as its value. */
  lemma DecodeRead(p: string, d: string, v: int)
    requires p != [] && !IsSpace(p[0]) && d != [] && !IsSpace(d[|d| - 1])
    requires PyIntHex(p + d) == Some(v)
    ensures DecodeLine(p + d) == if v < 0 then None else Chr(v)
  {
    assert (p + d)[0] == p[0] && (p + d)[|p + d| - 1] == d[|d| - 1];
    StripEnds(p + d);
  }

  /** Text that neither starts nor ends with white space is its own `strip()`. */
  lemma StripEnds(s: string)
    requires s != [] && !IsSpace(s[0]) && !IsSpace(s[|s| - 1])
    ensures Strip(s) == s
  {
  }

  /** The decoded text, or `None` when some line is not a hex code of a character. */
  function Decoded(lines: seq<string>): (r: Option<string>)
    ensures r.Some? ==> |r.value| == |lines|
  {
    if lines == [] then Some([])
    else
      match (Decoded(lines[..|lines| - 1]), DecodeLine(lines[|lines| - 1]))
      case (Some(s), Some(c)) => Some(s + [c])
      case _ => None
  }

  /** `for line in f: hex_grid_str += chr(int(line.strip(), 16))` */
  method DecodeHex(lines: seq<string>) returns (r: Option<string>)
    ensures r == Decoded(lines)
  {
    var s := "";
    for k := 0 to |lines|
      invariant Decoded(lines[..k]) == Some(s)
    {
      var c := DecodeLine(lines[k]);
      DecodedStep(lines, k, s, c);
      if c.None? {
        DecodedNoneStays(lines, k + 1);
        return None;
      }
      s := s + [c.value];
    }
    assert lines[..|lines|] == lines;
    return Some(s);
  }

  /** One more line extends the decoded prefix by its character, or makes it fail. */
  lemma DecodedStep(lines: seq<string>, k: nat, s: string, c: Option<char>)
    requires k < |lines| && Decoded(lines[..k]) == Some(s) && DecodeLine(lines[k]) == c
    ensures Decoded(lines[..k + 1]) == if c.Some? then Some(s + [c.value]) else None
  {
    assert lines[..k + 1][..k] == lines[..k];
  }

  /** Once a prefix fails to decode, the whole input fails. */
  lemma {:induction false} DecodedNoneStays(lines: seq<string>, k: nat)
    requires k <= |lines| && Decoded(lines[..k]) == None
    ensures Decoded(lines) == None
    decreases |lines| - k
  {
    if k < |lines| {
      assert lines[..k + 1][..k] == lines[..k];
      DecodedNoneStays(lines, k + 1);
    } else {
      assert lines[..k] == lines;
    }
  }

  /** The digits of a parsed hex number are hex digits. */
  lemma {:induction false} ParsedDigits(s: string)
    requires ParseHex(s).Some?
    ensures forall i | 0 <= i < |s| :: HexValue(s[i]).Some?
  {
    if |s| > 1 {
      ParsedDigits(s[..|s| - 1]);
      assert forall i | 0 <= i < |s| - 1 :: s[i] == s[..|s| - 1][i];
    }
  }

  /** A hex digit is not white space. */
  lemma HexDigitClean(c: char)
    requires HexValue(c).Some?
    ensures !IsSpace(c)
  {
  }

  /** A code line is made of hex digits: no white space, no newline. */
  lemma CodeLineClean(content: string, k: nat)
    requires k < |content|
    ensures Unspaced(CodeLines(content)[k]) && '\n' !in CodeLines(content)[k]
  {
    var line := CodeLines(content)[k];
    CodeLinesRoundTrip(content, k);
    ParsedDigits(line);
    forall i | 0 <= i < |line|
      ensures !IsSpace(line[i])
    {
      HexDigitClean(line[i]);
    }
    UnspacedNoNewline(line);
  }

  /** Each code line decodes to its character. */
  lemma DecodeAt(content: string, k: nat)
    requires k < |content|
    ensures DecodeLine(CodeLines(content)[k]) == Some(content[k])
  {
    CodeLineClean(content, k);
    StripNoSpace(CodeLines(content)[k]);
    CodeLinesRoundTrip(content, k);
    PyIntHexDigits(CodeLines(content)[k]);
    ChrOrd(content[k]);
  }

  /** The code lines decode back to the text. */
  lemma {:induction false} DecodeCodeLines(content: string)
    ensures Decoded(CodeLines(content)) == Some(content)
  {
    if content != [] {
      var n := |content| - 1;
      var ls := CodeLines(content);
      CodeLinesPrefix(content, n);
      DecodeCodeLines(content[..n]);
      DecodeAt(content, n);
      DecodedSnoc(ls, content[..n], content[n]);
      LastSplit(content);
    }
  }

  lemma CodeLinesPrefix(content: string, n: nat)
    requires n <= |content|
    ensures CodeLines(content)[..n] == CodeLines(content[..n])
  {
  }

  lemma LastSplit(s: string)
    requires s != []
    ensures s[..|s| - 1] + [s[|s| - 1]] == s
  {
  }

  lemma DecodedSnoc(lines: seq<string>, s: string, c: char)
    requires lines != [] && Decoded(lines[..|lines| - 1]) == Some(s)
    requires DecodeLine(lines[|lines| - 1]) == Some(c)
    ensures Decoded(lines) == Some(s + [c])
  {
  }

  /**
   * The hex file `string_to_hex` writes (one code line per character) reads back as the
   * text it was written from.
   */
  lemma DecodeRoundTrip(content: string)
    ensures Decoded(ReadLines(JoinLines(CodeLines(content)))) == Some(content)
  {
    forall k | 0 <= k < |content|
      ensures '\n' !in CodeLines(content)[k]
    {
      CodeLineClean(content, k);
    }
    ReadLinesJoin(CodeLines(content));
    DecodeCodeLines(content);
  }

  // ---------------------------------------------------------------------------------------
  // verify_hex: rows and comparison

  /** The non-empty lines, in order. */
  function NonEmpty(ls: seq<string>): (r: seq<string>)
    ensures |r| <= |ls| && forall k | 0 <= k < |r| :: r[k] != []
  {
    if ls == [] then []
    else NonEmpty(ls[..|ls| - 1]) + (if ls[|ls| - 1] == [] then [] else [ls[|ls| - 1]])
  }

  /** Lines that are all non-empty are kept as they are. */
  lemma {:induction false} NonEmptyKeeps(ls: seq<string>)
    requires forall k | 0 <= k < |ls| :: ls[k] != []
    ensures NonEmpty(ls) == ls
  {
    if ls != [] {
      NonEmptyKeeps(ls[..|ls| - 1]);
      assert ls[..|ls| - 1] + [ls[|ls| - 1]] == ls;
    }
  }

  /**
   * `grid_from_hex`: the non-empty pieces of the decoded text split at `\n`, cut to the
   * original row count `n` when there are more.
   */
  function HexGrid(decoded: string, n: nat): (g: seq<string>)
    ensures |g| <= n
    ensures forall k | 0 <= k < |g| :: g[k] != [] && '\n' !in g[k]
  {
    var rows := NonEmpty(Split(decoded, '\n'));
    NonEmptyFrom(Split(decoded, '\n'));
    if |rows| > n then rows[..n] else rows
  }

  /** A kept line is one of the input lines. */
  lemma {:induction false} NonEmptyFrom(ls: seq<string>)
    ensures forall k | 0 <= k < |NonEmpty(ls)| :: NonEmpty(ls)[k] in ls
  {
    if ls != [] {
      NonEmptyFrom(ls[..|ls| - 1]);
      forall k | 0 <= k < |NonEmpty(ls)|
        ensures NonEmpty(ls)[k] in ls
      {
        if k < |NonEmpty(ls[..|ls| - 1])| {
          var x := NonEmpty(ls[..|ls| - 1])[k];
          assert x in ls[..|ls| - 1];
        }
      }
    }
  }

  /**
   * The comparison loop: stop at the first row the hex grid lacks or differs on. The grids
   * are reported equal exactly when every original row has its equal in the hex grid.
   */
  method Compare(orig: seq<string>, hex: seq<string>) returns (matched: bool)
    ensures matched <==> |hex| >= |orig| && forall r | 0 <= r < |orig| :: orig[r] == hex[r]
  {
    matched := true;
    for r := 0 to |orig|
      invariant r <= |hex| || |orig| == 0
      invariant forall t | 0 <= t < r :: t < |hex| && orig[t] == hex[t]
    {
      if r >= |hex| {
        matched := false;
        break;
      }
      if orig[r] != hex[r] {
        matched := false;
        break;
      }
    }
  }

  /**
   * `solve(grid)` of the checker: the count and the `(r, c)` of each accessible roll in
   * row-major order; `None` when a row is shorter than the first.
   */
  method Solve(g: Grid) returns (r: Option<(nat, seq<(nat, nat)>)>)
    ensures r.None? <==> !WellFormed(g)
    ensures r.Some? ==> r.value.1 == Day4.Positions(Found(g)) && r.value.0 == |r.value.1|
    ensures r.Some? ==> forall p: nat, q: nat :: (p, q) in r.value.1 <==> Accessible(g, p, q)
  {
    if !WellFormed(g) {
      return None;
    }
    var count, found, _ := Scan(g);
    forall p: nat, q: nat
      ensures (p, q) in Day4.Positions(found) <==> Accessible(g, p, q)
    {
      Day4.PositionsOfFound(g, p, q);
    }
    return Some((count, Day4.Positions(found)));
  }

  /** What the checker reports: whether the grids match, and the part 1 count on the hex rows. */
  datatype Report = Report(matched: bool, count: nat)

  /**
   * The checker once the hex text is decoded: compare, then solve on the hex rows; `None`
   * when the hex grid has fewer rows than the grid file (IndexError building the clean
   * grid) or when a hex row is shorter than the first.
   */
  method CheckRows(orig: seq<string>, hex: seq<string>) returns (r: Option<Report>)
    requires |hex| <= |orig|
    ensures r.None? <==> |hex| < |orig| || !WellFormed(hex)
    ensures r.Some? ==> r.value.matched == (hex == orig) && r.value.count == |Found(hex)|
  {
    var matched := Compare(orig, hex);
    if |hex| < |orig| {
      return None;
    }
    var solved := Solve(hex);
    if solved.None? {
      return None;
    }
    assert matched == (hex == orig);
    return Some(Report(matched, solved.value.0));
  }

  /** The checker end to end; `None` also when a hex line does not decode (ValueError). */
  method VerifyHex(origText: string, hexText: string) returns (r: Option<Report>)
    ensures Decoded(ReadLines(hexText)).None? ==> r.None?
    ensures Decoded(ReadLines(hexText)).Some? ==>
      var orig := Day4.TextGrid(origText);
      var hex := HexGrid(Decoded(ReadLines(hexText)).value, |orig|);
      (r.None? <==> |hex| < |orig| || !WellFormed(hex))
      && (r.Some? ==> r.value.matched == (hex == orig) && r.value.count == |Found(hex)|)
  {
    var orig := Day4.TextGrid(origText);
    var decoded := DecodeHex(ReadLines(hexText));
    if decoded.None? {
      return None;
    }
    r := CheckRows(orig, HexGrid(decoded.value, |orig|));
  }

  // ---------------------------------------------------------------------------------------
  // The round trip

  /** A grid file: non-empty rows with no white space, each ending in `\n`. */
  predicate CleanRows(rows: seq<string>)
  {
    |rows| >= 1 && forall k | 0 <= k < |rows| :: rows[k] != [] && Unspaced(rows[k])
  }

  lemma NoNewline(rows: seq<string>)
    requires CleanRows(rows)
    ensures NoSep(rows, '\n')
  {
    forall k | 0 <= k < |rows|
      ensures '\n' !in rows[k]
    {
      UnspacedNoNewline(rows[k]);
    }
  }

  /** The file text ends with the last row and its newline. */
  lemma JoinLast(rows: seq<string>)
    requires rows != []
    ensures JoinLines(rows) == JoinLines(rows[..|rows| - 1]) + rows[|rows| - 1] + "\n"
  {
    JoinStep(rows, |rows| - 1);
    assert rows[..|rows|] == rows;
  }

  /** `strip()` of a clean grid file removes only the final newline. */
  lemma StripJoined(rows: seq<string>)
    requires CleanRows(rows)
    ensures |JoinLines(rows)| >= 1
    ensures Strip(JoinLines(rows)) == JoinLines(rows)[..|JoinLines(rows)| - 1]
  {
    var s := JoinLines(rows);
    var m := |rows| - 1;
    JoinHead(rows);
    JoinTail(rows);
    assert !IsSpace(rows[0][0]) && !IsSpace(rows[m][|rows[m]| - 1]);
    LStripKeeps(s);
    RStripDrops(s);
    RStripKeeps(s[..|s| - 1]);
  }

  lemma JoinHead(rows: seq<string>)
    requires rows != [] && rows[0] != []
    ensures JoinLines(rows) != [] && JoinLines(rows)[0] == rows[0][0]
  {
  }

  /** Before the final newline comes the last character of the last row. */
  lemma JoinTail(rows: seq<string>)
    requires rows != [] && rows[|rows| - 1] != []
    ensures |JoinLines(rows)| >= 2
    ensures JoinLines(rows)[|JoinLines(rows)| - 2] == rows[|rows| - 1][|rows[|rows| - 1]| - 1]
  {
    var m := |rows| - 1;
    var a, r := JoinLines(rows[..m]), rows[m];
    JoinLast(rows);
    assert JoinLines(rows) == a + r + "\n";
    assert (a + r + "\n")[|a| + |r| - 1] == r[|r| - 1];
  }

  lemma LStripKeeps(s: string)
    requires s != [] && !IsSpace(s[0])
    ensures LStrip(s) == s
  {
  }

  lemma RStripKeeps(s: string)
    requires s != [] && !IsSpace(s[|s| - 1])
    ensures RStrip(s) == s
  {
  }

  lemma RStripDrops(s: string)
    requires s != [] && IsSpace(s[|s| - 1])
    ensures RStrip(s) == RStrip(s[..|s| - 1])
  {
  }

  /** The grid file read back by `strip().split('\n')` and stripped per line is its rows. */
  lemma TextGridOfClean(rows: seq<string>)
    requires CleanRows(rows)
    ensures Day4.TextGrid(JoinLines(rows)) == rows
  {
    NoNewline(rows);
    StripJoined(rows);
    SplitJoinedInner(rows);
    forall k | 0 <= k < |rows|
      ensures Strip(rows[k]) == rows[k]
    {
      StripNoSpace(rows[k]);
    }
  }

  /** The rows and the three padding rows as wide as the first. */
  function Framed(rows: seq<string>): (all: seq<string>)
    requires |rows| >= 1
    ensures |all| == |rows| + 3 && all[..|rows|] == rows
  {
    var w := |rows[0]|;
    rows + [DotRow(w), DotRow(w), DotRow(w)]
  }

  /** For a clean grid file the padded text is the framed rows, newline-terminated. */
  lemma PaddedOfClean(rows: seq<string>)
    requires CleanRows(rows)
    ensures Padded(rows) == JoinLines(Framed(rows))
  {
    forall k | 0 <= k < |rows|
      ensures Strip(rows[k]) == rows[k]
    {
      StripNoSpace(rows[k]);
    }
    assert StripAll(rows) == rows;
  }

  /** The rows cut from the framed text are the grid file's rows. */
  lemma RowsOfFramed(rows: seq<string>)
    requires CleanRows(rows)
    ensures HexGrid(JoinLines(Framed(rows)), |rows|) == rows
  {
    var all := Framed(rows);
    FramedLines(rows);
    SplitJoinLines(all);
    NonEmptyKeeps(all);
    assert NonEmpty(all + [[]]) == NonEmpty(all);
  }

  /** The framed rows are non-empty lines without a newline. */
  lemma FramedLines(rows: seq<string>)
    requires CleanRows(rows)
    ensures NoSep(Framed(rows), '\n')
    ensures forall k | 0 <= k < |Framed(rows)| :: Framed(rows)[k] != []
  {
    var all := Framed(rows);
    forall k | 0 <= k < |all|
      ensures '\n' !in all[k] && all[k] != []
    {
      if k < |rows| {
        assert all[k] == rows[k];
        UnspacedNoNewline(rows[k]);
      } else {
        assert all[k] == DotRow(|rows[0]|);
      }
    }
  }

  /**
   * `verify_hex` reads back what `make_hex` wrote: for a clean grid file, the hex file
   * decodes to the padded text, and the rows cut from it are exactly the rows of the grid
   * file, so the comparison reports a match.
   */
  lemma MakeThenVerify(rows: seq<string>)
    requires CleanRows(rows)
    ensures ReadLines(JoinLines(rows)) == rows
    ensures Decoded(ReadLines(JoinLines(CodeLines(Padded(rows))))) == Some(Padded(rows))
    ensures HexGrid(Padded(rows), |Day4.TextGrid(JoinLines(rows))|) == Day4.TextGrid(JoinLines(rows))
  {
    NoNewline(rows);
    ReadLinesJoin(rows);
    DecodeRoundTrip(Padded(rows));
    TextGridOfClean(rows);
    PaddedOfClean(rows);
    RowsOfFramed(rows);
  }
}
