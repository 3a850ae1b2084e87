/**
 * Day 3: every input line is a bank of batteries written as decimal digits, and its
 * joltage is the largest two-digit number `10 * d[i] + d[j]` with `i < j`. The answer is
 * the sum of the joltages of the non-blank lines.
 *
 * Two methods compute a line's joltage, a quadratic scan over all pairs and a single
 * streaming pass that remembers the largest digit seen so far; both are proved to return
 * the one value `IsBestPair` allows, so the equality the solver asserts always holds.
 */
module Day3 {
  import opened Common
  import opened PyText
  import opened HexText

  /** The two-digit number made of the digits at positions `i < j`. */
  function PairValue(d: seq<nat>, i: nat, j: nat): nat
    requires i < j < |d|
  {
    10 * d[i] + d[j]
  }

  /**
   * `v` is the joltage of `d`: no pair beats it, and it is some pair's value (or 0 when
   * there is no pair at all).
   */
  ghost predicate IsBestPair(d: seq<nat>, v: int)
  {
    (forall i, j | 0 <= i < j < |d| :: PairValue(d, i, j) <= v)
    && (if |d| < 2 then v == 0 else exists i, j | 0 <= i < j < |d| :: v == PairValue(d, i, j))
  }

  /** At most one value is the joltage of a line. */
  lemma BestPairUnique(d: seq<nat>, v: int, w: int)
    requires IsBestPair(d, v) && IsBestPair(d, w)
    ensures v == w
  {
    if |d| >= 2 {
      var i, j :| 0 <= i < j < |d| && v == PairValue(d, i, j);
      var a, b :| 0 <= a < b < |d| && w == PairValue(d, a, b);
      assert PairValue(d, i, j) <= w && PairValue(d, a, b) <= v;
    }
  }

  /** The largest digit of a non-empty line. */
  function MaxDigit(d: seq<nat>): nat
    requires d != []
  {
    if |d| == 1 then d[0]
    else
      var m := MaxDigit(d[..|d| - 1]);
      if d[|d| - 1] > m then d[|d| - 1] else m
  }

  /** `MaxDigit` bounds every digit of the line and is one of them. */
  lemma {:induction false} MaxDigitIsMax(d: seq<nat>)
    requires d != []
    ensures forall k | 0 <= k < |d| :: d[k] <= MaxDigit(d)
    ensures exists k | 0 <= k < |d| :: d[k] == MaxDigit(d)
  {
    if |d| > 1 {
      var p := d[..|d| - 1];
      MaxDigitIsMax(p);
      assert forall k | 0 <= k < |p| :: p[k] == d[k];
      var k :| 0 <= k < |p| && p[k] == MaxDigit(p);
      if d[|d| - 1] > MaxDigit(p) {
        assert d[|d| - 1] == MaxDigit(d);
      } else {
        assert d[k] == MaxDigit(d);
      }
    } else {
      assert d[0] == MaxDigit(d);
    }
  }

  /**
   * The joltage of a line by recursion on its last digit: the best pair either ends
   * before the last digit or pairs the largest earlier digit with it.
   */
  function Best(d: seq<nat>): nat
  {
    if |d| < 2 then 0
    else
      var p := d[..|d| - 1];
      var cross := 10 * MaxDigit(p) + d[|d| - 1];
      if cross > Best(p) then cross else Best(p)
  }

  /** Extending a line by one digit: the new joltage is the old one or the new cross pair. */
  lemma BestPairStep(d: seq<nat>, v: nat, m: nat)
    requires |d| >= 2
    requires IsBestPair(d[..|d| - 1], v) && m == MaxDigit(d[..|d| - 1])
    ensures IsBestPair(d, Max(v, 10 * m + d[|d| - 1]))
  {
    var n := |d|;
    var p := d[..n - 1];
    var r := Max(v, 10 * m + d[n - 1]);
    MaxDigitIsMax(p);
    forall i, j | 0 <= i < j < n
      ensures PairValue(d, i, j) <= r
    {
      if j < n - 1 {
        assert PairValue(d, i, j) == PairValue(p, i, j);
      } else {
        assert d[i] == p[i];
      }
    }
    var k :| 0 <= k < n - 1 && p[k] == m;
    if r == v {
      if n - 1 < 2 {
        assert PairValue(d, k, n - 1) == 10 * m + d[n - 1];
      } else {
        var i, j :| 0 <= i < j < n - 1 && v == PairValue(p, i, j);
        assert PairValue(d, i, j) == v;
      }
    } else {
      assert PairValue(d, k, n - 1) == r;
    }
  }

  /** `Best` is the joltage of every line. */
  lemma {:induction false} BestIsBestPair(d: seq<nat>)
    ensures IsBestPair(d, Best(d))
  {
    if |d| >= 2 {
      BestIsBestPair(d[..|d| - 1]);
      BestPairStep(d, Best(d[..|d| - 1]), MaxDigit(d[..|d| - 1]));
    }
  }

  /** Whatever value is the joltage of a line is `Best` of it. */
  lemma BestOf(d: seq<nat>, v: int)
    requires IsBestPair(d, v)
    ensures Best(d) == v
  {
    BestIsBestPair(d);
    BestPairUnique(d, v, Best(d));
  }

  /** A line of decimal digits has joltage at most 99. */
  lemma BestAtMost99(d: seq<nat>)
    requires forall k | 0 <= k < |d| :: d[k] < 10
    ensures Best(d) <= 99
  {
    BestIsBestPair(d);
    if |d| >= 2 {
      var i, j :| 0 <= i < j < |d| && Best(d) == PairValue(d, i, j);
    }
  }

  /** `solve_line`: try every pair `i < j` and keep the largest value. */
  method SolveLine(d: seq<nat>) returns (maxVal: nat)
    ensures IsBestPair(d, maxVal)
  {
    maxVal := 0;
    for i := 0 to |d|
      invariant forall a, b | 0 <= a < i && a < b < |d| :: PairValue(d, a, b) <= maxVal
      invariant maxVal == 0 || exists a, b | 0 <= a < b < |d| :: maxVal == PairValue(d, a, b)
    {
      for j := i + 1 to |d|
        invariant forall a, b | 0 <= a < i && a < b < |d| :: PairValue(d, a, b) <= maxVal
        invariant forall b | i < b < j :: PairValue(d, i, b) <= maxVal
        invariant maxVal == 0 || exists a, b | 0 <= a < b < |d| :: maxVal == PairValue(d, a, b)
      {
        var val := 10 * d[i] + d[j];
        assert val == PairValue(d, i, j);
        if val > maxVal {
          maxVal := val;
        }
      }
    }
    if |d| >= 2 && maxVal == 0 {
      assert PairValue(d, 0, 1) <= maxVal;
    }
  }

  /**
   * `solve_line_streaming` (and the identical `compute_line_score` of the hardware's
   * result precomputation): one pass keeping the largest digit seen so far and the best
   * pair so far.
   */
  method SolveLineStreaming(d: seq<nat>) returns (overall: nat)
    ensures |d| < 2 ==> overall == 0
    ensures IsBestPair(d, overall)
  {
    if |d| < 2 {
      return 0;
    }
    var maxSeen := d[0];
    overall := 0;
    for i := 1 to |d|
      invariant IsBestPair(d[..i], overall)
      invariant maxSeen == MaxDigit(d[..i])
    {
      var current := d[i];
      var score := maxSeen * 10 + current;
      assert d[..i + 1][..i] == d[..i];
      BestPairStep(d[..i + 1], overall, maxSeen);
      if score > overall {
        overall := score;
      }
      if current > maxSeen {
        maxSeen := current;
      }
    }
    assert d[..|d|] == d;
  }

  /** `[int(c) for c in s]`: every character must be a decimal digit, or `int` raises. */
  function Digits(s: string): (r: Option<seq<nat>>)
    ensures r.Some? <==> AllDigits(s)
    ensures r.Some? ==> |r.value| == |s|
    ensures r.Some? ==> forall k | 0 <= k < |s| :: r.value[k] == DigitValue(s[k]) < 10
  {
    if AllDigits(s) then Some(seq(|s|, k requires 0 <= k < |s| => DigitValue(s[k]))) else None
  }

  /** `input_str.strip().split('\n')`, each line stripped and the blank ones skipped. */
  function Lines(text: string): seq<string>
  {
    NonBlank(Split(Strip(text), '\n'))
  }

  /** The joltage of each line, or `None` when some line holds a character that is not a digit. */
  function Scores(ls: seq<string>): (r: Option<seq<nat>>)
    ensures r.Some? <==> forall k | 0 <= k < |ls| :: AllDigits(ls[k])
    ensures r.Some? ==> |r.value| == |ls|
    ensures r.Some? ==> forall k | 0 <= k < |ls| :: r.value[k] == Best(Digits(ls[k]).value)
  {
    if ls == [] then Some([])
    else
      var p := ls[..|ls| - 1];
      assert forall k | 0 <= k < |p| :: p[k] == ls[k];
      match (Scores(p), Digits(ls[|ls| - 1]))
      case (Some(s), Some(d)) => Some(s + [Best(d)])
      case _ => None
  }

  /** `NonBlank` of a prefix is a prefix of `NonBlank` of the whole. */
  lemma {:induction false} NonBlankPrefix(ls: seq<string>, i: nat)
    requires i <= |ls|
    ensures |NonBlank(ls[..i])| <= |NonBlank(ls)|
    ensures NonBlank(ls[..i]) == NonBlank(ls)[..|NonBlank(ls[..i])|]
  {
    if i < |ls| {
      assert ls[..|ls| - 1][..i] == ls[..i];
      NonBlankPrefix(ls[..|ls| - 1], i);
    } else {
      assert ls[..i] == ls;
    }
  }

  /** A blank raw line adds nothing to the non-blank lines. */
  lemma NonBlankSkip(raw: seq<string>, i: nat)
    requires i < |raw| && Strip(raw[i]) == []
    ensures NonBlank(raw[..i + 1]) == NonBlank(raw[..i])
  {
    assert raw[..i + 1][..i] == raw[..i];
  }

  /** A non-blank raw line adds its stripped text to the non-blank lines. */
  lemma NonBlankStep(raw: seq<string>, i: nat)
    requires i < |raw| && Strip(raw[i]) != []
    ensures NonBlank(raw[..i + 1]) == NonBlank(raw[..i]) + [Strip(raw[i])]
  {
    assert raw[..i + 1][..i] == raw[..i];
  }

  lemma ScoresSnoc(ls: seq<string>, t: string, s: seq<nat>)
    requires Scores(ls) == Some(s) && AllDigits(t)
    ensures Scores(ls + [t]) == Some(s + [Best(Digits(t).value)])
  {
    assert (ls + [t])[..|ls|] == ls;
  }

  /** One non-blank line with a character that is not a digit makes the whole input fail. */
  lemma BadLineSpoils(raw: seq<string>, i: nat)
    requires i < |raw| && Strip(raw[i]) != [] && !AllDigits(Strip(raw[i]))
    ensures Scores(NonBlank(raw)).None?
  {
    var t := Strip(raw[i]);
    var a := NonBlank(raw[..i]);
    var b := NonBlank(raw[..i + 1]);
    var all := NonBlank(raw);
    NonBlankStep(raw, i);
    assert b == a + [t];
    NonBlankPrefix(raw, i + 1);
    assert b == all[..|b|];
    assert all[|a|] == b[|a|] == t;
    assert !AllDigits(all[|a|]);
  }

  /**
   * The body of `solve` for one line: the streaming joltage, checked against the quadratic
   * one. The assertion that they agree always holds.
   */
  method CheckedLine(d: seq<nat>) returns (val: nat)
    ensures val == Best(d)
  {
    val := SolveLineStreaming(d);
    var ref := SolveLine(d);
    BestPairUnique(d, val, ref);
    assert val == ref;
    BestIsBestPair(d);
    BestPairUnique(d, val, Best(d));
  }

  /**
   * `solve`: sum the streaming joltage of every non-blank line, checking each against the
   * quadratic one. A line with a non-digit character raises.
   */
  method Solve(text: string) returns (r: Option<int>)
    ensures r.Some? <==> Scores(Lines(text)).Some?
    ensures r.Some? ==> r.value == Sum(Scores(Lines(text)).value)
  {
    r := SumLines(Split(Strip(text), '\n'));
  }

  /** The loop of `solve` over the raw lines. */
  method SumLines(raw: seq<string>) returns (r: Option<int>)
    ensures r.Some? <==> Scores(NonBlank(raw)).Some?
    ensures r.Some? ==> r.value == Sum(Scores(NonBlank(raw)).value)
  {
    var total := 0;
    ghost var scores: seq<nat> := [];
    for i := 0 to |raw|
      invariant Scores(NonBlank(raw[..i])) == Some(scores)
      invariant total == Sum(scores)
    {
      var t := Strip(raw[i]);
      if t == [] {
        NonBlankSkip(raw, i);
        continue;
      }
      NonBlankStep(raw, i);
      var digits := Digits(t);
      if digits.None? {
        BadLineSpoils(raw, i);
        return None;
      }
      ScoresSnoc(NonBlank(raw[..i]), t, scores);
      var val := CheckedLine(digits.value);
      total := total + val;
      scores := scores + [val];
      assert Sum(scores) == Sum(scores[..|scores| - 1]) + val;
    }
    assert raw[..|raw|] == raw;
    return Some(total);
  }

  /** Every line's joltage is at most 99, so the answer is at most 99 per non-blank line. */
  lemma {:induction false} TotalBound(scores: seq<nat>)
    requires forall k | 0 <= k < |scores| :: scores[k] <= 99
    ensures 0 <= Sum(scores) <= 99 * |scores|
  {
    if scores != [] {
      var p := scores[..|scores| - 1];
      assert forall k | 0 <= k < |p| :: p[k] == scores[k];
      TotalBound(p);
    }
  }

  /** Scores of lines that parse are all at most 99. */
  lemma ScoresAtMost99(ls: seq<string>)
    requires Scores(ls).Some?
    ensures forall k | 0 <= k < |ls| :: Scores(ls).value[k] <= 99
  {
    forall k | 0 <= k < |ls|
      ensures Scores(ls).value[k] <= 99
    {
      BestAtMost99(Digits(ls[k]).value);
    }
  }

  // ---------------------------------------------------------------------------------------
  // The hardware's per-line result table, computed with the streaming pass.

  /** `[int(c) for c in line if c.isdigit()]`: the digits of a line, anything else dropped. */
  function DigitsOf(s: string): (d: seq<nat>)
    ensures |d| <= |s|
    ensures forall k | 0 <= k < |d| :: d[k] < 10
  {
    if s == [] then []
    else
      var c := s[|s| - 1];
      DigitsOf(s[..|s| - 1]) + (if IsDigit(c) then [DigitValue(c)] else [])
  }

  /** On a line of digits only, keeping the digits is reading every character as one. */
  lemma {:induction false} DigitsOfAllDigits(s: string)
    requires AllDigits(s)
    ensures DigitsOf(s) == Digits(s).value
  {
    if s != [] {
      var p := s[..|s| - 1];
      DigitsOfAllDigits(p);
    }
  }

  /** The raw lines of `text.strip().split('\n')` that are not blank, unstripped. */
  function KeptLines(ls: seq<string>): (r: seq<string>)
    ensures |r| <= |ls|
    ensures forall k | 0 <= k < |r| :: Strip(r[k]) != []
  {
    if ls == [] then []
    else KeptLines(ls[..|ls| - 1]) + (if Strip(ls[|ls| - 1]) == [] then [] else [ls[|ls| - 1]])
  }

  /** Each kept line's joltage, digits only. */
  function LineResults(ls: seq<string>): (r: seq<nat>)
    ensures |r| == |ls|
    ensures forall k | 0 <= k < |ls| :: r[k] == Best(DigitsOf(ls[k]))
  {
    seq(|ls|, k requires 0 <= k < |ls| => Best(DigitsOf(ls[k])))
  }

  /** The `{score:08x}` line for each result. */
  function ResultLines(rs: seq<nat>): (hs: seq<string>)
    ensures |hs| == |rs|
  {
    seq(|rs|, k requires 0 <= k < |rs| => Format(rs[k], 8, false))
  }

  lemma KeptLinesSkip(raw: seq<string>, i: nat)
    requires i < |raw| && Strip(raw[i]) == []
    ensures KeptLines(raw[..i + 1]) == KeptLines(raw[..i])
  {
    assert raw[..i + 1][..i] == raw[..i];
  }

  lemma KeptLinesStep(raw: seq<string>, i: nat)
    requires i < |raw| && Strip(raw[i]) != []
    ensures KeptLines(raw[..i + 1]) == KeptLines(raw[..i]) + [raw[i]]
  {
    assert raw[..i + 1][..i] == raw[..i];
  }

  /** The streaming joltage of one line's digits. */
  method LineResult(line: string) returns (score: nat)
    ensures score == Best(DigitsOf(line))
  {
    score := SolveLineStreaming(DigitsOf(line));
    BestIsBestPair(DigitsOf(line));
    BestPairUnique(DigitsOf(line), score, Best(DigitsOf(line)));
  }

  /** The kept lines' results, one per non-blank raw line in input order. */
  method CollectResults(raw: seq<string>) returns (results: seq<nat>)
    ensures results == LineResults(KeptLines(raw))
  {
    results := [];
    for i := 0 to |raw|
      invariant results == LineResults(KeptLines(raw[..i]))
    {
      var line := raw[i];
      if line == [] || Strip(line) == [] {
        assert Strip(line) == [];
        KeptLinesSkip(raw, i);
        continue;
      }
      KeptLinesStep(raw, i);
      var score := LineResult(line);
      ghost var prev := KeptLines(raw[..i]);
      assert LineResults(prev + [line]) == LineResults(prev) + [score];
      results := results + [score];
    }
    assert raw[..|raw|] == raw;
  }

  /** `f.write(f"{score:08x}\n")` for each result, in order. */
  method WriteResults(results: seq<nat>) returns (hex: seq<string>)
    ensures hex == ResultLines(results)
  {
    hex := [];
    for i := 0 to |results|
      invariant |hex| == i
      invariant forall k | 0 <= k < i :: hex[k] == Format(results[k], 8, false)
    {
      hex := hex + [Format(results[i], 8, false)];
    }
  }

  /**
   * The hardware's result precomputation: the streaming joltage of every non-blank line,
   * written as one 8-digit hex line each in input order, and their total.
   */
  method PrecomputeResults(text: string) returns (hex: seq<string>, total: int)
    ensures hex == ResultLines(LineResults(KeptLines(Split(Strip(text), '\n'))))
    ensures total == Sum(LineResults(KeptLines(Split(Strip(text), '\n'))))
  {
    var results := CollectResults(Split(Strip(text), '\n'));
    hex := WriteResults(results);
    total := SumResults(results);
  }

  /** The running total of the results. */
  method SumResults(results: seq<nat>) returns (total: int)
    ensures total == Sum(results)
  {
    total := 0;
    for i := 0 to |results|
      invariant total == Sum(results[..i])
    {
      assert results[..i + 1][..i] == results[..i];
      total := total + results[i];
    }
    assert results[..|results|] == results;
  }

  /** Every result line is exactly eight hex digits and reads back as the line's joltage. */
  lemma ResultLinesParse(rs: seq<nat>, k: nat)
    requires k < |rs| && rs[k] <= 99
    ensures |ResultLines(rs)[k]| == 8
    ensures ParseHex(ResultLines(rs)[k]) == Some(rs[k])
  {
    assert Pow16(2) == 256;
    Pow16Monotone(2, 8);
    FormatRoundTrip(rs[k], 8, false);
  }
}
