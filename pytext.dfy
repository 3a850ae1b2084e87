/**
 * The few Python `str` operations the puzzle scripts rely on, as functions on `seq<char>`:
 * whitespace stripping, `split` by a character, by a string and by whitespace runs,
 * `str.isdigit` on ASCII digits and `int()` on decimal text.
 */
module PyText {
  import opened Common

  /** Python's `str.isspace` for a single character. */
  predicate IsSpace(c: char)
  {
    c == ' ' || c == '\t' || c == '\n' || c == '\r' || c == '\U{000B}' || c == '\U{000C}'
    || ('\U{001C}' <= c <= '\U{001F}') || c == '\U{0085}' || c == '\U{00A0}' || c == '\U{1680}'
    || ('\U{2000}' <= c <= '\U{200A}') || c == '\U{2028}' || c == '\U{2029}' || c == '\U{202F}'
    || c == '\U{205F}' || c == '\U{3000}'
  }

  /** Python's `str.isdigit`, restricted to the ASCII digits. */
  predicate IsDigit(c: char)
  {
    '0' <= c <= '9'
  }

  function DigitValue(c: char): (v: nat)
    requires IsDigit(c)
    ensures v < 10
  {
    c as int - '0' as int
  }

  predicate AllDigits(s: string)
  {
    forall i :: 0 <= i < |s| ==> IsDigit(s[i])
  }

  function LStrip(s: string): (r: string)
    ensures |r| <= |s| && r == s[|s| - |r|..]
    ensures r == [] || !IsSpace(r[0])
  {
    if |s| > 0 && IsSpace(s[0]) then LStrip(s[1..]) else s
  }

  function RStrip(s: string): (r: string)
    ensures |r| <= |s| && r == s[..|r|]
    ensures r == [] || !IsSpace(r[|r| - 1])
  {
    if |s| > 0 && IsSpace(s[|s| - 1]) then RStrip(s[..|s| - 1]) else s
  }

  /** Python's `str.strip()` with no argument. */
  function Strip(s: string): string
  {
    RStrip(LStrip(s))
  }

  /** Index of the first `c` in `s`. */
  function IndexOf(s: string, c: char): (i: nat)
    requires c in s
    ensures i < |s| && s[i] == c && c !in s[..i]
  {
    if s[0] == c then 0 else IndexOf(s[1..], c) + 1
  }

  /** Python's `s.split(sep)` for a one-character separator: k separators give k + 1 parts. */
  function Split(s: string, sep: char): (parts: seq<string>)
    ensures |parts| >= 1
    ensures forall i :: 0 <= i < |parts| ==> sep !in parts[i]
    decreases |s|
  {
    if sep !in s then [s]
    else
      var i := IndexOf(s, sep);
      [s[..i]] + Split(s[i + 1..], sep)
  }

  /** Leftmost occurrence of a non-empty string `t` in `s`. */
  function Find(s: string, t: string): (r: Option<nat>)
    requires |t| > 0
    ensures r.Some? ==> r.value + |t| <= |s| && s[r.value..r.value + |t|] == t
    decreases |s|
  {
    if |s| < |t| then None
    else if s[..|t|] == t then Some(0)
    else match Find(s[1..], t)
      case None => None
      case Some(k) => Some(k + 1)
  }

  /** Python's `s.split(t)` for a non-empty separator string. */
  function SplitOn(s: string, t: string): (parts: seq<string>)
    requires |t| > 0
    ensures |parts| >= 1
    decreases |s|
  {
    match Find(s, t)
    case None => [s]
    case Some(i) => [s[..i]] + SplitOn(s[i + |t|..], t)
  }

  /** Index of the first whitespace character of `s`, or `|s|` when there is none. */
  function SpaceIndex(s: string): (k: nat)
    ensures k <= |s|
    ensures forall i :: 0 <= i < k ==> !IsSpace(s[i])
    ensures k < |s| ==> IsSpace(s[k])
  {
    if s == [] || IsSpace(s[0]) then 0 else SpaceIndex(s[1..]) + 1
  }

  /** Python's `s.split()` with no argument: the maximal runs of non-whitespace characters. */
  function SplitWs(s: string): (words: seq<string>)
    ensures forall i :: 0 <= i < |words| ==> words[i] != []
    decreases |s|
  {
    var t := LStrip(s);
    if t == [] then []
    else
      var k := SpaceIndex(t);
      assert k > 0 && |t| <= |s|;
      var rest := t[k..];
      assert |rest| < |s|;
      [t[..k]] + SplitWs(rest)
  }

  /** The value of a non-empty run of decimal digits, most significant first. */
  function DecimalValue(d: string): nat
    requires AllDigits(d)
  {
    if d == [] then 0 else DecimalValue(d[..|d| - 1]) * 10 + DigitValue(d[|d| - 1])
  }

  /** A non-empty run of ASCII digits and nothing else. */
  function ParseNat(d: string): (r: Option<nat>)
    ensures r.Some? <==> d != [] && AllDigits(d)
  {
    if d != [] && AllDigits(d) then Some(DecimalValue(d)) else None
  }

  /**
   * Python's `int(s)` on decimal text: surrounding whitespace is ignored, one optional sign,
   * then at least one digit; anything else raises ValueError, modelled as `None`.
   */
  function ParseInt(s: string): Option<int>
  {
    var t := Strip(s);
    if |t| > 0 && (t[0] == '+' || t[0] == '-') then
      match ParseNat(t[1..])
      case None => None
      case Some(v) =>
        var n: int := v;
        Some(if t[0] == '-' then -n else n)
    else
      match ParseNat(t)
      case None => None
      case Some(v) => Some(v)
  }

  /** Text that `int()` accepts is never negative unless it carries a minus sign. */
  lemma ParseIntNoMinus(s: string)
    requires '-' !in s && ParseInt(s).Some?
    ensures ParseInt(s).value >= 0
  {
    var t := Strip(s);
    var u := LStrip(s);
    assert u == s[|s| - |u|..];
    assert t == u[..|t|];
    if |t| > 0 {
      assert t[0] == s[|s| - |u|];
    }
  }

  /**
   * `[line.strip() for line in f if line.strip()]`: iterating a text file yields its
   * `\n`-terminated lines, so this is the stripped non-blank pieces of the text split at `\n`.
   */
  function StrippedLines(text: string): (ls: seq<string>)
    ensures forall k :: 0 <= k < |ls| ==> ls[k] != []
  {
    NonBlank(Split(text, '\n'))
  }

  /** The stripped lines, blank ones dropped, in order. */
  function NonBlank(ls: seq<string>): (r: seq<string>)
    ensures forall k :: 0 <= k < |r| ==> r[k] != []
  {
    if ls == [] then []
    else
      var t := Strip(ls[|ls| - 1]);
      NonBlank(ls[..|ls| - 1]) + (if t == [] then [] else [t])
  }

  /**
   * `f.readlines()`: the text cut after each `\n`, a last piece kept only when the text
   * does not end in `\n`. The terminators are left off; every caller strips the line.
   */
  function ReadLines(text: string): (ls: seq<string>)
    ensures forall k :: 0 <= k < |ls| ==> '\n' !in ls[k]
    ensures ls == [] <==> text == []
  {
    var parts := Split(text, '\n');
    if parts[|parts| - 1] == [] then parts[..|parts| - 1] else parts
  }

  /** Each line followed by `\n`, all concatenated: what writing the lines to a file gives. */
  function JoinLines(ls: seq<string>): (s: string)
    ensures |s| >= |ls|
    ensures ls != [] ==> s[|s| - 1] == '\n'
  {
    if ls == [] then [] else ls[0] + "\n" + JoinLines(ls[1..])
  }

  /** No line holds the separator. */
  predicate NoSep(ls: seq<string>, sep: char)
  {
    forall k | 0 <= k < |ls| :: sep !in ls[k]
  }

  lemma {:induction false} JoinLinesAppend(a: seq<string>, b: seq<string>)
    ensures JoinLines(a + b) == JoinLines(a) + JoinLines(b)
  {
    if a == [] {
      assert a + b == b;
    } else {
      assert (a + b)[1..] == a[1..] + b;
      JoinLinesAppend(a[1..], b);
    }
  }

  /** The first `c` is at `i` when `s[i]` is `c` and nothing before it is. */
  lemma IndexOfAt(s: string, c: char, i: nat)
    requires i < |s| && s[i] == c && c !in s[..i]
    ensures IndexOf(s, c) == i
  {
  }

  /** Appending a separator to the text appends an empty last part. */
  lemma {:induction false} SplitSnoc(s: string, sep: char)
    ensures Split(s + [sep], sep) == Split(s, sep) + [[]]
    decreases |s|
  {
    var t := s + [sep];
    if sep !in s {
      assert t[..|s|] == s;
      IndexOfAt(t, sep, |s|);
      assert t[|s| + 1..] == [];
    } else {
      var i := IndexOf(s, sep);
      assert t[..i] == s[..i];
      IndexOfAt(t, sep, i);
      assert t[i + 1..] == s[i + 1..] + [sep];
      SplitSnoc(s[i + 1..], sep);
    }
  }

  /** A first part free of the separator splits off as the first piece. */
  lemma SplitCons(a: string, sep: char, rest: string)
    requires sep !in a
    ensures Split(a + [sep] + rest, sep) == [a] + Split(rest, sep)
  {
    var s := a + [sep] + rest;
    assert s[..|a|] == a;
    IndexOfAt(s, sep, |a|);
    assert s[|a| + 1..] == rest;
  }

  /** Splitting the joined lines gives the lines back, then the empty piece after the last `\n`. */
  lemma {:induction false} SplitJoinLines(ls: seq<string>)
    requires NoSep(ls, '\n')
    ensures Split(JoinLines(ls), '\n') == ls + [[]]
  {
    if ls != [] {
      SplitCons(ls[0], '\n', JoinLines(ls[1..]));
      SplitJoinLines(ls[1..]);
      assert ls == [ls[0]] + ls[1..];
    }
  }

  /** `readlines` of the joined lines gives the lines back. */
  lemma ReadLinesJoin(ls: seq<string>)
    requires NoSep(ls, '\n')
    ensures ReadLines(JoinLines(ls)) == ls
  {
    SplitJoinLines(ls);
    assert (ls + [[]])[..|ls|] == ls;
  }

  /** The joined lines without the final `\n` split into the lines. */
  lemma SplitJoinedInner(ls: seq<string>)
    requires NoSep(ls, '\n') && ls != []
    ensures |JoinLines(ls)| >= 1
    ensures Split(JoinLines(ls)[..|JoinLines(ls)| - 1], '\n') == ls
  {
    var s := JoinLines(ls);
    var inner := s[..|s| - 1];
    assert inner + ['\n'] == s;
    SplitSnoc(inner, '\n');
    SplitJoinLines(ls);
    var parts := Split(inner, '\n');
    assert (parts + [[]])[..|parts|] == parts;
    assert (ls + [[]])[..|ls|] == ls;
  }

  /** A text with no white space. */
  predicate Unspaced(s: string)
  {
    forall i | 0 <= i < |s| :: !IsSpace(s[i])
  }

  /** A text with no white space is its own `strip()`. */
  lemma StripNoSpace(s: string)
    requires Unspaced(s)
    ensures Strip(s) == s
  {
  }

  /** A text with no white space holds no newline. */
  lemma UnspacedNoNewline(s: string)
    requires Unspaced(s)
    ensures '\n' !in s
  {
  }

  /** Python's `c.join(parts)` for a one-character separator. */
  function JoinSep(parts: seq<string>, c: char): string
  {
    if parts == [] then []
    else if |parts| == 1 then parts[0]
    else parts[0] + [c] + JoinSep(parts[1..], c)
  }

  /** Joining the parts of a split with the same separator gives the text back. */
  lemma {:induction false} JoinSplit(s: string, c: char)
    ensures JoinSep(Split(s, c), c) == s
    decreases |s|
  {
    if c in s {
      var i := IndexOf(s, c);
      JoinSplit(s[i + 1..], c);
      assert s == s[..i] + [c] + s[i + 1..];
    }
  }

  /** `Find` gives the leftmost occurrence, and `None` only when there is none. */
  lemma {:induction false} FindLeftmost(s: string, t: string, j: nat)
    requires |t| > 0 && j + |t| <= |s| && s[j..j + |t|] == t
    ensures Find(s, t).Some? && Find(s, t).value <= j
    decreases |s|
  {
    if s[..|t|] != t {
      assert j > 0;
      assert s[1..][j - 1..j - 1 + |t|] == s[j..j + |t|];
      FindLeftmost(s[1..], t, j - 1);
    }
  }

  /** `max(len(line) for line in lines)`, 0 for no lines. */
  function MaxLen(ls: seq<string>): (m: nat)
    ensures forall k | 0 <= k < |ls| :: |ls[k]| <= m
    ensures ls != [] ==> exists k :: 0 <= k < |ls| && |ls[k]| == m
    ensures ls == [] ==> m == 0
  {
    if ls == [] then 0
    else
      var m := MaxLen(ls[..|ls| - 1]);
      if |ls[|ls| - 1]| > m then |ls[|ls| - 1]| else m
  }

  /** `line.ljust(w, fill)`: `fill` added on the right up to width `w`. */
  function LJust(s: string, w: nat, fill: char): (r: string)
    requires |s| <= w
    ensures |r| == w
    ensures forall x | 0 <= x < w :: r[x] == if x < |s| then s[x] else fill
  {
    s + seq(w - |s|, _ => fill)
  }

  /** Every row has exactly `w` characters. */
  predicate Rect(g: seq<string>, w: nat)
  {
    forall y | 0 <= y < |g| :: |g[y]| == w
  }
}
