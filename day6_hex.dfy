/**
 * The Day 6 input image: the padded worksheet written column by column, each column one
 * word with the character of row `y` in bits `8y..8y+7`, followed by one all-zero column
 * that ends the last problem, and the `WIDTH`/`HEIGHT`/`COL_BITS` parameters.
 */
module Day6Hex {
  import opened Common
  import opened PyText
  import opened Bits
  import opened HexText
  import opened Day6

  /** The character codes of column `x`, top row first. */
  function Codes(g: seq<string>, w: nat, x: nat): (cs: seq<nat>)
    requires Rect(g, w) && x < w
    ensures |cs| == |g| && forall y | 0 <= y < |g| :: cs[y] == g[y][x] as nat
  {
    seq(|g|, y requires 0 <= y < |g| => g[y][x] as nat)
  }

  /** `col_val |= char << (y * 8)` for each row in turn, from 0. */
  function OrBytes(cs: seq<nat>): nat
  {
    if cs == [] then 0 else Or(OrBytes(cs[..|cs| - 1]), Shl(cs[|cs| - 1], 8 * (|cs| - 1)))
  }

  /** The codes as base-256 digits, the first least significant. */
  function Bytes(cs: seq<nat>): nat
  {
    if cs == [] then 0 else cs[0] + 256 * Bytes(cs[1..])
  }

  /** Every code fits in one byte. */
  predicate ByteCodes(cs: seq<nat>)
  {
    forall k | 0 <= k < |cs| :: cs[k] < 256
  }

  lemma {:induction false} BytesAppend(cs: seq<nat>, c: nat)
    ensures Bytes(cs + [c]) == Bytes(cs) + c * Pow16(2 * |cs|)
  {
    if cs != [] {
      assert (cs + [c])[1..] == cs[1..] + [c];
      BytesAppend(cs[1..], c);
      assert Pow16(2 * |cs|) == 256 * Pow16(2 * (|cs| - 1));
    }
  }

  /** `n` bytes fit in `2n` hex digits. */
  lemma {:induction false} BytesBound(cs: seq<nat>)
    requires ByteCodes(cs)
    ensures Bytes(cs) < Pow16(2 * |cs|)
  {
    if cs != [] {
      BytesBound(cs[1..]);
      TwoFields(Bytes(cs[1..]), cs[0], Pow16(2 * (|cs| - 1)), 256);
      assert Pow16(2 * |cs|) == 256 * Pow16(2 * (|cs| - 1));
    }
  }

  /** With every code below 256 the shifted codes never overlap, so `|=` adds them. */
  lemma {:induction false} OrBytesIsBytes(cs: seq<nat>)
    requires ByteCodes(cs)
    ensures OrBytes(cs) == Bytes(cs)
  {
    if cs != [] {
      var front := cs[..|cs| - 1];
      var last := cs[|cs| - 1];
      OrBytesIsBytes(front);
      BytesBound(front);
      Pow16IsPow2(2 * |front|);
      OrShifted(Bytes(front), last, 8 * |front|);
      BytesAppend(front, last);
      assert front + [last] == cs;
    }
  }

  /** Byte `k` of the word is code `k`. */
  lemma {:induction false} ByteAt(cs: seq<nat>, k: nat)
    requires ByteCodes(cs) && k < |cs|
    ensures (Bytes(cs) / Pow16(2 * k)) % 256 == cs[k]
  {
    var b := Bytes(cs);
    DivModOfSum(cs[0], Bytes(cs[1..]), 256);
    DivModUnique(cs[0], 256, 0, cs[0]);
    if k > 0 {
      ByteAt(cs[1..], k - 1);
      assert Pow16(2 * k) == 256 * Pow16(2 * (k - 1));
      DivDiv(b, 256, Pow16(2 * (k - 1)));
    }
  }

  /** One column word: the `for y in range(H)` loop. */
  method ColumnWord(g: seq<string>, w: nat, x: nat) returns (v: nat)
    requires Rect(g, w) && x < w
    ensures v == OrBytes(Codes(g, w, x))
  {
    var cs := Codes(g, w, x);
    v := 0;
    for y := 0 to |g|
      invariant v == OrBytes(cs[..y])
    {
      assert cs[..y + 1][..y] == cs[..y];
      v := Or(v, Shl(g[y][x] as nat, y * 8));
    }
    assert cs[..|g|] == cs;
  }

  /** `localparam WIDTH`, `HEIGHT` and `COL_BITS`. */
  datatype Params = Params(width: nat, height: nat, colBits: nat)

  /**
   * `parse_and_write`: nothing for an empty text; otherwise one line of `2H` upper-case hex
   * digits per padded column, then the zero column, and the parameters with the width
   * counting that extra column.
   */
  method ParseAndWrite(text: string) returns (r: Option<(seq<string>, Params)>)
    ensures r.None? <==> ReadLines(text) == []
    ensures r.Some? ==>
      var ls := ReadLines(text);
      var g := Padded(ls);
      var w := MaxLen(ls);
      var h := |ls|;
      |r.value.0| == w + 1
      && (forall x | 0 <= x < w :: r.value.0[x] == Format(OrBytes(Codes(g, w, x)), 2 * h, true))
      && r.value.0[w] == Format(0, 2 * h, true)
      && r.value.1 == Params(w + 1, h, 8 * h)
  {
    var lines := ReadLines(text);
    if lines == [] {
      return None;
    }
    var maxLen := MaxLen(lines);
    var h := |lines|;
    var grid := Padded(lines);
    var width := maxLen + 1;
    var out: seq<string> := [];
    for x := 0 to width
      invariant |out| == x
      invariant forall j | 0 <= j < x && j < maxLen ::
        out[j] == Format(OrBytes(Codes(grid, maxLen, j)), 2 * h, true)
      invariant x > maxLen ==> out[maxLen] == Format(0, 2 * h, true)
    {
      var colVal: nat := 0;
      if x < width - 1 {
        colVal := ColumnWord(grid, maxLen, x);
      } else {
        colVal := 0;
      }
      out := out + [Format(colVal, 2 * h, true)];
    }
    return Some((out, Params(width, h, h * 8)));
  }

  /** Every character of every line fits in one byte. */
  predicate Narrow(ls: seq<string>)
  {
    forall y, i | 0 <= y < |ls| && 0 <= i < |ls[y]| :: ls[y][i] as int < 256
  }

  /** The line of a column of bytes: `2n` digits reading back as the word, byte by byte. */
  lemma WordLine(cs: seq<nat>, y: nat)
    requires ByteCodes(cs) && y < |cs|
    ensures var line := Format(OrBytes(cs), 2 * |cs|, true);
      |line| == 2 * |cs| && ParseHex(line) == Some(Bytes(cs))
      && (Bytes(cs) / Pow2(8 * y)) % 256 == cs[y]
  {
    OrBytesIsBytes(cs);
    BytesBound(cs);
    FormatRoundTrip(Bytes(cs), 2 * |cs|, true);
    ByteField(cs, y);
  }

  /** Byte `y` of the word, in bits `8y..8y+7`, is code `y`. */
  lemma ByteField(cs: seq<nat>, y: nat)
    requires ByteCodes(cs) && y < |cs|
    ensures (Bytes(cs) / Pow2(8 * y)) % 256 == cs[y]
  {
    ByteAt(cs, y);
    Pow16IsPow2(2 * y);
    assert 4 * (2 * y) == 8 * y;
  }

  /** The codes of a padded column are the line characters, spaces past a line's end. */
  lemma PaddedCodes(ls: seq<string>, x: nat)
    requires Narrow(ls) && x < MaxLen(ls)
    ensures var cs := Codes(Padded(ls), MaxLen(ls), x);
      ByteCodes(cs)
      && forall y | 0 <= y < |ls| :: cs[y] == (if x < |ls[y]| then ls[y][x] else ' ') as nat
  {
    forall y | 0 <= y < |ls|
      ensures Padded(ls)[y][x] == if x < |ls[y]| then ls[y][x] else ' '
    {
      PaddedCell(ls, y, x);
    }
  }

  /**
   * A column line holds exactly `2H` digits and reads back as a word whose byte `y` is the
   * character of line `y` at that column, or a space where the line is shorter.
   */
  lemma ColumnLine(ls: seq<string>, x: nat, y: nat)
    requires Narrow(ls) && x < MaxLen(ls) && y < |ls|
    ensures var line := Format(OrBytes(Codes(Padded(ls), MaxLen(ls), x)), 2 * |ls|, true);
      |line| == 2 * |ls| && ParseHex(line).Some?
      && (ParseHex(line).value / Pow2(8 * y)) % 256
        == (if x < |ls[y]| then ls[y][x] else ' ') as nat
  {
    PaddedCodes(ls, x);
    WordLine(Codes(Padded(ls), MaxLen(ls), x), y);
  }

  /** The extra column is `2H` zeros and reads back as 0. */
  lemma ZeroColumn(h: nat)
    requires h >= 1
    ensures |Format(0, 2 * h, true)| == 2 * h && ParseHex(Format(0, 2 * h, true)) == Some(0)
    ensures forall i | 0 <= i < 2 * h :: Format(0, 2 * h, true)[i] == '0'
  {
    FormatRoundTrip(0, 2 * h, true);
    FixedZeros(2 * h);
  }

  lemma {:induction false} FixedZeros(w: nat)
    ensures forall i | 0 <= i < w :: Fixed(0, w, true)[i] == '0'
  {
    if w > 0 {
      FixedZeros(w - 1);
    }
  }
}
