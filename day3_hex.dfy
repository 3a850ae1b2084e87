/**
 * The Day 3 input images. The digit-vector image packs each line of up to 128 digits into
 * one 640-bit word: digit `i` in bits `4i..4i+3` of the low 512 bits, and a 128-bit mask
 * of the occupied positions above them, written as 160 upper-case hex digits. The
 * character image is the whole text, newline-terminated, one character code per line.
 */
module Day3Hex {
  import opened Common
  import opened PyText
  import opened Bits
  import opened HexText
  import opened CharHex
  import opened Day3

  const MaxWidth: nat := 128

  /** `data_int`: digit `k` weighted by `16^k`, the first digit least significant. */
  function Nibbles(ds: seq<nat>): nat
  {
    if ds == [] then 0 else ds[0] + 16 * Nibbles(ds[1..])
  }

  /** `n` ones, the bits of `mask_int` for a line of `n` digits. */
  function Ones(n: nat): (bs: seq<bool>)
    ensures |bs| == n && forall k | 0 <= k < n :: bs[k]
  {
    seq(n, k => true)
  }

  function Mask(n: nat): nat
  {
    FromBits(Ones(n))
  }

  /** `(mask_int << 512) | data_int` */
  function Word(ds: seq<nat>): nat
  {
    Nibbles(ds) + Shl(Mask(|ds|), 4 * MaxWidth)
  }

  /** A line after `line.strip()` and the cut to 128 characters. */
  function Cut(line: string): (c: string)
    ensures |c| <= MaxWidth
  {
    var t := Strip(line);
    if |t| > MaxWidth then t[..MaxWidth] else t
  }

  /** The word of one line, or `None` when `int(char)` raises on a character. */
  function LineWord(line: string): Option<nat>
  {
    match Digits(Cut(line))
    case None => None
    case Some(ds) => Some(Word(ds))
  }

  /** Appending a digit adds it at weight `16^n`. */
  lemma {:induction false} NibblesAppend(ds: seq<nat>, d: nat)
    ensures Nibbles(ds + [d]) == Nibbles(ds) + d * Pow16(|ds|)
  {
    if ds != [] {
      assert (ds + [d])[1..] == ds[1..] + [d];
      NibblesAppend(ds[1..], d);
    }
  }

  /** Digits below 16 fit in four bits each. */
  lemma {:induction false} NibblesBound(ds: seq<nat>)
    requires forall k | 0 <= k < |ds| :: ds[k] < 16
    ensures Nibbles(ds) < Pow16(|ds|)
  {
    if ds != [] {
      NibblesBound(ds[1..]);
      TwoFields(Nibbles(ds[1..]), ds[0], Pow16(|ds| - 1), 16);
    }
  }

  /** Digit `k` sits in bits `4k..4k+3`. */
  lemma {:induction false} NibbleAt(ds: seq<nat>, k: nat)
    requires forall j | 0 <= j < |ds| :: ds[j] < 16
    requires k < |ds|
    ensures (Nibbles(ds) / Pow2(4 * k)) % 16 == ds[k]
  {
    var n := Nibbles(ds);
    DivModOfSum(ds[0], Nibbles(ds[1..]), 16);
    DivModUnique(ds[0], 16, 0, ds[0]);
    if k > 0 {
      NibbleAt(ds[1..], k - 1);
      Pow2Add(4, 4 * (k - 1));
      assert Pow2(4) == 16;
      DivDiv(n, 16, Pow2(4 * (k - 1)));
    }
  }

  /** Bit `i` of the mask is set exactly for the positions that hold a digit. */
  lemma MaskBits(n: nat, i: nat)
    ensures Bit(Mask(n), i) == if i < n then 1 else 0
  {
    if i < n {
      BitOfFromBits(Ones(n), i);
    } else {
      FromBitsBound(Ones(n));
      Pow2Monotone(n, i);
      BitAbove(Mask(n), i);
    }
  }

  /**
   * The two fields of the word do not overlap: the low 512 bits are the digits, the bits
   * above are the mask, and the word fits in 640 bits, so its 160 hex digits read back as it.
   */
  lemma WordFields(ds: seq<nat>)
    requires |ds| <= MaxWidth && forall k | 0 <= k < |ds| :: ds[k] < 10
    ensures Word(ds) % Pow2(512) == Nibbles(ds)
    ensures Word(ds) / Pow2(512) == Mask(|ds|)
    ensures Word(ds) < Pow2(640)
    ensures |Format(Word(ds), 160, true)| == 160
    ensures ParseHex(Format(Word(ds), 160, true)) == Some(Word(ds))
  {
    NibblesBound(ds);
    Pow16IsPow2(|ds|);
    Pow2Monotone(4 * |ds|, 512);
    Fields(Nibbles(ds), Mask(|ds|), 512);
    FromBitsBound(Ones(|ds|));
    Pow2Monotone(|ds|, 128);
    FieldsBound(Nibbles(ds), Mask(|ds|), 512, 128);
    Pow16IsPow2(160);
    FormatRoundTrip(Word(ds), 160, true);
  }

  /**
   * One line of `convert`: fold every character into `data_int` and `mask_int` with `|=`;
   * `None` when a character is not a digit.
   */
  method PackLine(line: string) returns (r: Option<nat>)
    ensures r == LineWord(line)
  {
    var chars := Cut(line);
    var data: nat := 0;
    var mask: nat := 0;
    ghost var ds: seq<nat> := [];
    for i := 0 to |chars|
      invariant |ds| == i && forall k | 0 <= k < i :: IsDigit(chars[k])
      invariant forall k | 0 <= k < i :: ds[k] == DigitValue(chars[k])
      invariant data == Nibbles(ds) && mask == Mask(i)
    {
      if !IsDigit(chars[i]) {
        assert !AllDigits(chars);
        return None;
      }
      var digit := DigitValue(chars[i]);
      PackStep(ds, digit, mask);
      data := Or(data, Shl(digit, i * 4));
      mask := Or(mask, Shl(1, i));
      ds := ds + [digit];
    }
    assert chars[..|chars|] == chars;
    assert ds == Digits(chars).value;
    r := Some(Or(Shl(mask, 512), data));
    WordIsOr(ds);
  }

  /** The `|=` updates add the new digit and the new mask bit. */
  lemma PackStep(ds: seq<nat>, d: nat, mask: nat)
    requires d < 10 && forall k | 0 <= k < |ds| :: ds[k] < 10
    requires mask == Mask(|ds|)
    ensures Or(Nibbles(ds), Shl(d, |ds| * 4)) == Nibbles(ds + [d])
    ensures Or(mask, Shl(1, |ds|)) == Mask(|ds| + 1)
  {
    NibblesBound(ds);
    Pow16IsPow2(|ds|);
    OrShifted(Nibbles(ds), d, |ds| * 4);
    NibblesAppend(ds, d);
    FromBitsBound(Ones(|ds|));
    OrShifted(mask, 1, |ds|);
    FromBitsAppend(Ones(|ds|), true);
    assert Ones(|ds|) + [true] == Ones(|ds| + 1);
  }

  /** `(mask_int << 512) | data_int` is the sum of the two fields. */
  lemma WordIsOr(ds: seq<nat>)
    requires |ds| <= MaxWidth && forall k | 0 <= k < |ds| :: ds[k] < 10
    ensures Or(Shl(Mask(|ds|), 512), Nibbles(ds)) == Word(ds)
  {
    NibblesBound(ds);
    Pow16IsPow2(|ds|);
    Pow2Monotone(4 * |ds|, 512);
    OrComm(Shl(Mask(|ds|), 512), Nibbles(ds));
    OrShifted(Nibbles(ds), Mask(|ds|), 512);
  }

  /**
   * The lines `convert` writes: one 160-digit word per line, stopping at the first line
   * with a character that is not a digit.
   */
  function Converted(ls: seq<string>): seq<string>
  {
    if ls == [] then []
    else
      match LineWord(ls[0])
      case None => []
      case Some(w) => [Format(w, 160, true)] + Converted(ls[1..])
  }

  /**
   * `convert`: the stripped non-blank lines, each packed and written in order; `ok` is
   * false when `int(char)` raised, after the lines before it were written.
   */
  method Convert(text: string) returns (hex: seq<string>, ok: bool)
    ensures hex == Converted(StrippedLines(text))
    ensures ok <==> forall k | 0 <= k < |StrippedLines(text)| :: LineWord(StrippedLines(text)[k]).Some?
  {
    var lines := StrippedLines(text);
    hex := [];
    for i := 0 to |lines|
      invariant Converted(lines) == hex + Converted(lines[i..])
      invariant forall k | 0 <= k < i :: LineWord(lines[k]).Some?
    {
      assert lines[i..][1..] == lines[i + 1..];
      var w := PackLine(lines[i]);
      if w.None? {
        return hex, false;
      }
      hex := hex + [Format(w.value, 160, true)];
    }
    assert lines[|lines|..] == [];
    return hex, true;
  }

  // ---------------------------------------------------------------------------------------
  // The character image.

  /** The text with a final newline added when it lacks one. */
  function WithNewline(content: string): (r: string)
    ensures |r| == |content| || |r| == |content| + 1
    ensures |r| >= 1 && r[|r| - 1] == '\n'
    ensures r[..|content|] == content
  {
    if |content| > 0 && content[|content| - 1] == '\n' then content else content + "\n"
  }

  /** The character image: one hex code line per character of the newline-terminated text. */
  method MakeHex(content: string) returns (lines: seq<string>)
    ensures lines == CodeLines(WithNewline(content))
    ensures |lines| == |WithNewline(content)|
  {
    var text := content;
    if !(|text| > 0 && text[|text| - 1] == '\n') {
      text := text + "\n";
    }
    lines := StringToHex(text);
  }
}
