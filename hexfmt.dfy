/**
 * Python's zero-padded hexadecimal formatting (`f"{n:0wX}"` and `f"{n:0wx}"`) and the
 * inverse used by the readers (`int(text, 16)`), on non-negative integers.
 */
module HexText {
  import opened Common
  import opened Bits

  /** `16^w`: the values that fit in `w` hex digits are those below it. */
  function Pow16(w: nat): (p: nat)
    ensures p >= 1
  {
    if w == 0 then 1 else 16 * Pow16(w - 1)
  }

  /** The hex digit for a value below 16, upper- or lower-case. */
  function HexDigit(v: nat, upper: bool): (c: char)
    requires v < 16
  {
    if v < 10 then '0' + v as char
    else if upper then 'A' + (v - 10) as char
    else 'a' + (v - 10) as char
  }

  /** The value of a hex digit of either case, or `None` for any other character. */
  function HexValue(c: char): (r: Option<nat>)
    ensures r.Some? ==> r.value < 16
  {
    if '0' <= c <= '9' then Some(c as int - '0' as int)
    else if 'A' <= c <= 'F' then Some(c as int - 'A' as int + 10)
    else if 'a' <= c <= 'f' then Some(c as int - 'a' as int + 10)
    else None
  }

  lemma HexDigitValue(v: nat, upper: bool)
    requires v < 16
    ensures HexValue(HexDigit(v, upper)) == Some(v)
  {
  }

  /** Exactly `w` hex digits of `n`, most significant first (digits above `w` are dropped). */
  function Fixed(n: nat, w: nat, upper: bool): (s: string)
    ensures |s| == w
  {
    if w == 0 then [] else Fixed(n / 16, w - 1, upper) + [HexDigit(n % 16, upper)]
  }

  /** Number of hex digits Python prints for `n` without padding (at least one). */
  function NumDigits(n: nat): (d: nat)
    ensures d >= 1
  {
    if n < 16 then 1 else NumDigits(n / 16) + 1
  }

  /** `f"{n:0wX}"` (or `x` when `upper` is false): padded to `w`, never truncated. */
  function Format(n: nat, w: nat, upper: bool): string
  {
    Fixed(n, Max(w, NumDigits(n)), upper)
  }

  /** `int(s, 16)` on a run of hex digits; empty text or any other character is `None`. */
  function ParseHex(s: string): (r: Option<nat>)
    ensures r.Some? ==> s != []
  {
    if s == [] then None
    else if |s| == 1 then
      match HexValue(s[0])
      case None => None
      case Some(v) => Some(v)
    else
      match (ParseHex(s[..|s| - 1]), HexValue(s[|s| - 1]))
      case (Some(hi), Some(lo)) => Some(hi * 16 + lo)
      case _ => None
  }

  lemma {:induction false} FixedParses(n: nat, w: nat, upper: bool)
    requires w >= 1
    ensures ParseHex(Fixed(n, w, upper)) == Some(n % Pow16(w))
  {
    var s := Fixed(n, w, upper);
    HexDigitValue(n % 16, upper);
    assert s[..|s| - 1] == Fixed(n / 16, w - 1, upper);
    if w > 1 {
      FixedParses(n / 16, w - 1, upper);
      ModPow16(n, w);
    }
  }

  /** `n % 16^w` is the low hex digit plus 16 times `(n / 16) % 16^(w-1)`. */
  lemma ModPow16(n: nat, w: nat)
    requires w >= 1
    ensures n % Pow16(w) == ((n / 16) % Pow16(w - 1)) * 16 + n % 16
  {
    ModOfProduct(n, 16, Pow16(w - 1));
  }

  /** A value below `16^w` is printed in exactly `w` digits and reads back unchanged. */
  lemma {:induction false} FormatRoundTrip(n: nat, w: nat, upper: bool)
    requires w >= 1 && n < Pow16(w)
    ensures Format(n, w, upper) == Fixed(n, w, upper)
    ensures |Format(n, w, upper)| == w
    ensures ParseHex(Format(n, w, upper)) == Some(n)
  {
    NumDigitsBound(n, w);
    FixedParses(n, w, upper);
    DivModUnique(n, Pow16(w), 0, n);
  }

  /** Any value reads back from its `{n:0wX}` text, however many digits it needs. */
  lemma FormatParses(n: nat, w: nat, upper: bool)
    ensures ParseHex(Format(n, w, upper)) == Some(n)
  {
    var width := Max(w, NumDigits(n));
    NumDigitsFit(n);
    Pow16Monotone(NumDigits(n), width);
    FixedInRange(n, width, upper);
  }

  /** `n` fits in the number of digits Python prints for it. */
  lemma {:induction false} NumDigitsFit(n: nat)
    ensures n < Pow16(NumDigits(n))
  {
    if n >= 16 {
      NumDigitsFit(n / 16);
    }
  }

  lemma {:induction false} Pow16Monotone(a: nat, b: nat)
    requires a <= b
    ensures Pow16(a) <= Pow16(b)
  {
    if a < b {
      Pow16Monotone(a, b - 1);
    }
  }

  lemma {:induction false} NumDigitsBound(n: nat, w: nat)
    requires w >= 1 && n < Pow16(w)
    ensures NumDigits(n) <= w
  {
    if n >= 16 {
      assert Pow16(w) == 16 * Pow16(w - 1);
      assert Pow16(0) == 1;
      NumDigitsBound(n / 16, w - 1);
    }
  }

  /** Hex digit counts and bit counts: `16^w == 2^(4w)`. */
  lemma {:induction false} Pow16IsPow2(w: nat)
    ensures Pow16(w) == Pow2(4 * w)
  {
    if w > 0 {
      Pow16IsPow2(w - 1);
      assert Pow2(4 * w) == 16 * Pow2(4 * (w - 1)) by {
        Pow2Add(4, 4 * (w - 1));
        assert Pow2(4) == 16;
      }
    }
  }

  /** Writing two fixed-width fields side by side is formatting the packed value. */
  lemma {:induction false} FixedConcat(hi: nat, lo: nat, w1: nat, w2: nat, upper: bool)
    requires lo < Pow16(w2)
    ensures Fixed(hi, w1, upper) + Fixed(lo, w2, upper) == Fixed(hi * Pow16(w2) + lo, w1 + w2, upper)
  {
    if w2 == 0 {
      assert lo == 0;
    } else {
      var p := Pow16(w2 - 1);
      var n := hi * Pow16(w2) + lo;
      assert lo / 16 < p by {
        assert Pow16(w2) == 16 * p;
      }
      assert n % 16 == lo % 16 && n / 16 == hi * p + lo / 16 by {
        assert n == lo % 16 + (hi * p + lo / 16) * 16;
        DivModOfSum(lo % 16, hi * p + lo / 16, 16);
      }
      FixedConcat(hi, lo / 16, w1, w2 - 1, upper);
    }
  }

  /** Two `w`-digit fields read back as one number, the first above the second. */
  lemma PairParses(hi: nat, lo: nat, w: nat, upper: bool)
    requires w >= 1 && hi < Pow16(w) && lo < Pow16(w)
    ensures |Format(hi, w, upper) + Format(lo, w, upper)| == 2 * w
    ensures ParseHex(Format(hi, w, upper) + Format(lo, w, upper)) == Some(hi * Pow16(w) + lo)
  {
    FormatPair(hi, lo, w, w, upper);
    TwoFields(hi, lo, Pow16(w), Pow16(w));
    Pow16Add(w, w);
    FixedInRange(hi * Pow16(w) + lo, w + w, upper);
  }

  /** Two fields printed side by side are the digits of one number, the first above the second. */
  lemma FormatPair(hi: nat, lo: nat, w1: nat, w2: nat, upper: bool)
    requires w1 >= 1 && w2 >= 1 && hi < Pow16(w1) && lo < Pow16(w2)
    ensures Format(hi, w1, upper) + Format(lo, w2, upper) == Fixed(hi * Pow16(w2) + lo, w1 + w2, upper)
  {
    FormatRoundTrip(hi, w1, upper);
    FormatRoundTrip(lo, w2, upper);
    FixedConcat(hi, lo, w1, w2, upper);
  }

  /** A value that fits in `w` digits reads back from its `w` digits. */
  lemma FixedInRange(word: nat, w: nat, upper: bool)
    requires w >= 1 && word < Pow16(w)
    ensures ParseHex(Fixed(word, w, upper)) == Some(word)
  {
    FixedParses(word, w, upper);
    DivModUnique(word, Pow16(w), 0, word);
  }

  /** A value below `p1` placed above a value below `p2` stays below `p1 * p2`. */
  lemma TwoFields(hi: nat, lo: nat, p1: nat, p2: nat)
    requires hi < p1 && lo < p2
    ensures hi * p2 + lo < p1 * p2
  {
    MulMonotone(hi, p1 - 1, p2);
    assert (p1 - 1) * p2 == p1 * p2 - p2;
  }

  lemma {:induction false} Pow16Add(w1: nat, w2: nat)
    ensures Pow16(w1 + w2) == Pow16(w1) * Pow16(w2)
  {
    if w1 > 0 {
      Pow16Add(w1 - 1, w2);
    }
  }
}
