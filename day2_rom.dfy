/**
 * Day 2, hardware side: two scripts precompute, for every input range and every half-length
 * `k` in 1..12, what the FPGA would otherwise have to divide out. One writes the finished
 * contribution of each (range, k) pair, the other the clipped interval of `x` values packed
 * into a 96-bit word. Both read the ranges the same way and clip the same way.
 */
module Day2Rom {
  import opened Common
  import opened PyText
  import opened Bits
  import opened HexText

  // Reading the ranges (the same `read_ranges` in both scripts).

  /**
   * One comma-separated piece: split at `-` and `int()` the first two parts. Fewer than two
   * parts is an IndexError and a bad number a ValueError, both `None`; further parts are ignored.
   */
  function RangeOf(piece: string): Option<(nat, nat)>
  {
    var parts := Split(piece, '-');
    if |parts| < 2 then None
    else
      match (ParseInt(parts[0]), ParseInt(parts[1]))
      case (Some(a), Some(b)) =>
        ParseIntNoMinus(parts[0]);
        ParseIntNoMinus(parts[1]);
        Some((a, b))
      case _ => None
  }

  /** The reading of every piece. */
  function Readings(pieces: seq<string>): (rs: seq<Option<(nat, nat)>>)
    ensures |rs| == |pieces|
  {
    if pieces == [] then [] else Readings(pieces[..|pieces| - 1]) + [RangeOf(pieces[|pieces| - 1])]
  }

  lemma {:induction false} ReadingsAt(pieces: seq<string>, i: nat)
    requires i < |pieces|
    ensures Readings(pieces)[i] == RangeOf(pieces[i])
  {
    if i < |pieces| - 1 {
      ReadingsAt(pieces[..|pieces| - 1], i);
    }
  }

  /** The ranges in order, or `None` as soon as one piece raises. */
  function Collect(rs: seq<Option<(nat, nat)>>): Option<seq<(nat, nat)>>
  {
    if rs == [] then Some([])
    else
      match Collect(rs[..|rs| - 1])
      case None => None
      case Some(done) => if rs[|rs| - 1].None? then None else Some(done + [rs[|rs| - 1].value])
  }

  /** The ranges of the text: every piece read, in order. */
  function RangesOf(content: string): Option<seq<(nat, nat)>>
  {
    Collect(Readings(Split(Strip(content), ',')))
  }

  /** Collecting succeeds when every piece reads, and then keeps one range per piece, in order. */
  lemma {:induction false} CollectInOrder(rs: seq<Option<(nat, nat)>>)
    ensures Collect(rs).Some? <==> forall i :: 0 <= i < |rs| ==> rs[i].Some?
    ensures Collect(rs).Some? ==>
      |Collect(rs).value| == |rs| && forall i :: 0 <= i < |rs| ==> Collect(rs).value[i] == rs[i].value
  {
    if rs != [] {
      var init := rs[..|rs| - 1];
      CollectInOrder(init);
      assert forall i :: 0 <= i < |init| ==> init[i] == rs[i];
    }
  }

  /** `read_ranges` succeeds exactly when every piece reads, and keeps the pieces' order. */
  lemma RangesInOrder(pieces: seq<string>)
    ensures Collect(Readings(pieces)).Some? <==> forall i :: 0 <= i < |pieces| ==> RangeOf(pieces[i]).Some?
    ensures Collect(Readings(pieces)).Some? ==>
      |Collect(Readings(pieces)).value| == |pieces|
      && forall i :: 0 <= i < |pieces| ==> Collect(Readings(pieces)).value[i] == RangeOf(pieces[i]).value
  {
    var rs := Readings(pieces);
    CollectInOrder(rs);
    forall i | 0 <= i < |pieces|
      ensures rs[i] == RangeOf(pieces[i])
    {
      ReadingsAt(pieces, i);
    }
  }

  lemma CollectStep(pieces: seq<string>, i: nat, done: seq<(nat, nat)>)
    requires i < |pieces| && Collect(Readings(pieces[..i])) == Some(done)
    ensures var r := RangeOf(pieces[i]);
      Collect(Readings(pieces[..i + 1])) == if r.None? then None else Some(done + [r.value])
  {
    assert pieces[..i + 1][..i] == pieces[..i];
  }

  /** `read_ranges` on the file's text. */
  method ReadRanges(content: string) returns (ranges: Option<seq<(nat, nat)>>)
    ensures ranges == RangesOf(content)
  {
    var pieces := Split(Strip(content), ',');
    var rs: seq<(nat, nat)> := [];
    var i := 0;
    while i < |pieces|
      invariant 0 <= i <= |pieces| && Collect(Readings(pieces[..i])) == Some(rs)
    {
      var r := RangeOf(pieces[i]);
      CollectStep(pieces, i, rs);
      if r.None? {
        RangesInOrder(pieces);
        return None;
      }
      rs := rs + [r.value];
      i := i + 1;
    }
    assert pieces[..i] == pieces;
    return Some(rs);
  }

  /** Text without spaces or signs is its own stripped form. */
  lemma DigitsStrip(d: string)
    requires d != [] && AllDigits(d)
    ensures Strip(d) == d
  {
    assert !IsSpace(d[0]) && !IsSpace(d[|d| - 1]);
    assert LStrip(d) == d;
  }

  /** `int()` of plain decimal digits is their value. */
  lemma ParseDigits(d: string)
    requires d != [] && AllDigits(d)
    ensures ParseInt(d) == Some(DecimalValue(d) as int)
  {
    DigitsStrip(d);
    assert IsDigit(d[0]);
  }

  /** Two pieces without `-` joined by one `-` split back into those two pieces. */
  lemma SplitTwo(a: string, b: string)
    requires '-' !in a && '-' !in b
    ensures Split(a + "-" + b, '-') == [a, b]
  {
    var s := a + "-" + b;
    IndexOfAfter(a, b);
    assert s[..|a|] == a && s[|a| + 1..] == b;
  }

  /** "a-b" with both sides plain decimal digits reads back as the pair of their values. */
  lemma RangeOfDigits(a: string, b: string)
    requires a != [] && AllDigits(a) && b != [] && AllDigits(b)
    ensures RangeOf(a + "-" + b) == Some((DecimalValue(a), DecimalValue(b)))
  {
    assert '-' !in a && '-' !in b;
    SplitTwo(a, b);
    ParseDigits(a);
    ParseDigits(b);
  }

  lemma {:induction false} IndexOfAfter(a: string, b: string)
    requires '-' !in a
    ensures IndexOf(a + "-" + b, '-') == |a|
  {
    if a != [] {
      assert (a + "-" + b)[1..] == a[1..] + "-" + b;
      IndexOfAfter(a[1..], b);
    }
  }

  // The doubled numbers of one half-length.

  /** `get_x_bounds(k)`: the `k`-digit numbers run from `10^(k-1)` to `10^k - 1`. */
  function XBounds(k: nat): (b: (nat, nat))
    requires k >= 1
    ensures b.0 >= 1 && b.0 <= b.1 && b.1 + 1 == 10 * b.0
  {
    PowPositive(10, k - 1);
    (Pow(10, k - 1), Pow(10, k) - 1)
  }

  /** `get_const_k(k)`: writing a `k`-digit `x` twice multiplies it by `10^k + 1`. */
  function ConstK(k: nat): (c: nat)
    ensures c >= 2
  {
    PowPositive(10, k);
    Pow(10, k) + 1
  }

  /** `x` is a `k`-digit number whose doubled form `x * (10^k + 1)` lies in `[rs, re]`. */
  predicate InWindow(rs: nat, re: nat, k: nat, x: nat)
    requires k >= 1
  {
    XBounds(k).0 <= x <= XBounds(k).1 && rs <= x * ConstK(k) <= re
  }

  /** Python's `n // c` for a positive divisor, with the bounds that pin it down. */
  function Quot(n: nat, c: nat): (q: nat)
    requires c > 0
    ensures q * c <= n < q * c + c
  {
    QuotBounds(n, c);
    n / c
  }

  lemma QuotBounds(n: nat, c: nat)
    requires c > 0
    ensures 0 <= n / c && (n / c) * c <= n < (n / c) * c + c
  {
    var q, r := n / c, n % c;
    assert n == q * c + r && 0 <= r < c;
    if q < 0 {
      MulAtLeast(q, c);
    }
  }

  /** `ceil(rs / c)` as the scripts write it, clipped below by the smallest `k`-digit number. */
  function XStart(rs: nat, k: nat): nat
    requires k >= 1
  {
    var c := ConstK(k);
    var x := Quot(rs + c - 1, c);
    if x < XBounds(k).0 then XBounds(k).0 else x
  }

  /** `floor(re / c)`, clipped above by the largest `k`-digit number. */
  function XEnd(re: nat, k: nat): nat
    requires k >= 1
  {
    var x := Quot(re, ConstK(k));
    if x > XBounds(k).1 then XBounds(k).1 else x
  }

  lemma FloorDiv(n: nat, c: nat, x: nat)
    requires c > 0
    ensures x * c <= n <==> x <= Quot(n, c)
  {
    var q := Quot(n, c);
    if x <= q {
      MulMonotone(x, q, c);
    } else {
      MulMonotone(q + 1, x, c);
    }
  }

  lemma CeilDiv(n: nat, c: nat, x: nat)
    requires c > 0
    ensures n <= x * c <==> Quot(n + c - 1, c) <= x
  {
    FloorDiv(n + c - 1, c, x + 1);
    assert (x + 1) * c == x * c + c;
  }

  /** The clipped bounds hold exactly the `x` whose doubled form lies in the range. */
  lemma XWindow(rs: nat, re: nat, k: nat, x: nat)
    requires k >= 1
    ensures InWindow(rs, re, k, x) <==> XStart(rs, k) <= x <= XEnd(re, k)
  {
    CeilDiv(rs, ConstK(k), x);
    FloorDiv(re, ConstK(k), x);
  }

  /** `lo + (lo + 1) + ... + hi`, and 0 when `lo > hi`. */
  function SeriesSum(lo: int, hi: int): int
    decreases hi - lo
  {
    if hi < lo then 0 else SeriesSum(lo, hi - 1) + hi
  }

  /** Gauss: twice the series is `(lo + hi) * count`, so that product is always even. */
  lemma {:induction false} Gauss(lo: int, hi: int)
    requires lo <= hi
    ensures 2 * SeriesSum(lo, hi) == (lo + hi) * (hi - lo + 1)
    decreases hi - lo
  {
    if lo < hi {
      Gauss(lo, hi - 1);
      assert (lo + hi - 1) * (hi - lo) == (lo + hi) * (hi - lo) - (hi - lo);
      assert (lo + hi) * (hi - lo + 1) == (lo + hi) * (hi - lo) + (lo + hi);
    }
  }

  /**
   * The reference: the sum of the doubled numbers `x * (10^k + 1)` lying in `[rs, re]`,
   * over the `k`-digit `x` up to `top`.
   */
  function DoubledSum(rs: nat, re: nat, k: nat, top: int): int
    requires k >= 1
    decreases top - XBounds(k).0
  {
    if top < XBounds(k).0 then 0
    else
      var x: nat := top;
      DoubledSum(rs, re, k, top - 1) + (if InWindow(rs, re, k, x) then x * ConstK(k) else 0)
  }

  /** `sum(x * c for x in range(lo, top + 1) if xs <= x <= xe)`. */
  function MaskedSum(lo: int, top: int, xs: int, xe: int, c: int): int
    decreases top - lo
  {
    if top < lo then 0 else MaskedSum(lo, top - 1, xs, xe, c) + (if xs <= top <= xe then top * c else 0)
  }

  /** Masking a run to `[xs, xe]` with `xs` inside it leaves `c` times the series up to `min(top, xe)`. */
  lemma {:induction false} MaskedSeries(lo: int, top: int, xs: int, xe: int, c: int)
    requires lo <= xs
    ensures MaskedSum(lo, top, xs, xe, c) == c * SeriesSum(xs, Min(top, xe))
    decreases top - lo
  {
    if top >= lo {
      MaskedSeries(lo, top - 1, xs, xe, c);
      if xs <= top <= xe {
        assert c * SeriesSum(xs, top) == c * SeriesSum(xs, top - 1) + c * top;
      }
    }
  }

  /** The reference is the masked run over the clipped interval. */
  lemma {:induction false} DoubledSumMasked(rs: nat, re: nat, k: nat, top: int)
    requires k >= 1
    ensures DoubledSum(rs, re, k, top) == MaskedSum(XBounds(k).0, top, XStart(rs, k), XEnd(re, k), ConstK(k))
    decreases top - XBounds(k).0
  {
    if top >= XBounds(k).0 {
      DoubledSumMasked(rs, re, k, top - 1);
      XWindow(rs, re, k, top);
    }
  }

  /** Halving a product whose first factor is twice `s` loses nothing. */
  lemma HalfExact(p: int, count: int, c: int, s: int)
    requires 2 * s == p * count
    ensures p * count * c / 2 == c * s
  {
    assert p * count * c == 2 * (c * s);
  }

  /** `a * b * c` on natural numbers. */
  function Mul3(a: nat, b: nat, c: nat): nat
  {
    a * b * c
  }

  /** `compute_contribution(range_start, range_end, k)`. */
  function Contribution(rs: nat, re: nat, k: nat): nat
    requires k >= 1
  {
    var xs, xe := XStart(rs, k), XEnd(re, k);
    if xs > xe then 0
    else
      var sumVals := xs + xe;
      var count: nat := xe - xs + 1;
      Mul3(sumVals, count, ConstK(k)) / 2
  }

  /** Both scripts clip the same way: the contribution is the constant times the series of the interval. */
  lemma SameClip(rs: nat, re: nat, k: nat)
    requires k >= 1
    ensures var r := XRange(rs, re, k);
      Contribution(rs, re, k) == if r.2 then ConstK(k) * SeriesSum(r.0, r.1) else 0
  {
    var xs, xe := XStart(rs, k), XEnd(re, k);
    if xs <= xe {
      Gauss(xs, xe);
      HalfExact(xs + xe, xe - xs + 1, ConstK(k), SeriesSum(xs, xe));
    }
  }

  /**
   * The closed form is exact: the contribution is the sum of every doubled `k`-digit number
   * inside `[rs, re]`, the `// 2` losing nothing.
   */
  lemma ContributionIsDoubledSum(rs: nat, re: nat, k: nat)
    requires k >= 1
    ensures Contribution(rs, re, k) == DoubledSum(rs, re, k, XBounds(k).1)
  {
    var xs, xe := XStart(rs, k), XEnd(re, k);
    DoubledSumMasked(rs, re, k, XBounds(k).1);
    MaskedSeries(XBounds(k).0, XBounds(k).1, xs, xe, ConstK(k));
    assert Min(XBounds(k).1, xe) == xe;
    SameClip(rs, re, k);
  }

  // The results ROM (`precompute_results.py`).

  /** The twelve contributions of one range, for `k = 1..12`. */
  function RowResults(r: (nat, nat)): (row: seq<nat>)
    ensures |row| == 12
  {
    seq(12, j requires 0 <= j < 12 => Contribution(r.0, r.1, j + 1))
  }

  /** Range-major: the twelve entries of each range, ranges in order. */
  function Results(ranges: seq<(nat, nat)>): (es: seq<nat>)
    ensures |es| == 12 * |ranges|
  {
    if ranges == [] then [] else Results(ranges[..|ranges| - 1]) + RowResults(ranges[|ranges| - 1])
  }

  /** Entry `12 i + k - 1` is the contribution of range `i` for half-length `k`. */
  lemma {:induction false} ResultsAt(ranges: seq<(nat, nat)>, i: nat, k: nat)
    requires i < |ranges| && 1 <= k <= 12
    ensures Results(ranges)[12 * i + k - 1] == Contribution(ranges[i].0, ranges[i].1, k)
  {
    var init := ranges[..|ranges| - 1];
    if i < |init| {
      ResultsAt(init, i, k);
      assert init[i] == ranges[i];
    }
  }

  /** The number of non-zero entries. */
  function NonZero(es: seq<nat>): nat
  {
    if es == [] then 0 else NonZero(es[..|es| - 1]) + (if es[|es| - 1] != 0 then 1 else 0)
  }

  /** Each entry as `w` lower-case hex digits, one line per entry. */
  function HexLines(words: seq<nat>, w: nat): (lines: seq<string>)
    ensures |lines| == |words|
  {
    seq(|words|, j requires 0 <= j < |words| => Format(words[j], w, false))
  }

  /** The state after one more entry: every running figure takes in exactly that entry. */
  lemma ResultStep(done: seq<nat>, result: nat, lines: seq<string>)
    requires lines == HexLines(done, 16)
    ensures lines + [Format(result, 16, false)] == HexLines(done + [result], 16)
    ensures Sum(done + [result]) == Sum(done) + result
    ensures NonZero(done + [result]) == NonZero(done) + (if result > 0 then 1 else 0)
  {
    assert (done + [result])[..|done|] == done;
  }

  lemma ResultsStep(ranges: seq<(nat, nat)>, i: nat)
    requires i < |ranges|
    ensures Results(ranges[..i + 1]) == Results(ranges[..i]) + RowResults(ranges[i])
  {
    assert ranges[..i + 1][..i] == ranges[..i];
  }

  /**
   * `generate_rom_hex`: twelve 16-digit lines per range, range-major; `total_check` adds the
   * positive entries, which is all of them, and `valid_entries` counts them.
   */
  method GenerateResults(ranges: seq<(nat, nat)>) returns (lines: seq<string>, totalCheck: int, validEntries: nat)
    ensures lines == HexLines(Results(ranges), 16)
    ensures totalCheck == Sum(Results(ranges))
    ensures validEntries == NonZero(Results(ranges))
  {
    ghost var done: seq<nat> := [];
    lines, totalCheck, validEntries := [], 0, 0;
    for i := 0 to |ranges|
      invariant done == Results(ranges[..i])
      invariant lines == HexLines(done, 16) && totalCheck == Sum(done) && validEntries == NonZero(done)
    {
      var (rs, re) := ranges[i];
      ghost var row := RowResults(ranges[i]);
      for k := 1 to 13
        invariant done == Results(ranges[..i]) + row[..k - 1]
        invariant lines == HexLines(done, 16) && totalCheck == Sum(done) && validEntries == NonZero(done)
      {
        var result := Contribution(rs, re, k);
        ResultStep(done, result, lines);
        if result > 0 {
          validEntries := validEntries + 1;
          totalCheck := totalCheck + result;
        }
        lines := lines + [Format(result, 16, false)];
        assert row[..k] == row[..k - 1] + [result];
        done := done + [result];
      }
      assert row[..12] == row;
      ResultsStep(ranges, i);
    }
    assert ranges[..|ranges|] == ranges;
  }

  // The divisions ROM (`precompute_divisions.py`).

  /** `compute_x_range`: the clipped interval and whether it is non-empty; an empty one is `(0, 0, False)`. */
  function XRange(rs: nat, re: nat, k: nat): (nat, nat, bool)
    requires k >= 1
  {
    var xs, xe := XStart(rs, k), XEnd(re, k);
    if xs <= xe then (xs, xe, true) else (0, 0, false)
  }

  /** A valid interval holds exactly the `x` in the window; an invalid one means there are none. */
  lemma XRangeExact(rs: nat, re: nat, k: nat)
    requires k >= 1
    ensures var r := XRange(rs, re, k);
      (r.2 ==> forall x: nat :: InWindow(rs, re, k, x) <==> r.0 <= x <= r.1)
      && (!r.2 ==> r == (0, 0, false) && forall x: nat :: !InWindow(rs, re, k, x))
  {
    forall x: nat
      ensures InWindow(rs, re, k, x) <==> XStart(rs, k) <= x <= XEnd(re, k)
    {
      XWindow(rs, re, k, x);
    }
  }

  /** `x_start | (x_end << 40) | (int(valid) << 80)`. */
  function Pack(r: (nat, nat, bool)): nat
  {
    Or(Or(r.0, Shl(r.1, 40)), Shl(if r.2 then 1 else 0, 40 + 40))
  }

  /** 10^12 - 1, the largest 12-digit number, fits in 40 bits. */
  lemma TwelveDigitsFit()
    ensures Pow(10, 12) <= Pow2(40)
  {
    assert Pow(10, 3) == 1000;
    PowAdd(10, 3, 3);
    PowAdd(10, 6, 6);
    assert Pow2(10) == 1024;
    Pow2Add(10, 10);
    Pow2Add(20, 20);
    assert Pow(10, 12) == 1000000000000;
    assert Pow2(40) == 1099511627776;
  }

  /** For `k <= 12` both ends of the interval fit in their 40-bit fields. */
  lemma XRangeFits(rs: nat, re: nat, k: nat)
    requires 1 <= k <= 12
    ensures XRange(rs, re, k).0 < Pow2(40) && XRange(rs, re, k).1 < Pow2(40)
  {
    TwelveDigitsFit();
    if k < 12 {
      PowMonotone(10, k, 12);
    }
  }

  /** The three fields occupy bits 0-39, 40-79 and 80 and each reads back; the word is below `2^81`. */
  lemma PackFields(r: (nat, nat, bool))
    requires r.0 < Pow2(40) && r.1 < Pow2(40)
    ensures Pack(r) % Pow2(40) == r.0
    ensures (Pack(r) / Pow2(40)) % Pow2(40) == r.1
    ensures Pack(r) / Pow2(80) == (if r.2 then 1 else 0)
    ensures Pack(r) < Pow2(81)
  {
    ThreeFields(r.0, r.1, if r.2 then 1 else 0, 40);
  }

  /** `a | (b << w) | (v << 2w)` with `a, b` below `2^w` and `v` a bit: three fields that read back. */
  lemma ThreeFields(a: nat, b: nat, v: nat, w: nat)
    requires a < Pow2(w) && b < Pow2(w) && v < 2
    ensures Or(Or(a, Shl(b, w)), Shl(v, w + w)) % Pow2(w) == a
    ensures (Or(Or(a, Shl(b, w)), Shl(v, w + w)) / Pow2(w)) % Pow2(w) == b
    ensures Or(Or(a, Shl(b, w)), Shl(v, w + w)) / Pow2(w + w) == v
    ensures Or(Or(a, Shl(b, w)), Shl(v, w + w)) < Pow2(w + w + 1)
  {
    var p := Pow2(w);
    var low := a + Shl(b, w);
    OrShifted(a, b, w);
    FieldsBound(a, b, w, w);
    OrShifted(low, v, w + w);
    var n := low + Shl(v, w + w);
    Fields(low, v, w + w);
    FieldsBound(low, v, w + w, 1);
    assert n == a + Shl(b + Shl(v, w), w) by {
      Pow2Add(w, w);
      ShiftTwice(b, v, p);
    }
    Fields(a, b + Shl(v, w), w);
    Fields(b, v, w);
  }

  lemma ShiftTwice(b: nat, v: nat, p: nat)
    ensures b * p + v * (p * p) == (b + v * p) * p
  {
  }

  /** The entry as written: 24 hex digits that read back as the packed word. */
  lemma PackedLine(r: (nat, nat, bool))
    requires r.0 < Pow2(40) && r.1 < Pow2(40)
    ensures |Format(Pack(r), 24, false)| == 24
    ensures ParseHex(Format(Pack(r), 24, false)) == Some(Pack(r))
  {
    PackFields(r);
    Pow16IsPow2(24);
    Pow2Monotone(81, 96);
    FormatRoundTrip(Pack(r), 24, false);
  }

  /** The twelve packed words of one range. */
  function RowWords(r: (nat, nat)): (row: seq<nat>)
    ensures |row| == 12
  {
    seq(12, j requires 0 <= j < 12 => Pack(XRange(r.0, r.1, j + 1)))
  }

  function Words(ranges: seq<(nat, nat)>): (ws: seq<nat>)
    ensures |ws| == 12 * |ranges|
  {
    if ranges == [] then [] else Words(ranges[..|ranges| - 1]) + RowWords(ranges[|ranges| - 1])
  }

  /** Word `12 i + k - 1` packs the interval of range `i` for half-length `k`. */
  lemma {:induction false} WordsAt(ranges: seq<(nat, nat)>, i: nat, k: nat)
    requires i < |ranges| && 1 <= k <= 12
    ensures Words(ranges)[12 * i + k - 1] == Pack(XRange(ranges[i].0, ranges[i].1, k))
  {
    var init := ranges[..|ranges| - 1];
    var w, row := Words(init), RowWords(ranges[|ranges| - 1]);
    assert Words(ranges) == w + row;
    var n := 12 * i + k - 1;
    if i < |init| {
      WordsAt(init, i, k);
      assert init[i] == ranges[i];
      assert (w + row)[n] == w[n];
    } else {
      assert ranges[i] == ranges[|ranges| - 1];
      assert (w + row)[n] == row[k - 1];
    }
  }

  lemma WordsStep(ranges: seq<(nat, nat)>, i: nat)
    requires i < |ranges|
    ensures Words(ranges[..i + 1]) == Words(ranges[..i]) + RowWords(ranges[i])
  {
    assert ranges[..i + 1][..i] == ranges[..i];
  }

  lemma LineStep(done: seq<nat>, word: nat, w: nat, lines: seq<string>)
    requires lines == HexLines(done, w)
    ensures lines + [Format(word, w, false)] == HexLines(done + [word], w)
  {
  }

  lemma HexLinesAppend(a: seq<nat>, b: seq<nat>, w: nat)
    ensures HexLines(a + b, w) == HexLines(a, w) + HexLines(b, w)
  {
  }

  /** `generate_rom_hex`: twelve 24-digit lines per range, range-major. */
  method GenerateDivisions(ranges: seq<(nat, nat)>) returns (lines: seq<string>)
    ensures lines == HexLines(Words(ranges), 24)
  {
    lines := [];
    for i := 0 to |ranges|
      invariant lines == HexLines(Words(ranges[..i]), 24)
    {
      var row := DivisionRow(ranges[i]);
      WordsStep(ranges, i);
      HexLinesAppend(Words(ranges[..i]), RowWords(ranges[i]), 24);
      lines := lines + row;
    }
    assert ranges[..|ranges|] == ranges;
  }

  /** The inner loop over `k = 1..12` for one range. */
  method DivisionRow(r: (nat, nat)) returns (lines: seq<string>)
    ensures lines == HexLines(RowWords(r), 24)
  {
    var (rs, re) := r;
    ghost var row := RowWords(r);
    ghost var done: seq<nat> := [];
    lines := [];
    for k := 1 to 13
      invariant done == row[..k - 1] && lines == HexLines(done, 24)
    {
      var packed := Pack(XRange(rs, re, k));
      LineStep(done, packed, 24, lines);
      lines := lines + [Format(packed, 24, false)];
      assert row[..k] == row[..k - 1] + [packed];
      done := done + [packed];
    }
    assert row[..12] == row;
  }
}
