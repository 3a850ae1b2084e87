/**
 * Day 2: an ID is invalid when it is some `k`-digit number written twice (`x * (10^k + 1)`).
 * The solver lists every invalid ID up to ten times the largest range end, merges the input
 * ranges into disjoint ones, and adds up the listed IDs that fall inside each merged range.
 */
module Day2 {
  import opened Common
  import opened PyText
  import opened Sorting
  import opened HexText

  /** `v` is the `k`-digit number `x` written twice. */
  predicate Doubled(v: nat, k: nat, x: nat)
  {
    1 <= k && Pow(10, k - 1) <= x < Pow(10, k) && v == x * (Pow(10, k) + 1)
  }

  /** The IDs `generate_invalid_ids(maxVal)` is meant to list: doubled numbers with `k < 20`. */
  ghost predicate Invalid(v: nat, maxVal: nat)
  {
    v <= maxVal && exists k: nat, x: nat :: k < 20 && Doubled(v, k, x)
  }

  predicate Increasing(s: seq<nat>)
  {
    forall i, j :: 0 <= i < j < |s| ==> s[i] < s[j]
  }

  /** A doubled `k`-digit number has `2k` digits: it lies in `[10^(2k-2), 10^(2k))`. */
  lemma DoubledRange(k: nat, x: nat)
    requires 1 <= k && Pow(10, k - 1) <= x < Pow(10, k)
    ensures Pow(10, 2 * (k - 1)) < x * (Pow(10, k) + 1) < Pow(10, 2 * k)
  {
    var p, q := Pow(10, k - 1), Pow(10, k);
    PowAdd(10, k - 1, k - 1);
    PowAdd(10, k, k);
    assert q == 10 * p;
    MulLower(p, x, q + 1);
    MulUpper(x, q);
  }

  lemma MulLower(p: nat, x: nat, m: nat)
    requires 1 <= p <= x && p < m
    ensures p * p < x * m
  {
    assert p * p < p * m;
    assert p * m <= x * m;
  }

  lemma MulUpper(x: nat, q: nat)
    requires x < q
    ensures x * (q + 1) < q * q
  {
    assert x * (q + 1) <= (q - 1) * (q + 1);
  }

  /** Later `x` give larger values: the inner loop may stop at the first value past `maxVal`. */
  lemma DoubledGrows(x: nat, y: nat, m: nat)
    requires x <= y
    ensures x * m <= y * m
  {
  }

  lemma NextMultiple(x: nat, m: nat)
    requires m >= 1
    ensures x * m < (x + 1) * m
  {
  }

  /** Every value of a larger `k` is larger than every value of a smaller one. */
  lemma {:induction false} DoubledOrdered(v: nat, k: nat, x: nat, w: nat, j: nat, y: nat)
    requires Doubled(v, k, x) && Doubled(w, j, y) && k < j
    ensures v < w
  {
    DoubledRange(k, x);
    DoubledRange(j, y);
    if k < j - 1 {
      PowMonotone(10, 2 * k, 2 * (j - 1));
    }
  }

  /** The `for x in range(start, end)` loop for one `k`, stopping at the first value past `maxVal`. */
  method AppendDoubled(found: seq<nat>, k: nat, maxVal: nat) returns (found': seq<nat>)
    requires 1 <= k && Increasing(found)
    requires forall v: nat :: v in found ==> v < Pow(10, 2 * (k - 1))
    ensures Increasing(found')
    ensures forall v: nat :: v in found' ==> v < Pow(10, 2 * k)
    ensures forall v: nat :: v in found' <==> v in found || (v <= maxVal && exists x: nat :: Doubled(v, k, x))
  {
    var start := Pow(10, k - 1);
    var end := Pow(10, k);
    var multiplier := Pow(10, k) + 1;
    PowMonotone(10, k - 1, k);
    DoubledRange(k, start);
    found' := found;
    var x := start;
    while x < end
      invariant start <= x <= end && Increasing(found')
      invariant forall v: nat :: v in found' ==> v < Pow(10, 2 * k)
      invariant forall v: nat :: v in found' ==> v < x * multiplier
      invariant forall v: nat :: v in found' <==> v in found || DoubledBelow(v, k, x, maxVal)
    {
      var val := x * multiplier;
      if val > maxVal {
        forall v: nat, y: nat | Doubled(v, k, y) && y >= x
          ensures v > maxVal
        {
          DoubledGrows(x, y, multiplier);
        }
        return;
      }
      DoubledRange(k, x);
      IncreasingAppend(found', val);
      NextDoubled(k, x, x + 1, val, maxVal);
      found' := found' + [val];
      x := x + 1;
      NextMultiple(x - 1, multiplier);
    }
  }

  /** `v` is at most `maxVal` and the value of some `y < x`. */
  ghost predicate DoubledBelow(v: nat, k: nat, x: nat, maxVal: nat)
  {
    v <= maxVal && exists y: nat :: y < x && Doubled(v, k, y)
  }

  /** The values below `x + 1` are those below `x` and the value of `x` itself. */
  lemma NextDoubled(k: nat, x: nat, x1: nat, val: nat, maxVal: nat)
    requires 1 <= k && Pow(10, k - 1) <= x < Pow(10, k) && x1 == x + 1
    requires val == x * (Pow(10, k) + 1) && val <= maxVal
    ensures forall v: nat :: DoubledBelow(v, k, x1, maxVal) <==> DoubledBelow(v, k, x, maxVal) || v == val
  {
    assert Doubled(val, k, x);
  }

  lemma IncreasingAppend(s: seq<nat>, v: nat)
    requires Increasing(s) && forall w :: w in s ==> w < v
    ensures Increasing(s + [v])
  {
    forall i, j | 0 <= i < j < |s| + 1
      ensures (s + [v])[i] < (s + [v])[j]
    {
      assert (s + [v])[i] == s[i] && s[i] in s;
    }
  }

  /** Every doubled value with `k' < k` up to `maxVal` is already listed. */
  ghost predicate ListedBelow(found: seq<nat>, k: nat, maxVal: nat)
  {
    forall v: nat, j: nat, x: nat :: j < k && Doubled(v, j, x) && v <= maxVal ==> v in found
  }

  /** `generate_invalid_ids(max_val)`: the invalid IDs up to `maxVal`, each once, ascending. */
  method GenerateInvalidIds(maxVal: nat) returns (ids: seq<nat>)
    ensures Increasing(ids)
    ensures forall v :: v in ids <==> Invalid(v, maxVal)
  {
    var found: seq<nat> := [];
    var k: nat := 1;
    while k < 20
      invariant 1 <= k <= 20 && Increasing(found)
      invariant forall v: nat :: v in found ==> v < Pow(10, 2 * (k - 1)) && Invalid(v, maxVal)
      invariant ListedBelow(found, k, maxVal)
    {
      var start := Pow(10, k - 1);
      var multiplier := Pow(10, k) + 1;
      if start * multiplier > maxVal {
        forall v: nat, j: nat, x: nat | j < 20 && Doubled(v, j, x) && v <= maxVal
          ensures v in found
        {
          if j >= k {
            assert Doubled(start * multiplier, k, start) by {
              PowMonotone(10, k - 1, k);
            }
            if j > k {
              DoubledOrdered(start * multiplier, k, start, v, j, x);
            } else {
              DoubledGrows(start, x, multiplier);
            }
          }
        }
        break;
      }
      var before := found;
      found := AppendDoubled(found, k, maxVal);
      forall v | v in found
        ensures v < Pow(10, 2 * k) && Invalid(v, maxVal)
      {
        if v !in before {
          var x: nat :| Doubled(v, k, x);
        }
      }
      k := k + 1;
    }
    assert ListedBelow(found, 20, maxVal);
    SortIncreasing(found);
    ids := SortBy(found, IntLess);
  }

  /** `<` on integers, the order `list.sort()` uses. */
  function IntLess(a: nat, b: nat): bool
  {
    a < b
  }

  /** Sorting an already ascending list changes nothing. */
  lemma {:induction false} SortIncreasing(s: seq<nat>)
    requires Increasing(s)
    ensures SortBy(s, IntLess) == s
  {
    if s != [] {
      var init := s[..|s| - 1];
      assert Increasing(init);
      SortIncreasing(init);
      assert s == init + [s[|s| - 1]];
      if init != [] {
        assert !IntLess(s[|s| - 1], init[|init| - 1]);
      }
    }
  }

  /** `v` is a doubled number of at most 19 + 19 digits, whatever the bound. */
  ghost predicate DoubledId(v: nat)
  {
    exists k: nat, x: nat :: k < 20 && Doubled(v, k, x)
  }

  // Reading the ranges.

  /** What one comma-separated piece of the input contributes. */
  datatype Token = Skip | Bad | Span(lo: nat, hi: nat)

  /**
   * A piece that is blank or does not split on `-` into exactly two parts is skipped;
   * otherwise both parts go through `int()`, which may fail. Neither part can hold a
   * `-`, so both values are natural numbers.
   */
  function TokenOf(r: string): Token
  {
    var s := Strip(r);
    if s == [] then Skip
    else
      var parts := Split(s, '-');
      if |parts| != 2 then Skip
      else
        match (ParseInt(parts[0]), ParseInt(parts[1]))
        case (Some(a), Some(b)) =>
          ParseIntNoMinus(parts[0]);
          ParseIntNoMinus(parts[1]);
          Span(a, b)
        case _ => Bad
  }

  /** The pieces of the input: the whole text stripped and cut at every comma. */
  function Pieces(text: string): seq<string>
  {
    Split(Strip(text), ',')
  }

  /** The token of every piece. */
  function Tokens(pieces: seq<string>): (ts: seq<Token>)
    ensures |ts| == |pieces|
  {
    if pieces == [] then [] else Tokens(pieces[..|pieces| - 1]) + [TokenOf(pieces[|pieces| - 1])]
  }

  lemma {:induction false} TokensAt(pieces: seq<string>, i: nat)
    requires i < |pieces|
    ensures Tokens(pieces)[i] == TokenOf(pieces[i])
  {
    if i < |pieces| - 1 {
      TokensAt(pieces[..|pieces| - 1], i);
    }
  }

  /** The ranges in input order, or `None` where `int()` raises. */
  function Ranges(ts: seq<Token>): (rs: Option<seq<(nat, nat)>>)
    ensures rs.Some? ==> |rs.value| <= |ts|
  {
    if ts == [] then Some([])
    else
      match Ranges(ts[..|ts| - 1])
      case None => None
      case Some(rs) =>
        match ts[|ts| - 1]
        case Skip => Some(rs)
        case Bad => None
        case Span(a, b) => Some(rs + [(a, b)])
  }

  /** `int()` raises exactly when some piece has a part that is not an integer. */
  lemma {:induction false} RangesFail(ts: seq<Token>)
    ensures Ranges(ts).None? <==> exists i :: 0 <= i < |ts| && ts[i].Bad?
  {
    if ts != [] {
      var init := ts[..|ts| - 1];
      RangesFail(init);
      assert forall i :: 0 <= i < |init| ==> init[i] == ts[i];
    }
  }

  /** One more token that is not a failure: a skip keeps the ranges, a span appends itself. */
  lemma RangesStep(pieces: seq<string>, k: nat, rs: seq<(nat, nat)>)
    requires k < |pieces| && Ranges(Tokens(pieces[..k])) == Some(rs)
    requires var t := TokenOf(pieces[k]); !t.Bad?
    ensures var t := TokenOf(pieces[k]);
      Ranges(Tokens(pieces[..k + 1])) == Some(if t.Span? then rs + [(t.lo, t.hi)] else rs)
  {
    var ts := Tokens(pieces[..k + 1]);
    assert pieces[..k + 1][..k] == pieces[..k];
    assert ts[..k] == Tokens(pieces[..k]);
  }

  lemma MaxEndStep(rs: seq<(nat, nat)>, r: (nat, nat))
    ensures MaxEnd(rs + [r]) == Max(MaxEnd(rs), r.1)
  {
    assert (rs + [r])[..|rs|] == rs;
  }

  /** The largest range end, or 0 for no ranges. */
  function MaxEnd(rs: seq<(nat, nat)>): (m: nat)
    ensures forall i :: 0 <= i < |rs| ==> rs[i].1 <= m
    ensures m == 0 || exists i :: 0 <= i < |rs| && rs[i].1 == m
  {
    if rs == [] then 0 else Max(MaxEnd(rs[..|rs| - 1]), rs[|rs| - 1].1)
  }

  /** The reading loop: the ranges and `max_limit`. */
  method ReadRanges(pieces: seq<string>) returns (ranges: Option<seq<(nat, nat)>>, maxLimit: nat)
    ensures ranges == Ranges(Tokens(pieces))
    ensures ranges.Some? ==> maxLimit == MaxEnd(ranges.value)
  {
    var rs: seq<(nat, nat)> := [];
    maxLimit := 0;
    var i := 0;
    while i < |pieces|
      invariant 0 <= i <= |pieces|
      invariant Ranges(Tokens(pieces[..i])) == Some(rs)
      invariant maxLimit == MaxEnd(rs)
    {
      var t := TokenOf(pieces[i]);
      if t.Bad? {
        ranges := None;
        TokensAt(pieces, i);
        RangesFail(Tokens(pieces));
        return;
      }
      RangesStep(pieces, i, rs);
      if t.Span? {
        MaxEndStep(rs, (t.lo, t.hi));
        rs := rs + [(t.lo, t.hi)];
        if t.hi > maxLimit {
          maxLimit := t.hi;
        }
      }
      i := i + 1;
    }
    assert pieces[..i] == pieces;
    ranges := Some(rs);
  }

  // Merging.

  /** Some range of `rs` holds `n` (a range with `start > end` holds nothing). */
  predicate Covered(rs: seq<(nat, nat)>, n: int)
  {
    exists i :: 0 <= i < |rs| && rs[i].0 <= n <= rs[i].1
  }

  /** Each range ends more than one below the start of every later one. */
  predicate Separated(rs: seq<(nat, nat)>)
  {
    forall i, j :: 0 <= i < j < |rs| ==> rs[i].1 + 1 < rs[j].0
  }

  /** Python's order on `(start, end)` tuples. */
  function LexLess(a: (nat, nat), b: (nat, nat)): bool
  {
    a.0 < b.0 || (a.0 == b.0 && a.1 < b.1)
  }

  lemma LexOrder()
    ensures StrictWeakOrder(LexLess)
  {
  }

  lemma CoveredSnoc(rs: seq<(nat, nat)>, r: (nat, nat), n: int)
    ensures Covered(rs + [r], n) <==> Covered(rs, n) || r.0 <= n <= r.1
  {
    var rs' := rs + [r];
    if Covered(rs, n) {
      var i :| 0 <= i < |rs| && rs[i].0 <= n <= rs[i].1;
      assert rs'[i] == rs[i];
    }
    if r.0 <= n <= r.1 {
      assert rs'[|rs|] == r;
    }
    if Covered(rs', n) {
      var i :| 0 <= i < |rs'| && rs'[i].0 <= n <= rs'[i].1;
      if i < |rs| {
        assert rs'[i] == rs[i];
      }
    }
  }

  /** Ranges holding the same tuples cover the same numbers. */
  lemma CoveredSameElements(rs: seq<(nat, nat)>, ts: seq<(nat, nat)>, n: int)
    requires multiset(rs) == multiset(ts)
    ensures Covered(rs, n) <==> Covered(ts, n)
  {
    if Covered(rs, n) {
      var i :| 0 <= i < |rs| && rs[i].0 <= n <= rs[i].1;
      assert rs[i] in multiset(ts);
      var j :| 0 <= j < |ts| && ts[j] == rs[i];
    }
    if Covered(ts, n) {
      var i :| 0 <= i < |ts| && ts[i].0 <= n <= ts[i].1;
      assert ts[i] in multiset(rs);
      var j :| 0 <= j < |rs| && rs[j] == ts[i];
    }
  }

  /** The closed ranges `merged` and the open one `[cs, ce]` cover what `prefix` covers. */
  ghost predicate Tracks(merged: seq<(nat, nat)>, cs: nat, ce: nat, prefix: seq<(nat, nat)>)
  {
    forall n: int :: Covered(merged, n) || cs <= n <= ce <==> Covered(prefix, n)
  }

  /** A range starting inside or just after the open one widens it. */
  lemma ExtendStep(merged: seq<(nat, nat)>, cs: nat, ce: nat, prefix: seq<(nat, nat)>, next: (nat, nat))
    requires Tracks(merged, cs, ce, prefix) && cs <= next.0 <= ce + 1
    ensures Tracks(merged, cs, Max(ce, next.1), prefix + [next])
  {
    forall n: int
      ensures Covered(merged, n) || cs <= n <= Max(ce, next.1) <==> Covered(prefix + [next], n)
    {
      CoveredSnoc(prefix, next, n);
    }
  }

  /** A range starting past the open one closes it and opens itself. */
  lemma CloseStep(merged: seq<(nat, nat)>, cs: nat, ce: nat, prefix: seq<(nat, nat)>, next: (nat, nat))
    requires Tracks(merged, cs, ce, prefix)
    ensures Tracks(merged + [(cs, ce)], next.0, next.1, prefix + [next])
  {
    forall n: int
      ensures Covered(merged + [(cs, ce)], n) || next.0 <= n <= next.1 <==> Covered(prefix + [next], n)
    {
      CoveredSnoc(merged, (cs, ce), n);
      CoveredSnoc(prefix, next, n);
    }
  }

  /** Starts never decrease, as after sorting by `(start, end)`. */
  predicate StartsAscend(rs: seq<(nat, nat)>)
  {
    forall i, j :: 0 <= i < j < |rs| ==> rs[i].0 <= rs[j].0
  }

  /** Sort the ranges, then fuse them: the result covers what the input covers, separated. */
  method MergeRanges(ranges: seq<(nat, nat)>) returns (merged: seq<(nat, nat)>)
    ensures forall n: int :: Covered(merged, n) <==> Covered(ranges, n)
    ensures Separated(merged)
    ensures |merged| <= |ranges| && (merged == [] <==> ranges == [])
  {
    var sorted := SortBy(ranges, LexLess);
    LexOrder();
    SortBySorted(ranges, LexLess);
    assert StartsAscend(sorted) by {
      forall i, j | 0 <= i < j < |sorted|
        ensures sorted[i].0 <= sorted[j].0
      {
        assert !LexLess(sorted[j], sorted[i]);
      }
    }
    merged := Fuse(sorted);
    forall n: int
      ensures Covered(merged, n) <==> Covered(ranges, n)
    {
      CoveredSameElements(sorted, ranges, n);
    }
  }

  /** The merge loop over ranges sorted by start: each one that overlaps or touches the open one joins it. */
  method Fuse(sorted: seq<(nat, nat)>) returns (merged: seq<(nat, nat)>)
    requires StartsAscend(sorted)
    ensures forall n: int :: Covered(merged, n) <==> Covered(sorted, n)
    ensures Separated(merged)
    ensures |merged| <= |sorted| && (merged == [] <==> sorted == [])
  {
    merged := [];
    if |sorted| == 0 {
      return;
    }
    var cs: nat, ce: nat := sorted[0].0, sorted[0].1;
    var i := 1;
    assert sorted[..1] == [] + [sorted[0]];
    forall n: int
      ensures Covered([], n) || cs <= n <= ce <==> Covered(sorted[..1], n)
    {
      CoveredSnoc([], sorted[0], n);
    }
    while i < |sorted|
      invariant 1 <= i <= |sorted| && |merged| < i
      invariant Tracks(merged, cs, ce, sorted[..i])
      invariant Separated(merged)
      invariant forall m :: 0 <= m < |merged| ==> merged[m].1 + 1 < cs
      invariant forall j :: i <= j < |sorted| ==> cs <= sorted[j].0
    {
      var next := sorted[i];
      assert sorted[..i + 1] == sorted[..i] + [next];
      if next.0 <= ce + 1 {
        ExtendStep(merged, cs, ce, sorted[..i], next);
        ce := Max(ce, next.1);
      } else {
        CloseStep(merged, cs, ce, sorted[..i], next);
        SeparatedSnoc(merged, (cs, ce));
        merged := merged + [(cs, ce)];
        cs, ce := next.0, next.1;
      }
      i := i + 1;
    }
    assert sorted[..i] == sorted;
    var last: (nat, nat) := (cs, ce);
    forall n: int
      ensures Covered(merged + [last], n) <==> Covered(sorted, n)
    {
      CoveredSnoc(merged, last, n);
    }
    SeparatedSnoc(merged, last);
    merged := merged + [last];
  }

  /** Closing a range that starts past every earlier end keeps the list separated. */
  lemma SeparatedSnoc(rs: seq<(nat, nat)>, r: (nat, nat))
    requires Separated(rs) && forall m :: 0 <= m < |rs| ==> rs[m].1 + 1 < r.0
    ensures Separated(rs + [r])
  {
  }

  // Summing.

  /** The elements of `a` inside `[lo, hi]`, in order. */
  function Within(a: seq<nat>, lo: int, hi: int): (r: seq<nat>)
    ensures forall v :: v in r <==> v in a && lo <= v <= hi
  {
    if a == [] then [] else (if lo <= a[0] <= hi then [a[0]] else []) + Within(a[1..], lo, hi)
  }

  /** The elements of `a` that some range of `rs` holds, in order. */
  function InAny(a: seq<nat>, rs: seq<(nat, nat)>): (r: seq<nat>)
    ensures forall v :: v in r <==> v in a && Covered(rs, v)
  {
    if a == [] then [] else (if Covered(rs, a[0]) then [a[0]] else []) + InAny(a[1..], rs)
  }

  /** `bisect_left(a, x)`, by the answer it gives on a list in ascending order: the elements before it are below `x`. */
  function BisectLeft(a: seq<nat>, x: int): (i: nat)
    ensures i <= |a| && forall j :: 0 <= j < i ==> a[j] < x
  {
    if a == [] || a[0] >= x then 0 else 1 + BisectLeft(a[1..], x)
  }

  /** `bisect_right(a, x)`, likewise: the elements before it are at most `x`. */
  function BisectRight(a: seq<nat>, x: int): (i: nat)
    ensures i <= |a| && forall j :: 0 <= j < i ==> a[j] <= x
  {
    if a == [] || a[0] > x then 0 else 1 + BisectRight(a[1..], x)
  }

  /** Python's `a[i:j]` for `i, j <= len(a)`: empty when `i > j`. */
  function Slice(a: seq<nat>, i: nat, j: nat): seq<nat>
    requires i <= |a| && j <= |a|
  {
    if i <= j then a[i..j] else []
  }

  /** On an ascending list the two bisections cut out exactly the elements inside the range. */
  lemma {:induction false} SliceWithin(a: seq<nat>, lo: int, hi: int)
    requires Increasing(a)
    ensures Slice(a, BisectLeft(a, lo), BisectRight(a, hi)) == Within(a, lo, hi)
  {
    if a != [] {
      var t := a[1..];
      assert Increasing(t);
      assert forall j :: 0 <= j < |t| ==> t[j] > a[0] by {
        forall j | 0 <= j < |t|
          ensures t[j] > a[0]
        {
          assert t[j] == a[j + 1];
        }
      }
      if a[0] > hi {
        AboveWithin(t, lo, hi);
      } else {
        SliceWithin(t, lo, hi);
        var l, r := BisectLeft(t, lo), BisectRight(t, hi);
        if a[0] < lo {
          if 1 + l <= 1 + r {
            assert a[1 + l..1 + r] == t[l..r];
          }
        } else {
          assert l == 0;
          assert a[0..1 + r] == [a[0]] + t[0..r];
        }
      }
    }
  }

  lemma {:induction false} AboveWithin(a: seq<nat>, lo: int, hi: int)
    requires forall j :: 0 <= j < |a| ==> a[j] > hi
    ensures Within(a, lo, hi) == []
  {
    if a != [] {
      AboveWithin(a[1..], lo, hi);
    }
  }

  lemma {:induction false} NoRanges(a: seq<nat>)
    ensures InAny(a, []) == []
  {
    if a != [] {
      NoRanges(a[1..]);
    }
  }

  /** Per range, in order, the sum of the listed values inside it. */
  function RangeSums(cands: seq<nat>, rs: seq<(nat, nat)>): int
  {
    if rs == [] then 0
    else
      var r := rs[|rs| - 1];
      RangeSums(cands, rs[..|rs| - 1]) + Sum(Within(cands, r.0, r.1))
  }

  /** The summing loop: bisect each range's bounds and add the slice between them. */
  method SumRanges(cands: seq<nat>, merged: seq<(nat, nat)>) returns (total: int)
    requires Increasing(cands)
    ensures total == RangeSums(cands, merged)
  {
    total := 0;
    var i := 0;
    while i < |merged|
      invariant 0 <= i <= |merged|
      invariant total == RangeSums(cands, merged[..i])
    {
      var (start, end) := merged[i];
      var idxStart := BisectLeft(cands, start);
      var idxEnd := BisectRight(cands, end);
      var subset := Slice(cands, idxStart, idxEnd);
      SliceWithin(cands, start, end);
      assert merged[..i + 1][..i] == merged[..i];
      total := total + Sum(subset);
      i := i + 1;
    }
    assert merged[..i] == merged;
  }

  /** Adding one more range that shares no value with the earlier ones adds its own values. */
  lemma {:induction false} SumSnoc(a: seq<nat>, rs: seq<(nat, nat)>, r: (nat, nat))
    requires forall v :: v in a && Covered(rs, v) ==> !(r.0 <= v <= r.1)
    ensures Sum(InAny(a, rs + [r])) == Sum(InAny(a, rs)) + Sum(Within(a, r.0, r.1))
  {
    if a != [] {
      var t := a[1..];
      SumSnoc(t, rs, r);
      CoveredSnoc(rs, r, a[0]);
      var h1 := if Covered(rs + [r], a[0]) then [a[0]] else [];
      var h2 := if Covered(rs, a[0]) then [a[0]] else [];
      var h3 := if r.0 <= a[0] <= r.1 then [a[0]] else [];
      SumAppend(h1, InAny(t, rs + [r]));
      SumAppend(h2, InAny(t, rs));
      SumAppend(h3, Within(t, r.0, r.1));
    }
  }

  /** Over separated ranges, the per-range sums add up every covered value exactly once. */
  lemma {:induction false} SeparatedSums(a: seq<nat>, rs: seq<(nat, nat)>)
    requires Separated(rs)
    ensures RangeSums(a, rs) == Sum(InAny(a, rs))
  {
    if rs == [] {
      NoRanges(a);
    } else {
      var init, r := rs[..|rs| - 1], rs[|rs| - 1];
      assert rs == init + [r];
      SeparatedInit(init, r);
      SeparatedSums(a, init);
      SumSnoc(a, init, r);
    }
  }

  /** The earlier ranges stay separated, and none of them meets the last one. */
  lemma SeparatedInit(init: seq<(nat, nat)>, r: (nat, nat))
    requires Separated(init + [r])
    ensures Separated(init)
    ensures forall v :: Covered(init, v) ==> !(r.0 <= v <= r.1)
  {
    var rs := init + [r];
    forall i, j | 0 <= i < j < |init|
      ensures init[i].1 + 1 < init[j].0
    {
      assert rs[i] == init[i] && rs[j] == init[j];
    }
    forall v | Covered(init, v)
      ensures !(r.0 <= v <= r.1)
    {
      var i :| 0 <= i < |init| && init[i].0 <= v <= init[i].1;
      assert rs[i] == init[i] && rs[|init|] == r;
    }
  }

  /** Ranges covering the same numbers select the same values. */
  lemma {:induction false} SameCover(a: seq<nat>, rs: seq<(nat, nat)>, ts: seq<(nat, nat)>)
    requires forall n: int :: Covered(rs, n) <==> Covered(ts, n)
    ensures InAny(a, rs) == InAny(a, ts)
  {
    if a != [] {
      SameCover(a[1..], rs, ts);
    }
  }

  /** The values of an ascending list that ranges select are themselves ascending: none is added twice. */
  lemma {:induction false} InAnyIncreasing(a: seq<nat>, rs: seq<(nat, nat)>)
    requires Increasing(a)
    ensures Increasing(InAny(a, rs))
  {
    if a != [] {
      var t := a[1..];
      assert Increasing(t);
      InAnyIncreasing(t, rs);
      var rest := InAny(t, rs);
      forall v | v in rest
        ensures a[0] < v
      {
        var j :| 0 <= j < |t| && t[j] == v;
        assert a[j + 1] == v;
      }
      if Covered(rs, a[0]) {
        IncreasingCons(a[0], rest);
      }
    }
  }

  lemma IncreasingCons(v: nat, s: seq<nat>)
    requires Increasing(s) && forall w :: w in s ==> v < w
    ensures Increasing([v] + s)
  {
    forall i, j | 0 <= i < j < |s| + 1
      ensures ([v] + s)[i] < ([v] + s)[j]
    {
      assert ([v] + s)[j] == s[j - 1] && s[j - 1] in s;
    }
  }

  // The whole solution.

  /** With every invalid ID up to ten times the largest end listed, the ranges select exactly the invalid IDs they hold. */
  lemma SelectedExactly(cands: seq<nat>, rs: seq<(nat, nat)>)
    requires forall v: nat :: v in cands <==> Invalid(v, 10 * MaxEnd(rs))
    ensures forall v: nat :: v in InAny(cands, rs) <==> Covered(rs, v) && DoubledId(v)
  {
    forall v: nat | Covered(rs, v)
      ensures v <= 10 * MaxEnd(rs)
    {
      var i :| 0 <= i < |rs| && rs[i].0 <= v <= rs[i].1;
    }
  }

  /**
   * `solve`: the sum of the invalid IDs inside the input ranges, each counted once however
   * many ranges hold it; `None` where `int()` raises.
   */
  method Solve(text: string) returns (r: Option<int>, ghost cands: seq<nat>)
    ensures r.None? <==> Ranges(Tokens(Pieces(text))).None?
    ensures r.Some? ==>
      var rs := Ranges(Tokens(Pieces(text))).value;
      (forall v: nat :: v in cands <==> Invalid(v, 10 * MaxEnd(rs)))
      && Increasing(InAny(cands, rs))
      && (forall v: nat :: v in InAny(cands, rs) <==> Covered(rs, v) && DoubledId(v))
      && r.value == Sum(InAny(cands, rs))
  {
    var ranges, maxLimit := ReadRanges(Pieces(text));
    if ranges.None? {
      return None, [];
    }
    var rs := ranges.value;
    var merged := MergeRanges(rs);
    var candidates := GenerateInvalidIds(maxLimit * 10);
    var total := SumRanges(candidates, merged);
    SeparatedSums(candidates, merged);
    SameCover(candidates, merged, rs);
    InAnyIncreasing(candidates, rs);
    SelectedExactly(candidates, rs);
    cands := candidates;
    r := Some(total);
  }

  // The optional hex dump of the merged ranges.

  /** One line of the hex dump: 16 lower-case digits of the end, then 16 of the start. */
  function RangeLine(r: (nat, nat)): string
  {
    Format(r.1, 16, false) + Format(r.0, 16, false)
  }

  /** A range whose bounds fit in 64 bits gives a 32-digit line holding `end * 2^64 + start`. */
  lemma RangeLineParses(r: (nat, nat))
    requires r.0 < Pow16(16) && r.1 < Pow16(16)
    ensures |RangeLine(r)| == 32
    ensures ParseHex(RangeLine(r)) == Some(r.1 * Pow16(16) + r.0)
  {
    PairParses(r.1, r.0, 16, false);
  }
}
