/**
 * The Day 1 command ROM: each command becomes a 17-bit item (the direction bit above a
 * 16-bit distance), and sixteen items are packed into one 272-bit word, item 0 in the
 * lowest bits, written as 68 upper-case hex digits. A final partial word is also written.
 */
module Day1Hex {
  import opened Common
  import opened PyText
  import opened Bits
  import opened HexText
  import opened Day1

  const VectorWidth: nat := 16
  const ItemBits: nat := 17

  /** `(dir_bit << 16) | distance`, the direction bit set for `R` only. */
  function Item(r: Rotation): nat
    requires r.dist >= 0
  {
    Or(Shl(if r.dir == 'R' then 1 else 0, 16), r.dist)
  }

  /**
   * The item of one line, or `None` when the distance is not an integer or is negative
   * (Python's `|` on a negative number is not modelled).
   */
  function LineItem(line: string): Option<nat>
    requires line != []
  {
    match ParseRotation(line)
    case Some(r) => if r.dist >= 0 then Some(Item(r)) else None
    case None => None
  }

  /** A distance below `2^16` leaves the direction bit alone: both come back out. */
  lemma ItemFields(r: Rotation)
    requires 0 <= r.dist < Pow2(16)
    ensures Item(r) % Pow2(16) == r.dist
    ensures Item(r) / Pow2(16) == if r.dir == 'R' then 1 else 0
    ensures Item(r) < Pow2(ItemBits)
  {
    var b := if r.dir == 'R' then 1 else 0;
    OrComm(Shl(b, 16), r.dist);
    OrShifted(r.dist, b, 16);
    Fields(r.dist, b, 16);
    FieldsBound(r.dist, b, 16, 1);
  }

  /** `current_pack` after folding in the items with `|=`, item `j` shifted by `17 j`. */
  function Pack(items: seq<nat>): nat
  {
    if items == [] then 0
    else Or(Pack(items[..|items| - 1]), Shl(items[|items| - 1], (|items| - 1) * ItemBits))
  }

  /** The same word as a sum, when every item fits in 17 bits. */
  function Spread(items: seq<nat>): nat
  {
    if items == [] then 0
    else Spread(items[..|items| - 1]) + Shl(items[|items| - 1], (|items| - 1) * ItemBits)
  }

  /** Items below `2^17` never overlap, so the `|=` fold is the sum and fits in `17 n` bits. */
  lemma {:induction false} PackIsSpread(items: seq<nat>)
    requires forall j | 0 <= j < |items| :: items[j] < Pow2(ItemBits)
    ensures Pack(items) == Spread(items)
    ensures Spread(items) < Pow2(|items| * ItemBits)
  {
    if items != [] {
      var p := items[..|items| - 1];
      var n := |items| - 1;
      PackIsSpread(p);
      OrShifted(Spread(p), items[n], n * ItemBits);
      FieldsBound(Spread(p), items[n], n * ItemBits, ItemBits);
    }
  }

  /** Item `j` occupies bits `17 j .. 17 j + 16`: it comes back out by shift and mask. */
  lemma {:induction false} ItemAt(items: seq<nat>, j: nat)
    requires forall k | 0 <= k < |items| :: items[k] < Pow2(ItemBits)
    requires j < |items|
    ensures (Pack(items) / Pow2(j * ItemBits)) % Pow2(ItemBits) == items[j]
  {
    var p := items[..|items| - 1];
    var n := |items| - 1;
    PackIsSpread(items);
    PackIsSpread(p);
    if j == n {
      Fields(Spread(p), items[n], n * ItemBits);
      DivModUnique(items[n], Pow2(ItemBits), 0, items[n]);
    } else {
      ItemAt(p, j);
      LowFieldUnchanged(Spread(p), items[n], j * ItemBits, ItemBits, n * ItemBits);
    }
  }

  /** The `w` bits at `lo` of `a + b * 2^k` are those of `a` when they lie below `k`. */
  lemma LowFieldUnchanged(a: nat, b: nat, lo: nat, w: nat, k: nat)
    requires a < Pow2(k) && lo + w <= k
    ensures ((a + Shl(b, k)) / Pow2(lo)) % Pow2(w) == (a / Pow2(lo)) % Pow2(w)
  {
    ShlSplit(b, lo, w, k);
    ShiftedField(a, Shl(b, k), b * Pow2(k - lo - w), Pow2(lo), Pow2(w));
  }

  /** `b << k` is `b << (k - lo - w)`, shifted by `w` and then by `lo`. */
  lemma ShlSplit(b: nat, lo: nat, w: nat, k: nat)
    requires lo + w <= k
    ensures b * Pow2(k - lo - w) >= 0
    ensures Shl(b, k) == ((b * Pow2(k - lo - w)) * Pow2(w)) * Pow2(lo)
  {
    var p, q, m := Pow2(lo), Pow2(w), Pow2(k - lo - w);
    assert Pow2(k) == p * (q * m) by {
      Pow2Sum(lo, k - lo, k);
      Pow2Sum(w, k - lo - w, k - lo);
    }
    MulRearrange(b, p, q, m);
  }

  lemma ShiftedField(a: nat, x: nat, c: nat, p: nat, q: nat)
    requires p > 0 && q > 0 && x == (c * q) * p
    ensures ((a + x) / p) % q == (a / p) % q
  {
    DivModOfSum(a, c * q, p);
    DivModOfSum(a / p, c, q);
  }

  lemma MulRearrange(b: nat, p: nat, q: nat, m: nat)
    ensures b * (p * (q * m)) == ((b * m) * q) * p
  {
  }

  /** Sixteen items per word; the last word holds what is left. */
  function Words(items: seq<nat>): (ws: seq<nat>)
    decreases |items|
  {
    if items == [] then []
    else if |items| <= VectorWidth then [Pack(items)]
    else [Pack(items[..VectorWidth])] + Words(items[VectorWidth..])
  }

  /** One word per sixteen items, rounding up. */
  lemma {:induction false} WordsLength(items: seq<nat>)
    ensures |Words(items)| == (|items| + VectorWidth - 1) / VectorWidth
    decreases |items|
  {
    if |items| > VectorWidth {
      WordsLength(items[VectorWidth..]);
    }
  }

  /** Word `k` packs items `16k .. 16k + 15` (fewer in the last word). */
  lemma {:induction false} WordsAt(items: seq<nat>, k: nat)
    requires k < |Words(items)|
    ensures 16 * k < |items|
    ensures Words(items)[k] == Pack(items[16 * k .. Min(16 * k + 16, |items|)])
    decreases |items|
  {
    if |items| <= VectorWidth {
      assert items[0..|items|] == items;
    } else if k > 0 {
      var rest := items[VectorWidth..];
      WordsAt(rest, k - 1);
      var hi := Min(16 * k + 16, |items|);
      assert Min(16 * (k - 1) + 16, |rest|) == hi - 16;
      assert 16 * (k - 1) + 16 == 16 * k;
      SliceShift(items, 16, 16 * (k - 1), hi - 16);
    } else {
      assert items[0..16] == items[..VectorWidth];
    }
  }

  lemma SliceShift(s: seq<nat>, d: nat, a: nat, b: nat)
    requires d <= |s| && a <= b <= |s| - d
    ensures s[d..][a..b] == s[a + d..b + d]
  {
    assert forall j | 0 <= j < b - a :: s[d..][a..b][j] == s[a + d..b + d][j];
  }

  /** The items of the commands, or `None` when a line does not give one. */
  function Items(lines: seq<string>): (r: Option<seq<nat>>)
    requires forall k | 0 <= k < |lines| :: lines[k] != []
    ensures r.Some? ==> |r.value| == |lines|
    ensures r.Some? ==> forall k | 0 <= k < |lines| :: LineItem(lines[k]) == Some(r.value[k])
  {
    if lines == [] then Some([])
    else
      var p := lines[..|lines| - 1];
      match (Items(p), LineItem(lines[|lines| - 1]))
      case (Some(s), Some(x)) =>
        ItemsSnoc(lines, s, x);
        Some(s + [x])
      case _ => None
  }

  lemma ItemsSnoc(lines: seq<string>, s: seq<nat>, x: nat)
    requires lines != [] && |s| == |lines| - 1
    requires forall k | 0 <= k < |s| :: lines[k] != [] && LineItem(lines[..|lines| - 1][k]) == Some(s[k])
    requires lines[|lines| - 1] != [] && LineItem(lines[|lines| - 1]) == Some(x)
    ensures forall k | 0 <= k < |lines| :: lines[k] != [] && LineItem(lines[k]) == Some((s + [x])[k])
  {
    forall k | 0 <= k < |lines|
      ensures lines[k] != [] && LineItem(lines[k]) == Some((s + [x])[k])
    {
      if k < |s| {
        assert lines[..|lines| - 1][k] == lines[k];
      }
    }
  }

  lemma {:induction false} ItemsStop(lines: seq<string>, i: nat)
    requires forall k | 0 <= k < |lines| :: lines[k] != []
    requires i <= |lines| && Items(lines[..i]).None?
    ensures Items(lines).None?
  {
    if i < |lines| {
      assert lines[..|lines| - 1][..i] == lines[..i];
      ItemsStop(lines[..|lines| - 1], i);
    } else {
      assert lines[..i] == lines;
    }
  }

  /** A full chunk at `s` is the next word. */
  lemma WordsFrom(items: seq<nat>, s: nat)
    requires s + VectorWidth <= |items|
    ensures Words(items[s..]) == [Pack(items[s..s + VectorWidth])] + Words(items[s + VectorWidth..])
  {
    var rest := items[s..];
    assert rest[..VectorWidth] == items[s..s + VectorWidth];
    assert rest[VectorWidth..] == items[s + VectorWidth..];
    if |rest| == VectorWidth {
      assert rest == items[s..s + VectorWidth];
      assert items[s + VectorWidth..] == [];
    }
  }

  /** A full word closed: the words so far, with it, still lead to the words of all items. */
  lemma FlushWord(items: seq<nat>, packed: seq<nat>, s: nat)
    requires s + VectorWidth <= |items|
    requires packed + Words(items[s..]) == Words(items)
    ensures (packed + [Pack(items[s..s + VectorWidth])]) + Words(items[s + VectorWidth..]) == Words(items)
  {
    WordsFrom(items, s);
    AppendAssoc(packed, [Pack(items[s..s + VectorWidth])], Words(items[s + VectorWidth..]));
  }

  /** `count * 17`: where item number `count` of a word starts. */
  function Offset(count: nat): nat
  {
    count * ItemBits
  }

  /** Folding one more item into the open word. */
  lemma PackStep(items: seq<nat>, s: nat, i: nat, count: nat)
    requires s <= i < |items| && count == i - s
    ensures Pack(items[s..i + 1]) == Or(Pack(items[s..i]), Shl(items[i], Offset(count)))
  {
    assert items[s..i + 1][..i - s] == items[s..i];
  }

  /**
   * The packing loop: `current_pack |= val << (count * 17)`, flushed after sixteen items,
   * and a trailing partial word flushed at the end.
   */
  method PackWords(items: seq<nat>) returns (packed: seq<nat>)
    ensures packed == Words(items)
  {
    packed := [];
    var current: nat := 0;
    var count: nat := 0;
    ghost var start: nat := 0;
    for i := 0 to |items|
      invariant count < VectorWidth && start == 16 * |packed| && i == start + count
      invariant current == Pack(items[start..i])
      invariant packed + Words(items[start..]) == Words(items)
    {
      PackStep(items, start, i, count);
      current := Or(current, Shl(items[i], Offset(count)));
      count := count + 1;
      if count == VectorWidth {
        FlushWord(items, packed, start);
        packed := packed + [current];
        start := start + VectorWidth;
        current := 0;
        count := 0;
        assert items[start..i + 1] == [];
      }
    }
    if count > 0 {
      assert items[start..] == items[start..|items|];
      packed := packed + [current];
    } else {
      assert items[start..] == [];
    }
  }

  /** The reading loop of `parse_input`: one item per line, `None` at the first bad line. */
  method ReadItems(lines: seq<string>) returns (r: Option<seq<nat>>)
    requires forall k | 0 <= k < |lines| :: lines[k] != []
    ensures r == Items(lines)
  {
    var items: seq<nat> := [];
    for i := 0 to |lines|
      invariant Items(lines[..i]) == Some(items)
    {
      assert lines[..i + 1][..i] == lines[..i];
      var item := LineItem(lines[i]);
      if item.None? {
        ItemsStop(lines, i + 1);
        return None;
      }
      items := items + [item.value];
    }
    assert lines[..|lines|] == lines;
    return Some(items);
  }

  /** The writing loop: each word as 68 upper-case hex digits. */
  method WriteWords(words: seq<nat>) returns (out: seq<string>)
    ensures out == HexWords(words)
  {
    out := [];
    for k := 0 to |words|
      invariant |out| == k && forall j | 0 <= j < k :: out[j] == Format(words[j], 68, true)
    {
      out := out + [Format(words[k], 68, true)];
    }
  }

  /**
   * `parse_input`: one word per sixteen commands of the stripped non-blank lines, each
   * written as 68 hex digits; `None` when a line does not give an item.
   */
  method ParseInput(text: string) returns (hex: Option<seq<string>>)
    ensures Items(StrippedLines(text)).None? ==> hex.None?
    ensures Items(StrippedLines(text)).Some? ==>
      hex == Some(HexWords(Words(Items(StrippedLines(text)).value)))
  {
    var items := ReadItems(StrippedLines(text));
    if items.None? {
      return None;
    }
    var words := PackWords(items.value);
    var out := WriteWords(words);
    return Some(out);
  }

  /** `f"{val:068X}"` for each word. */
  function HexWords(ws: seq<nat>): (hs: seq<string>)
    ensures |hs| == |ws|
  {
    seq(|ws|, k requires 0 <= k < |ws| => Format(ws[k], 68, true))
  }

  /**
   * When every item fits in 17 bits, each word fits in 272 bits, is printed in exactly
   * 68 digits and reads back whole.
   */
  lemma WordLinesExact(items: seq<nat>, k: nat)
    requires forall j | 0 <= j < |items| :: items[j] < Pow2(ItemBits)
    requires k < |Words(items)|
    ensures |HexWords(Words(items))[k]| == 68
    ensures ParseHex(HexWords(Words(items))[k]) == Some(Words(items)[k])
  {
    WordsAt(items, k);
    var chunk := items[16 * k .. Min(16 * k + 16, |items|)];
    PackIsSpread(chunk);
    Pow2Monotone(|chunk| * ItemBits, 272);
    Pow16IsPow2(68);
    FormatRoundTrip(Words(items)[k], 68, true);
  }
}
