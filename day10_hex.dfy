/**
 * Day 10 hardware input: for every machine line a header word `LLLLNNNN` (the light count and
 * the button count, four hex digits each), then one eight-digit word per light holding that
 * light's row of the augmented matrix, bit `c` for button `c` and bit `n` for the target.
 */
module Day10Hex {
  import opened Common
  import opened Bits
  import opened HexText
  import opened PyText
  import opened Day10

  /** The bits of row `r`, least significant first: the buttons, then the target light. */
  function RowBits(buttons: seq<seq<bool>>, target: seq<bool>, r: nat): (bs: seq<bool>)
    requires ButtonsOf(buttons, |target|) && r < |target|
    ensures |bs| == |buttons| + 1
    ensures forall c :: 0 <= c < |buttons| ==> bs[c] == buttons[c][r]
    ensures bs[|buttons|] == target[r]
  {
    seq(|buttons|, c requires 0 <= c < |buttons| => buttons[c][r]) + [target[r]]
  }

  /** The `row_val |= 1 << c` loop for light `r`. */
  method RowWord(buttons: seq<seq<bool>>, target: seq<bool>, r: nat) returns (v: nat)
    requires ButtonsOf(buttons, |target|) && r < |target|
    ensures v == FromBits(RowBits(buttons, target, r))
  {
    ghost var bs := RowBits(buttons, target, r);
    v := 0;
    var c := 0;
    while c < |buttons|
      invariant 0 <= c <= |buttons| && v == FromBits(bs[..c])
    {
      FromBitsBound(bs[..c]);
      FromBitsAppend(bs[..c], bs[c]);
      assert bs[..c + 1] == bs[..c] + [bs[c]];
      if buttons[c][r] {
        OrShifted(v, 1, c);
        v := Or(v, Shl(1, c));
      }
      c := c + 1;
    }
    var n := |buttons|;
    FromBitsBound(bs[..n]);
    FromBitsAppend(bs[..n], bs[n]);
    assert bs == bs[..n] + [bs[n]];
    if target[r] {
      OrShifted(v, 1, n);
      v := Or(v, Shl(1, n));
    }
  }

  /** Bit `c` of a row word is button `c`'s toggle of the light, bit `n` its target state. */
  lemma RowWordBits(buttons: seq<seq<bool>>, target: seq<bool>, r: nat)
    requires ButtonsOf(buttons, |target|) && r < |target|
    ensures FromBits(RowBits(buttons, target, r)) < Pow2(|buttons| + 1)
    ensures forall c :: 0 <= c < |buttons| ==>
      Bit(FromBits(RowBits(buttons, target, r)), c) == if buttons[c][r] then 1 else 0
    ensures Bit(FromBits(RowBits(buttons, target, r)), |buttons|) == if target[r] then 1 else 0
  {
    var bs := RowBits(buttons, target, r);
    FromBitsBound(bs);
    forall c | 0 <= c < |buttons|
      ensures Bit(FromBits(bs), c) == if buttons[c][r] then 1 else 0
    {
      BitOfFromBits(bs, c);
    }
    BitOfFromBits(bs, |buttons|);
  }

  /** With at most 31 buttons a row word is exactly eight digits and reads back unchanged. */
  lemma RowWordFits(buttons: seq<seq<bool>>, target: seq<bool>, r: nat)
    requires ButtonsOf(buttons, |target|) && r < |target| && |buttons| + 1 <= 32
    ensures |Format(FromBits(RowBits(buttons, target, r)), 8, true)| == 8
    ensures ParseHex(Format(FromBits(RowBits(buttons, target, r)), 8, true))
         == Some(FromBits(RowBits(buttons, target, r)))
  {
    var v := FromBits(RowBits(buttons, target, r));
    FromBitsBound(RowBits(buttons, target, r));
    Pow2Monotone(|buttons| + 1, 32);
    Pow16IsPow2(8);
    FormatRoundTrip(v, 8, true);
  }

  /** `f"{L:04X}{len(buttons):04X}"` */
  function Header(len: nat, n: nat): string
  {
    Format(len, 4, true) + Format(n, 4, true)
  }

  /** Below 2^16 each, the header is one eight-digit word with `L` above the button count. */
  lemma HeaderWord(len: nat, n: nat)
    requires len < Pow2(16) && n < Pow2(16)
    ensures |Header(len, n)| == 8
    ensures ParseHex(Header(len, n)) == Some(len * Pow2(16) + n)
  {
    Pow16IsPow2(4);
    PairParses(len, n, 4, true);
  }

  /** The row words of lights `0 .. r-1`. */
  function RowWords(mc: Machine, r: nat): (ws: seq<string>)
    requires ButtonsOf(mc.buttons, |mc.target|) && r <= |mc.target|
    ensures |ws| == r
  {
    if r == 0 then []
    else RowWords(mc, r - 1) + [Format(FromBits(RowBits(mc.buttons, mc.target, r - 1)), 8, true)]
  }

  /** What one machine line writes: its header, then exactly one word per light. */
  function MachineWords(mc: Machine): (ws: seq<string>)
    requires ButtonsOf(mc.buttons, |mc.target|)
    ensures |ws| == |mc.target| + 1
  {
    [Header(|mc.target|, |mc.buttons|)] + RowWords(mc, |mc.target|)
  }

  /**
   * The words written for the lines, and whether every line was read: a line without a
   * diagram writes nothing, and a line that raises stops the script after what came before.
   */
  function Output(lines: seq<string>): (seq<string>, bool)
  {
    if lines == [] then ([], true)
    else
      var (init, ok) := Output(lines[..|lines| - 1]);
      if !ok then (init, false)
      else match ParseLine(lines[|lines| - 1])
        case NoDiagram => (init, true)
        case Raises => (init, false)
        case Parsed(mc) => (init + MachineWords(mc), true)
  }

  /** The writes of one parsed machine. */
  method EmitMachine(mc: Machine) returns (words: seq<string>)
    requires ButtonsOf(mc.buttons, |mc.target|)
    ensures words == MachineWords(mc)
  {
    words := [Header(|mc.target|, |mc.buttons|)];
    var r := 0;
    while r < |mc.target|
      invariant 0 <= r <= |mc.target|
      invariant words == [Header(|mc.target|, |mc.buttons|)] + RowWords(mc, r)
    {
      var v := RowWord(mc.buttons, mc.target, r);
      words := words + [Format(v, 8, true)];
      r := r + 1;
    }
  }

  /** `generate_hex` after the read: the words written, and `false` when a line raised. */
  method GenerateHex(text: string) returns (words: seq<string>, ok: bool)
    ensures (words, ok) == Output(StrippedLines(text))
  {
    var lines := StrippedLines(text);
    words := [];
    var k := 0;
    while k < |lines|
      invariant 0 <= k <= |lines| && Output(lines[..k]) == (words, true)
    {
      var next, lineOk := EmitLine(lines, k, words);
      if !lineOk {
        OutputStops(lines, k + 1);
        return next, false;
      }
      words := next;
      k := k + 1;
    }
    assert lines[..k] == lines;
    ok := true;
  }

  /** One turn of the line loop: the words so far, with line `k` read and written. */
  method EmitLine(lines: seq<string>, k: nat, words: seq<string>) returns (next: seq<string>, ok: bool)
    requires k < |lines| && Output(lines[..k]) == (words, true)
    ensures (next, ok) == Output(lines[..k + 1])
  {
    assert lines[..k + 1][..k] == lines[..k];
    next, ok := words, true;
    var d := Diagram(lines[k]);
    if d.Some? {
      var (diag, rest) := d.value;
      var target := seq(|diag|, i requires 0 <= i < |diag| => diag[i] == '#');
      var buttons := ReadButtons(Groups(rest), |target|);
      if buttons.None? {
        return words, false;
      }
      var more := EmitMachine(Machine(target, buttons.value));
      next := words + more;
    }
  }

  /** After a line raises, later lines write nothing. */
  lemma {:induction false} OutputStops(lines: seq<string>, k: nat)
    requires k <= |lines| && !Output(lines[..k]).1
    ensures Output(lines) == Output(lines[..k])
    decreases |lines| - k
  {
    if k < |lines| {
      assert lines[..k + 1][..k] == lines[..k];
      OutputStops(lines, k + 1);
    } else {
      assert lines[..k] == lines;
    }
  }

  /** Each machine line writes `L + 1` words, so the output length is fixed by the lines. */
  lemma {:induction false} OutputLength(lines: seq<string>)
    ensures |Output(lines).0| == WordCount(lines)
  {
    if lines != [] {
      var init := lines[..|lines| - 1];
      OutputLength(init);
      if NoneRaise(init) {
        ReadsAll(init);
      } else {
        var k :| 0 <= k < |init| && ParseLine(init[k]).Raises?;
        RaiseStops(init, k);
      }
    }
  }

  /** No line raises. */
  predicate NoneRaise(lines: seq<string>)
  {
    forall k | 0 <= k < |lines| :: !ParseLine(lines[k]).Raises?
  }

  /** When no line raises, the script reads every line. */
  lemma {:induction false} ReadsAll(lines: seq<string>)
    requires NoneRaise(lines)
    ensures Output(lines).1
  {
    if lines != [] {
      var init := lines[..|lines| - 1];
      assert forall k | 0 <= k < |init| :: init[k] == lines[k];
      ReadsAll(init);
      assert !ParseLine(lines[|lines| - 1]).Raises?;
    }
  }

  /** A line that raises stops the script before the end. */
  lemma {:induction false} RaiseStops(lines: seq<string>, k: nat)
    requires k < |lines| && ParseLine(lines[k]).Raises?
    ensures !Output(lines).1
  {
    var init := lines[..|lines| - 1];
    if k < |init| {
      assert init[k] == lines[k];
      RaiseStops(init, k);
    }
  }

  /** The number of words the lines write: `L + 1` per machine up to the first line that raises. */
  function WordCount(lines: seq<string>): nat
  {
    if lines == [] then 0
    else
      var init := lines[..|lines| - 1];
      if !NoneRaise(init) then WordCount(init)
      else match ParseLine(lines[|lines| - 1])
        case Parsed(mc) => WordCount(init) + |mc.target| + 1
        case _ => WordCount(init)
  }
}
