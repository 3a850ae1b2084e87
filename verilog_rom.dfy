/**
 * The Verilog ROM text the generators write: the address bus width taken from Python's
 * `bin`, and the `initial` block that loads `rom_data` either in chunks or one word per
 * assignment.
 */
module VerilogRom {
  import opened Common
  import opened Bits

  /** The digits of `bin(n)` after the `0b` prefix: no leading zero except for 0 itself. */
  function BinDigits(n: nat): (s: string)
    ensures |s| >= 1
    ensures forall i | 0 <= i < |s| :: s[i] == '0' || s[i] == '1'
  {
    if n < 2 then [if n == 0 then '0' else '1']
    else BinDigits(n / 2) + [if n % 2 == 0 then '0' else '1']
  }

  /** Python's `bin(n)`: `0b` then the binary digits, a minus sign first when negative. */
  function Bin(n: int): string
  {
    if n < 0 then "-0b" + BinDigits(-n) else "0b" + BinDigits(n)
  }

  /** The value of a string of binary digits. */
  function BinValue(s: string): nat
  {
    if s == [] then 0 else 2 * BinValue(s[..|s| - 1]) + (if s[|s| - 1] == '1' then 1 else 0)
  }

  /** Python's `int.bit_length()` for a non-negative integer. */
  function BitLength(n: nat): nat
  {
    if n == 0 then 0 else 1 + BitLength(n / 2)
  }

  /** `len(bin(depth-1))-3`, the top index of the address bus `[top:0]`. */
  function AddrTop(depth: int): int
  {
    |Bin(depth - 1)| - 3
  }

  /** The binary digits read back give the number. */
  lemma {:induction false} BinDigitsValue(n: nat)
    ensures BinValue(BinDigits(n)) == n
  {
    if n >= 2 {
      var s := BinDigits(n);
      assert s[..|s| - 1] == BinDigits(n / 2);
      BinDigitsValue(n / 2);
    }
  }

  /** A positive number has `bit_length` digits, the top one set. */
  lemma {:induction false} BinDigitsLength(n: nat)
    requires n >= 1
    ensures |BinDigits(n)| == BitLength(n)
    ensures Pow2(BitLength(n) - 1) <= n < Pow2(BitLength(n))
  {
    if n >= 2 {
      BinDigitsLength(n / 2);
    }
  }

  /**
   * For two or more entries the bus `[top:0]` is exactly wide enough: `top` is
   * `bit_length(depth-1) - 1`, so `top + 1` bits reach the last address `depth-1` and
   * `top` bits would not.
   */
  lemma AddrTopFits(depth: int)
    requires depth >= 2
    ensures AddrTop(depth) == BitLength(depth - 1) - 1
    ensures Pow2(AddrTop(depth)) <= depth - 1 < Pow2(AddrTop(depth) + 1)
  {
    BinDigitsLength(depth - 1);
  }

  /** One entry gives a one-bit bus `[0:0]`; no entry gives `[1:0]`, from `bin(-1)`. */
  lemma AddrTopSmall(depth: int)
    requires depth <= 1 && depth >= 0
    ensures AddrTop(depth) == 1 - depth
  {
  }

  // ---------------------------------------------------------------------------------------
  // The `initial` block.

  /** `memory[lo:hi] <= {entries};` */
  datatype Chunk = Chunk(lo: nat, hi: nat, entries: seq<nat>)

  /** One chunk carries its slice of `rom`: at most `group` words, exactly `group` unless last. */
  predicate ChunkFits(c: Chunk, rom: seq<nat>, group: nat)
  {
    c.lo <= c.hi < |rom| && c.entries == rom[c.lo..c.hi + 1] && c.hi - c.lo < group
    && (c.hi < |rom| - 1 ==> c.hi - c.lo == group - 1)
  }

  /** Each chunk starts right after the one before it. */
  predicate Contiguous(cs: seq<Chunk>)
  {
    forall k | 0 <= k < |cs| - 1 :: cs[k + 1].lo == cs[k].hi + 1
  }

  /**
   * The chunks load `rom`: consecutive, starting at 0 and ending at the last index, each
   * carrying its slice.
   */
  predicate Chunked(cs: seq<Chunk>, rom: seq<nat>, group: nat)
  {
    (|cs| == 0 <==> |rom| == 0)
    && (forall k | 0 <= k < |cs| :: ChunkFits(cs[k], rom, group))
    && (|cs| > 0 ==> cs[0].lo == 0 && cs[|cs| - 1].hi == |rom| - 1)
    && Contiguous(cs)
  }

  lemma AppendContiguous(cs: seq<Chunk>, c: Chunk)
    requires Contiguous(cs) && (|cs| > 0 ==> c.lo == cs[|cs| - 1].hi + 1)
    ensures Contiguous(cs + [c])
  {
  }

  /**
   * `for i in range(0, depth, group)`: the chunk `rom_data[i:min(i+group, depth)]` at
   * `memory[i:min(i+group-1, depth-1)]`.
   */
  method ChunkedInit(rom: seq<nat>, group: nat) returns (cs: seq<Chunk>)
    requires group >= 1
    ensures Chunked(cs, rom, group)
  {
    var depth := |rom|;
    cs := [];
    var i := 0;
    while i < depth
      invariant 0 <= i <= depth
      invariant (|cs| == 0 <==> i == 0) && (|cs| > 0 ==> cs[0].lo == 0 && cs[|cs| - 1].hi == i - 1)
      invariant forall k | 0 <= k < |cs| :: ChunkFits(cs[k], rom, group) && cs[k].hi < i
      invariant Contiguous(cs)
    {
      var hi := Min(i + group - 1, depth - 1);
      var c := Chunk(i, hi, rom[i..Min(i + group, depth)]);
      assert ChunkFits(c, rom, group);
      AppendContiguous(cs, c);
      cs := cs + [c];
      if hi == depth - 1 {
        return;
      }
      i := i + group;
    }
  }

  /** Chunks that follow one another never overlap. */
  lemma {:induction false} ChunksAscend(cs: seq<Chunk>, rom: seq<nat>, group: nat, k1: nat, k2: nat)
    requires Chunked(cs, rom, group) && k1 < k2 < |cs|
    ensures cs[k1].hi < cs[k2].lo
    decreases k2 - k1
  {
    if k1 + 1 < k2 {
      ChunksAscend(cs, rom, group, k1 + 1, k2);
    }
  }

  /** The chunk holding index `j`, searching from chunk `k` on. */
  lemma {:induction false} ChunkFrom(cs: seq<Chunk>, rom: seq<nat>, group: nat, j: nat, k: nat)
      returns (m: nat)
    requires Chunked(cs, rom, group) && j < |rom| && k < |cs| && cs[k].lo <= j
    ensures k <= m < |cs| && cs[m].lo <= j <= cs[m].hi
    decreases |cs| - k
  {
    if j <= cs[k].hi {
      return k;
    }
    m := ChunkFrom(cs, rom, group, j, k + 1);
  }

  /** Every address is loaded by exactly one chunk, with `rom[j]`. */
  lemma ChunksCover(cs: seq<Chunk>, rom: seq<nat>, group: nat, j: nat)
    requires Chunked(cs, rom, group) && j < |rom|
    ensures exists k :: 0 <= k < |cs| && cs[k].lo <= j <= cs[k].hi && cs[k].entries[j - cs[k].lo] == rom[j]
    ensures forall k1, k2 | 0 <= k1 < |cs| && 0 <= k2 < |cs| ::
      cs[k1].lo <= j <= cs[k1].hi && cs[k2].lo <= j <= cs[k2].hi ==> k1 == k2
  {
    var m := ChunkFrom(cs, rom, group, j, 0);
    assert cs[m].entries[j - cs[m].lo] == rom[j];
    forall k1, k2 | 0 <= k1 < |cs| && 0 <= k2 < |cs| && cs[k1].lo <= j <= cs[k1].hi && cs[k2].lo <= j <= cs[k2].hi
      ensures k1 == k2
    {
      if k1 < k2 {
        ChunksAscend(cs, rom, group, k1, k2);
      } else if k2 < k1 {
        ChunksAscend(cs, rom, group, k2, k1);
      }
    }
  }

  /**
   * `memory[j] = rom_data[j];` for `j in range(i, min(i+group, depth))`, group after
   * group: one assignment per address, in address order.
   */
  method Assignments(rom: seq<nat>, group: nat) returns (a: seq<(nat, nat)>)
    requires group >= 1
    ensures |a| == |rom| && forall j | 0 <= j < |rom| :: a[j] == (j, rom[j])
  {
    var depth := |rom|;
    a := [];
    var i := 0;
    while i < depth
      invariant 0 <= i && |a| == Min(i, depth)
      invariant forall j | 0 <= j < |a| :: a[j] == (j, rom[j])
    {
      var j := i;
      while j < Min(i + group, depth)
        invariant i <= j <= Min(i + group, depth) && |a| == j
        invariant forall t | 0 <= t < |a| :: a[t] == (t, rom[t])
      {
        a := a + [(j, rom[j])];
        j := j + 1;
      }
      i := i + group;
    }
  }
}
