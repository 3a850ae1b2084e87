/**
 * The Day 4 ROM generators: one bit per roll in row-major order (1 when the roll is
 * accessible), written as a hex file or as a Verilog ROM whose `initial` block loads the
 * bits in chunks of 10 or one address at a time.
 */
module Day4Rom {
  import opened Common
  import opened PyText
  import opened HexText
  import opened RollGrid
  import opened VerilogRom

  /** Words per `memory[lo:hi] <= {...}` line, and per group of single assignments. */
  const Group: nat := 10

  /** `[list(line.strip()) for line in f.readlines()]` */
  function FileGrid(text: string): (g: Grid)
  {
    var ls := ReadLines(text);
    seq(|ls|, k requires 0 <= k < |ls| => Strip(ls[k]))
  }

  /** The `k`-th bit of `rom_data` is 1 exactly for a reading with fewer than 4 neighbours. */
  lemma {:induction false} RomBitsAt(s: seq<Reading>, k: nat)
    requires k < |s|
    ensures RomBits(s)[k] == if s[k].count < 4 then 1 else 0
  {
    if k < |s| - 1 {
      RomBitsAt(s[..|s| - 1], k);
    }
  }

  /**
   * `rom_data` has one entry per roll, in row-major order, and each entry is 1 exactly when
   * that roll has fewer than 4 neighbouring rolls; its sum is the number of accessible rolls.
   */
  lemma RomEntries(g: Grid, k: nat)
    requires WellFormed(g) && k < RollCount(g)
    ensures IsRoll(g, Rolls(g)[k].row, Rolls(g)[k].col)
    ensures RomBits(Rolls(g))[k] == 1 <==> Accessible(g, Rolls(g)[k].row, Rolls(g)[k].col)
    ensures RomBits(Rolls(g))[k] <= 1
    ensures RowMajor(Rolls(g))
    ensures Sum(RomBits(Rolls(g))) == |Found(g)|
  {
    var x := Rolls(g)[k];
    CensusMembers(g, |g|, x);
    RomBitsAt(Rolls(g), k);
    CensusOrdered(g, |g|);
    RomBitsSum(Rolls(g));
  }

  /** Every roll of the grid has its entry. */
  lemma EveryRollHasEntry(g: Grid, r: nat, c: nat)
    requires WellFormed(g) && IsRoll(g, r, c)
    ensures Reading(r, c, Neighbours(g, r, c)) in Rolls(g)
  {
    CensusMembers(g, |g|, Reading(r, c, Neighbours(g, r, c)));
  }

  /**
   * `generate_neighbor_counts`: `rom_data` and its sum; `None` when a row is shorter than
   * the first (IndexError).
   */
  method GenerateNeighbourCounts(text: string) returns (r: Option<(seq<nat>, nat)>)
    ensures r.None? <==> !WellFormed(FileGrid(text))
    ensures r.Some? ==>
      r.value.0 == RomBits(Rolls(FileGrid(text))) && r.value.1 == |Found(FileGrid(text))|
  {
    var g := FileGrid(text);
    if !WellFormed(g) {
      return None;
    }
    var _, _, rom := Scan(g);
    RomBitsSum(Rolls(g));
    return Some((rom, Sum(rom)));
  }

  /** `f"{val:08x}\n"` for each entry. */
  function RomHex(rom: seq<nat>): (lines: seq<string>)
    ensures |lines| == |rom|
  {
    seq(|rom|, k requires 0 <= k < |rom| => Format(rom[k], 8, false))
  }

  /** Each hex line reads back as its entry, and a 0/1 entry fills exactly 8 digits. */
  lemma RomHexParses(rom: seq<nat>, k: nat)
    requires k < |rom|
    ensures ParseHex(RomHex(rom)[k]) == Some(rom[k])
    ensures rom[k] <= 1 ==> |RomHex(rom)[k]| == 8
  {
    FormatParses(rom[k], 8, false);
  }

  /** The header numbers: `DEPTH`, the `Sum:` comment and the address bus top index. */
  datatype Header = Header(depth: nat, sum: int, addrTop: int)

  /** The `rom_data` loop, as both Verilog generators run it. */
  method RomData(text: string) returns (r: Option<seq<nat>>)
    ensures r.None? <==> !WellFormed(FileGrid(text))
    ensures r.Some? ==> r.value == RomBits(Rolls(FileGrid(text)))
  {
    var g := FileGrid(text);
    if !WellFormed(g) {
      return None;
    }
    var _, _, rom := Scan(g);
    return Some(rom);
  }

  /** The header both generators write for `rom_data`. */
  function RomHeader(rom: seq<nat>): (h: Header)
  {
    Header(|rom|, Sum(rom), AddrTop(|rom|))
  }

  /** The header counts the rolls and the accessible ones. */
  lemma HeaderCounts(g: Grid)
    requires WellFormed(g)
    ensures RomHeader(RomBits(Rolls(g))).depth == RollCount(g)
    ensures RomHeader(RomBits(Rolls(g))).sum == |Found(g)|
  {
    RomBitsSum(Rolls(g));
  }

  /** `generate_rom_verilog`: the header and the chunks of 10 loading `rom_data`. */
  method GenerateRomVerilog(text: string) returns (r: Option<(Header, seq<Chunk>)>)
    ensures r.None? <==> !WellFormed(FileGrid(text))
    ensures r.Some? ==>
      var rom := RomBits(Rolls(FileGrid(text)));
      r.value.0 == RomHeader(rom) && Chunked(r.value.1, rom, Group)
  {
    var rom := RomData(text);
    if rom.None? {
      return None;
    }
    var chunks := ChunkedInit(rom.value, Group);
    return Some((RomHeader(rom.value), chunks));
  }

  /** `generate_rom_verilog_simple`: the header and one assignment per address. */
  method GenerateRomVerilogSimple(text: string) returns (r: Option<(Header, seq<(nat, nat)>)>)
    ensures r.None? <==> !WellFormed(FileGrid(text))
    ensures r.Some? ==>
      var rom := RomBits(Rolls(FileGrid(text)));
      r.value.0 == RomHeader(rom)
      && |r.value.1| == |rom| && forall j | 0 <= j < |rom| :: r.value.1[j] == (j, rom[j])
  {
    var rom := RomData(text);
    if rom.None? {
      return None;
    }
    var assigns := Assignments(rom.value, Group);
    return Some((RomHeader(rom.value), assigns));
  }
}
