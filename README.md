# Advent of Code 2025 solvers and hardware input generators, in Dafny

This project models the software side of an Advent of Code 2025 repository. Each puzzle there
has a Python reference solver. Most puzzles also have Python scripts that turn the puzzle input
into the hex images, ROM contents and parameter headers that the FPGA designs load. The model
covers the solvers and generators of days 1 to 12:

- the dial of day 1 and its 17-bit packed command words;
- the doubled-number IDs of day 2, with the range merge, bisection sums, per-digit-count
  contribution ROM and packed division ROM;
- the best two-digit joltage of day 3, as the quadratic search, the streaming scan and the
  hardware's halving tree, and the 640-bit line words;
- the paper-roll grid of day 4, with the first count, the peeling to a fixed point, the
  neighbour ROMs and the hex round trip;
- the fresh-ingredient ranges of day 5 and their ROM;
- the column-split worksheet of day 6 and its column-major image;
- the tachyon beams of day 7 and their byte image;
- the union-find circuit of day 8 and its edge words;
- the largest rectangle of day 9;
- the GF(2) elimination and minimum-weight search of day 10 and its row words;
- the memoised path count of day 11 and its topologically ordered node records;
- the polyomino packing search of day 12.

The model works on the text the scripts read. A Python `int`, `str.split`, `str.strip` and
similar built-ins are written out in `pytext.dfy`, and fixed-width hex formatting in
`hexfmt.dfy`. Every file a script writes is modelled as the sequence of lines it writes. Where
a script raises, the model returns an error value. Objects and lists that the source updates in
place are modelled imperatively: the union-find of day 8 is a class over arrays, and the
GF(2) matrix, the column mask and the grids are arrays or reassigned sequences inside methods
with loop invariants. Each such method is proved against a specification function. The
properties promised by the source's comments, docstrings and asserts are lemmas about those
functions.

## Model

| member | source | states |
|---|---|---|
| Day1.Turn | day1/sw/solve.py:36-40 | the dial after a command stays in `0..99`, turning left for `L` and right for any other letter |
| Day1.Run | day1/sw/solve.py:13-43 | the dial after all commands stays in `0..99`, or the run fails where `int()` raises |
| Day1.ModStep | day1/sw/solve.py:28-31 | stepping from an already reduced position gives the same remainder as stepping from the unreduced one |
| Day1.Walk | day1/sw/solve.py:24-34 | the click loop ends where the whole offset lands and counts exactly the clicks that land on 0 |
| Day1.Command | day1/sw/solve.py:18-43 | one loop body applies one command to the dial and both counters |
| Day1.Solve | day1/sw/solve.py:1-45 | both counts of the whole run from 50 over the stripped non-blank lines, or failure where a distance is not an integer |
| Day1.RunStops | day1/sw/solve.py:19 | one unreadable line makes the whole run fail |
| Day1.Periodic | day1/sw/solve.py:22 | a left or right walk repeats its positions every 100 clicks |
| Day1.FirstZero | day1/sw/solve.py:27-34 | the first click that lands on 0 is among the first 100 |
| Day1.FirstTurn | day1/sw/solve.py:27-34 | within the first 100 clicks exactly one lands on 0 |
| Day1.Window | day1/sw/solve.py:22 | every 100 further clicks land on 0 exactly once more |
| Day1.FullTurns | day1/sw/solve.py:21-34 | `d // 100` plus the zeros of the remaining `d % 100` clicks is the number of zeros of all `d` clicks |
| Day1.CommandCountsEveryClick | day1/sw/solve.py:21-40 | for a left or right command, part 2 grows by the zeros of every click, and the shortened walk ends where the whole turn does |
| Day1Hex.ItemFields | day1/hw/scripts/gen_hex.py:20-21 | a distance below `2^16` and the direction bit both read back from the 17-bit item |
| Day1Hex.PackIsSpread | day1/hw/scripts/gen_hex.py:24 | items below `2^17` never overlap, so the or-assignment fold is their weighted sum and fits in `17n` bits |
| Day1Hex.ItemAt | day1/hw/scripts/gen_hex.py:23-24 | item `j` reads back from bits `17j..17j+16`, item 0 lowest |
| Day1Hex.WordsLength | day1/hw/scripts/gen_hex.py:27-34 | one word per sixteen items, rounding up |
| Day1Hex.WordsAt | day1/hw/scripts/gen_hex.py:23-34 | word `k` packs items `16k..16k+15`, fewer in the last word |
| Day1Hex.Items | day1/hw/scripts/gen_hex.py:16-21 | one item per line, each the item of its command |
| Day1Hex.ItemsStop | day1/hw/scripts/gen_hex.py:18 | one unreadable line makes reading fail |
| Day1Hex.PackWords | day1/hw/scripts/gen_hex.py:12-34 | the packing loop, flushing every sixteen items and once more for a partial word, yields exactly the words of the items |
| Day1Hex.ReadItems | day1/hw/scripts/gen_hex.py:16-21 | the reading loop yields the items, or fails at the first bad line |
| Day1Hex.WriteWords | day1/hw/scripts/gen_hex.py:36-39 | each word written as 68 upper-case hex digits, in order |
| Day1Hex.ParseInput | day1/hw/scripts/gen_hex.py:8-39 | the written lines are the hex of one word per sixteen commands, or nothing when a line does not read |
| Day1Hex.HexWords | day1/hw/scripts/gen_hex.py:37-39 | one line per word |
| Day1Hex.WordLinesExact | day1/hw/scripts/gen_hex.py:38-39 | with every item below `2^17` each word fits 272 bits, is exactly 68 digits and parses back to the word |
| Day2.DoubledRange | day2/py/solution.py:9-16 | a `k`-digit number written twice has exactly `2k` digits, which is why the smallest one bounds each `k` |
| Day2.AppendDoubled | day2/py/solution.py:18-22 | the inner loop keeps the list ascending and adds exactly the `k`-digit doubled numbers up to the bound |
| Day2.GenerateInvalidIds | day2/py/solution.py:4-25 | the result is strictly ascending and holds exactly the doubled numbers with `k < 20` that are at most `max_val` |
| Day2.SortIncreasing | day2/py/solution.py:24 | sorting a list that is already strictly ascending leaves it unchanged |
| Day2.Tokens | day2/py/solution.py:34-38 | one token per comma-separated piece |
| Day2.TokensAt | day2/py/solution.py:34-39 | the token of piece `i` is what that piece alone yields |
| Day2.RangesFail | day2/py/solution.py:39 | reading fails exactly when some piece has a part that `int()` rejects |
| Day2.MaxEnd | day2/py/solution.py:41-42 | `max_limit` is at least every range end and is either 0 or one of them |
| Day2.ReadRanges | day2/py/solution.py:31-42 | the loop yields the ranges in input order and the largest end |
| Day2.CoveredSameElements | day2/py/solution.py:46 | reordering the ranges does not change which integers they cover |
| Day2.MergeRanges | day2/py/solution.py:45-56 | the merged ranges cover exactly the integers the input ranges cover, are ascending with gaps between them, and are empty only for no input |
| Day2.Fuse | day2/py/solution.py:47-56 | on ranges sorted by start, fusing overlapping or touching ones keeps the covered integers and leaves them separated |
| Day2.Within | day2/py/solution.py:84-88 | a value is kept exactly when it is in the list and inside the range |
| Day2.BisectLeft | day2/py/solution.py:84 | every element before the index is below the bound |
| Day2.BisectRight | day2/py/solution.py:86 | every element before the index is at most the bound |
| Day2.SliceWithin | day2/py/solution.py:84-88 | on an ascending list, the slice between the two bisections is exactly the elements inside the range |
| Day2.SumRanges | day2/py/solution.py:80-92 | the total is the sum, over the merged ranges, of the candidates each holds |
| Day2.SeparatedSums | day2/py/solution.py:82-92 | over separated ranges the per-range sums count every covered candidate exactly once |
| Day2.SameCover | day2/py/solution.py:58 | ranges covering the same integers select the same candidates, so summing over the merged ranges equals summing over the input ranges |
| Day2.SelectedExactly | day2/py/solution.py:77 | with every invalid ID up to ten times the largest end listed, the ranges select exactly the doubled IDs they cover |
| Day2.Solve | day2/py/solution.py:27-94 | fails exactly when reading fails; otherwise the total is the sum of the doubled IDs inside the input ranges, each counted once however many ranges hold it |
| Day2.RangeLineParses | day2/py/solution.py:66-70 | a range with 64-bit bounds gives a 32-digit line whose value is `end * 2^64 + start` |
| Day2Rom.Readings | day2/hw/precompute_results.py:27-31 | one reading per comma-separated piece |
| Day2Rom.ReadingsAt | day2/hw/precompute_results.py:28-30 | the reading of piece `i` is what that piece alone yields |
| Day2Rom.CollectInOrder | day2/hw/precompute_results.py:27-32 | collecting succeeds exactly when every piece reads, and then keeps one range per piece in order |
| Day2Rom.RangesInOrder | day2/hw/precompute_results.py:21-32 | `read_ranges` raises exactly when some piece does not read, and otherwise keeps the pieces' order |
| Day2Rom.ReadRanges | day2/hw/precompute_divisions.py:10-23 | the reading loop of both scripts yields exactly the ranges `read_ranges` defines |
| Day2Rom.RangeOfDigits | day2/hw/precompute_results.py:28-31 | a piece `a-b` of plain digits reads back as the pair of their decimal values |
| Day2Rom.XBounds | day2/hw/precompute_results.py:34-38 | the `k`-digit numbers form a non-empty interval whose top plus one is ten times its bottom |
| Day2Rom.ConstK | day2/hw/precompute_results.py:40-42 | the multiplier is at least 2, so the divisions are defined |
| Day2Rom.Quot | day2/hw/precompute_results.py:53-56 | Python's floor division by a positive divisor, pinned by `q*c <= n < q*c + c` |
| Day2Rom.FloorDiv | day2/hw/precompute_results.py:55-56 | `x*c <= n` exactly when `x <= n // c` |
| Day2Rom.CeilDiv | day2/hw/precompute_results.py:52-53 | `n <= x*c` exactly when `(n + c - 1) // c <= x` |
| Day2Rom.XWindow | day2/hw/precompute_results.py:49-60 | the clipped bounds hold exactly the `k`-digit `x` whose doubled form lies in the range |
| Day2Rom.Gauss | day2/hw/precompute_results.py:66-72 | twice the series from `lo` to `hi` is `(lo + hi) * count`, so the product is even |
| Day2Rom.HalfExact | day2/hw/precompute_results.py:72 | the `// 2` of an even product loses nothing |
| Day2Rom.SameClip | day2/hw/precompute_divisions.py:35-60 | both scripts clip alike: the contribution is the constant times the series over the interval the other script writes, or 0 when it is invalid |
| Day2Rom.ContributionIsDoubledSum | day2/hw/precompute_results.py:44-74 | the closed form equals the sum of every doubled `k`-digit number inside the range |
| Day2Rom.RowResults | day2/hw/precompute_results.py:88-89 | twelve contributions per range |
| Day2Rom.Results | day2/hw/precompute_results.py:87-89 | twelve entries per range, range-major |
| Day2Rom.ResultsAt | day2/hw/precompute_results.py:87-89 | entry `12i + k - 1` is the contribution of range `i` for half-length `k` |
| Day2Rom.HexLines | day2/hw/precompute_results.py:95-97 | one line per entry |
| Day2Rom.GenerateResults | day2/hw/precompute_results.py:76-97 | the lines are the 16-digit hex of the range-major entries; `total_check` is their sum and `valid_entries` the number of non-zero ones |
| Day2Rom.XRangeExact | day2/hw/precompute_divisions.py:35-60 | a valid interval holds exactly the `x` in the window; an invalid one is `(0, 0, False)` and no `x` is in the window |
| Day2Rom.XRangeFits | day2/hw/precompute_divisions.py:65-66 | for `k <= 12` both interval ends fit their 40-bit fields |
| Day2Rom.PackFields | day2/hw/precompute_divisions.py:73-79 | the start, end and valid fields sit in bits 0-39, 40-79 and 80, each reads back, and the word is below `2^81` |
| Day2Rom.PackedLine | day2/hw/precompute_divisions.py:79-83 | each entry is 24 hex digits that parse back to the packed word |
| Day2Rom.RowWords | day2/hw/precompute_divisions.py:70-79 | twelve packed words per range |
| Day2Rom.Words | day2/hw/precompute_divisions.py:69-79 | twelve words per range, range-major |
| Day2Rom.WordsAt | day2/hw/precompute_divisions.py:69-79 | word `12i + k - 1` packs the interval of range `i` for half-length `k` |
| Day2Rom.GenerateDivisions | day2/hw/precompute_divisions.py:62-83 | the lines are the 24-digit hex of the range-major packed words |
| Day2Rom.DivisionRow | day2/hw/precompute_divisions.py:70-83 | the inner loop writes the twelve packed words of one range |
| Day3.BestPairUnique | day3/py/solution.py:4-13 | a line has at most one joltage: the largest `10*d[i] + d[j]` over `i < j`, or 0 |
| Day3.MaxDigitIsMax | day3/py/solution.py:21-31 | the largest digit of a non-empty line: every digit is at most it and some digit equals it |
| Day3.BestPairStep | day3/py/solution.py:24-31 | one more digit makes the joltage the larger of the old one and the largest earlier digit paired with the new one |
| Day3.BestIsBestPair | day3/py/solution.py:15-33 | the streaming recurrence gives the joltage of every line |
| Day3.BestOf | day3/py/solution.py:42-43 | any value that is the joltage of a line equals the streaming one |
| Day3.BestAtMost99 | day3/py/solution.py:10 | a line of decimal digits has joltage at most 99 |
| Day3.SolveLine | day3/py/solution.py:4-13 | the quadratic loop returns the joltage: at least every pair value and equal to one of them, or 0 |
| Day3.SolveLineStreaming | day3/py/solution.py:15-33 | the one-pass loop returns 0 for fewer than two digits and the joltage in every case |
| Day3.Digits | day3/py/solution.py:6 | reading succeeds exactly when every character is a decimal digit, one digit per character |
| Day3.Scores | day3/py/solution.py:38-44 | all lines read exactly when each is all digits, and then each score is that line's joltage |
| Day3.BadLineSpoils | day3/py/solution.py:17 | one non-blank line holding a non-digit character makes `solve` raise |
| Day3.CheckedLine | day3/py/solution.py:40-43 | the streaming and quadratic answers always agree, so the assertion never fires and the value is the joltage |
| Day3.Solve | day3/py/solution.py:35-45 | succeeds exactly when every non-blank line is all digits, and then returns the sum of their joltages |
| Day3.SumLines | day3/py/solution.py:37-45 | the loop skips blank lines and sums the joltage of the others, failing on the first unreadable one |
| Day3.TotalBound | day3/py/solution.py:44 | the total is at most 99 per line |
| Day3.ScoresAtMost99 | day3/py/solution.py:38-44 | every line score is at most 99 |
| Day3.DigitsOf | day3/hw/scripts/precompute_results_correct.py:56 | keeping the digit characters gives at most one decimal digit per character |
| Day3.DigitsOfAllDigits | day3/hw/scripts/precompute_results_correct.py:56 | on a line of digits only, keeping the digits agrees with the solver's reading |
| Day3.KeptLines | day3/hw/scripts/precompute_results_correct.py:51-53 | the lines kept are raw lines that are not blank |
| Day3.LineResults | day3/hw/scripts/precompute_results_correct.py:56-60 | each result is the joltage of its line's digits |
| Day3.ResultLines | day3/hw/scripts/precompute_results_correct.py:63-66 | one hex line per result |
| Day3.LineResult | day3/hw/scripts/precompute_results_correct.py:15-35 | `compute_line_score` returns the joltage of the line's digits |
| Day3.CollectResults | day3/hw/scripts/precompute_results_correct.py:50-60 | one result per non-blank raw line, in input order |
| Day3.WriteResults | day3/hw/scripts/precompute_results_correct.py:63-66 | one `{score:08x}` line per result, in order |
| Day3.PrecomputeResults | day3/hw/scripts/precompute_results_correct.py:38-73 | the hex lines and the total are those of the kept lines' joltages |
| Day3.ResultLinesParse | day3/hw/scripts/precompute_results_correct.py:66 | each result line is eight hex digits that parse back to the result |
| Day3Tree.Leaves | day3/hw/scripts/precompute_results.py:21-36 | one leaf per digit: a digit gives a valid node of score 0, a missing digit an invalid node |
| Day3Tree.Level | day3/hw/scripts/precompute_results.py:40-77 | one level halves the nodes, node `k` merging nodes `2k` and `2k + 1` |
| Day3Tree.ReduceDefined | day3/hw/scripts/precompute_results.py:39-80 | the reduction ends in one node exactly when the line length is a power of two; otherwise `nodes[i + 1]` raises |
| Day3Tree.ComputeLineScore | day3/hw/scripts/precompute_results.py:13-80 | the loop returns the tree score, defined exactly for power-of-two lengths |
| Day3Tree.Valids | day3/hw/scripts/precompute_results.py:22-36 | the digits of the valid leaves, in order |
| Day3Tree.CombineBothValid | day3/hw/scripts/precompute_results.py:56-75 | with the corrected cross pair, merging two valid nodes gives the largest digit, first digit and joltage of the joined digits |
| Day3Tree.CrossIsPair | day3/hw/scripts/precompute_results.py:62-68 | as written, the merged score is still a real pair value of the joined digits or 0 |
| Day3Tree.CombineSummarises | day3/hw/scripts/precompute_results.py:45-75 | merging two nodes summarises the concatenation of their spans, an invalid child yielding the other |
| Day3Tree.BestAppend | day3/hw/scripts/precompute_results.py:62-68 | the joltage of a concatenation is the best of either half and of the left maximum followed by the right maximum |
| Day3Tree.ReduceSummarises | day3/hw/scripts/precompute_results.py:39-77 | each level's nodes summarise the spans that tile the line |
| Day3Tree.RootSummarises | day3/hw/scripts/precompute_results.py:39-80 | the root summarises the whole line |
| Day3Tree.TreeScoreSound | day3/hw/scripts/precompute_results.py:13-80 | as written, the score is 0 or a real pair of the line, at most its joltage and at least its first pair |
| Day3Tree.TreeScoreExact | day3/hw/scripts/precompute_results.py:13-80 | the corrected tree computes the joltage of the valid digits exactly |
| Day3Tree.FirstDigitCross | day3/hw/scripts/precompute_results.py:62 | as written, `[9, 1, 1, 8]` scores 91 while its joltage, and the corrected score, is 98 |
| Day3Tree.WidthIsPowerOfTwo | day3/hw/scripts/precompute_results.py:38 | 128 leaves reduce to one node |
| Day3Tree.Fit | day3/hw/scripts/precompute_results.py:103-108 | exactly 128 leaves |
| Day3Tree.PadDigits | day3/hw/scripts/precompute_results.py:103-108 | the padding loop and the cut give the line's first 128 digits, then padding |
| Day3Tree.ValidsOfFit | day3/hw/scripts/precompute_results.py:103-108 | with missing-digit padding, the valid leaves are the line's first 128 digits |
| Day3Tree.CorrectedMatchesStreaming | day3/hw/scripts/precompute_results_correct.py:15-35 | the corrected tree agrees with the streaming joltage on every line of at most 128 digits |
| Day3Tree.ZeroPadding | day3/hw/scripts/precompute_results.py:104-105 | as written, the one-digit line `x` scores `10x` although its joltage, and the corrected score, is 0 |
| Day3Tree.OneDigitThenZeros | day3/hw/scripts/precompute_results.py:104-105 | the joltage of a digit followed by zeros is ten times that digit |
| Day3Tree.NonEmpty | day3/hw/scripts/precompute_results.py:96-98 | only empty raw lines are dropped |
| Day3Tree.TreeResults | day3/hw/scripts/precompute_results.py:95-109 | one tree score per kept line |
| Day3Tree.CorrectedResults | day3/hw/scripts/precompute_results_correct.py:50-60 | the corrected tree's results are the streaming results, line by line |
| Day3Tree.TreeLine | day3/hw/scripts/precompute_results.py:100-108 | one line's digits, padded and reduced, give its tree score |
| Day3Tree.CollectTreeResults | day3/hw/scripts/precompute_results.py:95-109 | one tree score per non-empty raw line, in input order |
| Day3Tree.PrecomputeTreeResults | day3/hw/scripts/precompute_results.py:83-121 | the hex lines and the total are those of the non-empty lines' tree scores |
| Day3Tree.RunningTotals | day3/hw/scripts/precompute_cumulative.py:96-107 | one running total per score |
| Day3Tree.RunningTotalsProperties | day3/hw/scripts/precompute_cumulative.py:96-107 | the running totals never decrease and the last one is the total of all scores |
| Day3Tree.Cumulate | day3/hw/scripts/precompute_cumulative.py:96-107 | entry `k` is the total of the first `k + 1` scores |
| Day3Tree.PrecomputeCumulative | day3/hw/scripts/precompute_cumulative.py:83-112 | one 8-digit hex running total per non-empty line |
| Day3Hex.Ones | day3/hw/scripts/gen_hex.py:30 | a line of `n` digits sets exactly `n` mask bits |
| Day3Hex.Cut | day3/hw/scripts/gen_hex.py:12-16 | a line is stripped and cut to at most 128 characters |
| Day3Hex.NibblesAppend | day3/hw/scripts/gen_hex.py:27-29 | the next digit enters at weight `16^i` |
| Day3Hex.NibblesBound | day3/hw/scripts/gen_hex.py:32 | `n` digits fit in `4n` bits |
| Day3Hex.NibbleAt | day3/hw/scripts/gen_hex.py:18-29 | digit `i` reads back from bits `4i..4i+3`, the first character least significant |
| Day3Hex.MaskBits | day3/hw/scripts/gen_hex.py:30 | mask bit `i` is set exactly for the positions that hold a digit |
| Day3Hex.WordFields | day3/hw/scripts/gen_hex.py:32-38 | the low 512 bits are the digits, the bits above are the mask, the word fits 640 bits, and its 160 hex digits parse back to it |
| Day3Hex.PackLine | day3/hw/scripts/gen_hex.py:24-37 | the or-assignment loop builds the line's word, or fails where `int(char)` raises |
| Day3Hex.PackStep | day3/hw/scripts/gen_hex.py:28-30 | each or-assignment adds the new digit and the new mask bit, overlapping nothing |
| Day3Hex.WordIsOr | day3/hw/scripts/gen_hex.py:37 | the final bitwise or of the shifted mask and the data is the sum of the two fields |
| Day3Hex.Convert | day3/hw/scripts/gen_hex.py:6-38 | one 160-digit word per stripped non-blank line, in order, stopping at the first line `int(char)` rejects; success exactly when every line packs |
| Day3Hex.WithNewline | day3/py/make_hex.py:17-19 | the text gains a newline only when it lacks a final one, and keeps its content |
| Day3Hex.MakeHex | day3/py/make_hex.py:9-21 | one code line per character of the newline-terminated text |
| CharHex.CodeLines | day3/py/make_hex.py:4-7 | one line per character |
| CharHex.StringToHex | day3/py/make_hex.py:4-7 | line `k` is the two-digit upper-case hex code of character `k` |
| CharHex.CodeLinesRoundTrip | day3/py/make_hex.py:7 | each line parses back to its character's code, in exactly two digits below 256 |
| RollGrid.DeltaAt | day4/hw/scripts/precompute_day4.py:22-23 | the nested loops over `[-1, 0, 1]` visit the 3 x 3 block row by row |
| RollGrid.CountedInside | day4/hw/scripts/precompute_day4.py:22-30 | every counted cell is an in-bounds roll of the block around the cell, not the cell itself |
| RollGrid.CountedComplete | day4/hw/scripts/precompute_day4.py:22-30 | every neighbouring roll the loops visit is counted |
| RollGrid.CountedSize | day4/hw/scripts/precompute_day4.py:21-30 | no cell is counted twice |
| RollGrid.NeighboursAreCells | day4/hw/scripts/precompute_day4.py:21-30 | `neighbor_count` is the number of rolls among the in-bounds cells of the 3 x 3 block minus its centre, so it lies in 0..8 |
| RollGrid.TallyBound | day4/hw/scripts/precompute_day4.py:24-25 | the centre is skipped, so the count of the first `k` offsets is below `k` once the centre is passed |
| RollGrid.CountNeighbours | debug_solution.py:16-27 | the two loops over `[-1, 0, 1]` return the cell's neighbour count |
| RollGrid.Accessibles | day4/hw/scripts/precompute_day4.py:32-34 | the readings kept are some of those given |
| RollGrid.RomBits | day4/hw/scripts/gen_neighbor_rom.py:34-38 | one ROM bit per roll |
| RollGrid.RowCensusMembers | day4/hw/scripts/precompute_day4.py:17-30 | the census of a row up to column `c` holds exactly its rolls left of `c`, each with its neighbour count |
| RollGrid.CensusMembers | day4/hw/scripts/precompute_day4.py:16-30 | the census of the rows above `r` holds exactly their rolls, each with its neighbour count |
| RollGrid.RowCensusOrdered | day4/hw/scripts/precompute_day4.py:17 | a row's census is in column order |
| RollGrid.CensusOrdered | day4/hw/scripts/precompute_day4.py:16-17 | the census is in row-major order |
| RollGrid.AccessiblesMembers | day4/hw/scripts/precompute_day4.py:32-34 | a reading is kept exactly when it is given and has fewer than 4 neighbours |
| RollGrid.AccessiblesOrdered | day4/hw/scripts/precompute_day4.py:34 | keeping some readings keeps row-major order |
| RollGrid.RomBitsSum | day4/hw/scripts/gen_neighbor_rom.py:40-41 | the sum of the ROM bits is the number of accessible rolls |
| RollGrid.FoundIsAccessible | day4/hw/scripts/precompute_day4.py:16-36 | `results` holds exactly the rolls with fewer than 4 neighbouring rolls, each with its count, in row-major order |
| RollGrid.Scan | day4/hw/scripts/precompute_day4.py:13-36 | the scan returns the accessible readings and their number, and one ROM bit per roll |
| RollGrid.ScanRow | day4/hw/scripts/precompute_day4.py:17-34 | the inner loop extends the readings and the ROM bits by one row |
| RollGrid.Peeled | day4/hw/scripts/precompute_day4.py:72-73 | one round keeps the grid's shape |
| RollGrid.PeeledRemoves | day4/hw/scripts/precompute_day4.py:72-73 | one round sets exactly the accessible rolls to `'.'` and leaves every other cell alone |
| RollGrid.PeeledBelow | day4/hw/scripts/precompute_day4.py:72-73 | a round only turns rolls into `'.'` |
| RollGrid.PeeledRow | day4/hw/scripts/precompute_day4.py:49-73 | within one row, a round removes exactly the accessible rolls |
| RollGrid.PeeledRows | day4/hw/scripts/precompute_day4.py:49-73 | above row `r`, a round removes exactly the accessible rolls |
| RollGrid.PeelShrinks | day4/hw/scripts/precompute_day4.py:68-73 | a round removes `len(to_remove)` rolls, so every round but the last removes at least one |
| Day4.TextGrid | day4/hw/scripts/precompute_day4.py:40 | the grid has at least one row, since splitting never yields nothing |
| Day4.SolvePart1 | day4/hw/scripts/precompute_day4.py:8-36 | fails exactly when a row is shorter than the first; otherwise the count is the number of accessible rolls and `results` lists them in row-major order |
| Day4.Positions | day4/hw/scripts/precompute_day4.py:66 | one position per reading |
| Day4.RemoveCells | day4/hw/scripts/precompute_day4.py:72-73 | the listed cells become `'.'` and every other cell is unchanged |
| Day4.PositionsOfFound | day4/hw/scripts/precompute_day4.py:48-66 | `to_remove` names exactly the accessible rolls |
| Day4.RemovesIsPeeled | day4/hw/scripts/precompute_day4.py:72-73 | a grid that agrees with one round of removal is that round's grid |
| Day4.Round | day4/hw/scripts/precompute_day4.py:48-73 | a round removes all accessible rolls at once, as collected before any change |
| Day4.Final | day4/hw/scripts/precompute_day4.py:47-69 | the grid left when the rounds stop keeps the first row's width |
| Day4.Peel | day4/hw/scripts/precompute_day4.py:44-78 | the loop terminates and returns the rolls removed by all rounds |
| Day4.SolvePart2 | day4/hw/scripts/precompute_day4.py:38-78 | fails exactly when a row is shorter than the first, otherwise returns the total removed by the rounds (the same loop as `solve_part2` of debug_solution.py) |
| Day4.Precompute | day4/hw/scripts/precompute_day4.py:80-101 | both parts on the same text, or failure when a row is too short |
| Day4.DebugSolve | debug_solution.py:4-33 | fails exactly when a row is shorter than the first, otherwise returns the number of accessible rolls |
| Day4.NothingToPeel | day4/hw/scripts/precompute_day4.py:68-69 | with nothing accessible a round changes nothing |
| Day4.FirstRound | day4/hw/scripts/precompute_day4.py:49-71 | the first round removes exactly part 1's count, so part 2 is at least part 1 |
| Day4.FinalStable | day4/hw/scripts/precompute_day4.py:65-69 | when the rounds stop no roll has fewer than 4 neighbouring rolls |
| Day4.PeelAllCounts | day4/hw/scripts/precompute_day4.py:71-73 | the total removed is the initial roll count less the final one, and the final grid differs only by rolls turned into `'.'` |
| Day4.BelowTransitive | day4/hw/scripts/precompute_day4.py:72-73 | turning rolls into `'.'` twice is still only turning rolls into `'.'` |
| Day4.FinalIsFixed | day4/hw/scripts/precompute_day4.py:47-69 | peeling the final grid again removes nothing |
| Day4Rom.RomBitsAt | day4/hw/scripts/gen_neighbor_rom.py:34-38 | entry `k` is 1 exactly when reading `k` has fewer than 4 neighbours |
| Day4Rom.RomEntries | day4/hw/scripts/gen_neighbor_rom.py:7-43 | `rom_data` has one 0/1 entry per roll in row-major order, 1 exactly for an accessible roll, and its sum is the number of accessible rolls |
| Day4Rom.EveryRollHasEntry | day4/hw/scripts/gen_neighbor_rom.py:18-21 | every roll of the grid has its entry |
| Day4Rom.GenerateNeighbourCounts | day4/hw/scripts/gen_neighbor_rom.py:7-43 | fails exactly when a row is shorter than the first; otherwise returns the ROM bits and the number of accessible rolls |
| Day4Rom.RomHex | day4/hw/scripts/gen_neighbor_rom.py:49-51 | one hex line per entry |
| Day4Rom.RomHexParses | day4/hw/scripts/gen_neighbor_rom.py:51 | each line parses back to its entry, in exactly 8 digits for a 0/1 entry |
| Day4Rom.RomData | day4/hw/scripts/gen_rom_verilog.py:6-37 | the `rom_data` loop of both Verilog generators: the ROM bits, or failure on a short row |
| Day4Rom.HeaderCounts | day4/hw/scripts/gen_rom_verilog.py:40-48 | `DEPTH` is the number of rolls and the `Sum:` comment the number of accessible ones |
| Day4Rom.GenerateRomVerilog | day4/hw/scripts/gen_rom_verilog.py:6-82 | the header and chunks of 10 that load `rom_data` exactly, or failure on a short row |
| Day4Rom.GenerateRomVerilogSimple | day4/hw/scripts/gen_rom_verilog.py:84-161 | the header and one assignment `memory[j] = rom_data[j]` per address, in address order |
| VerilogRom.BinDigits | day4/hw/scripts/gen_rom_verilog.py:51 | the digits of `bin` are binary digits, at least one |
| VerilogRom.BinDigitsValue | day4/hw/scripts/gen_rom_verilog.py:51 | the digits of `bin(n)` read back as `n` |
| VerilogRom.BinDigitsLength | day4/hw/scripts/gen_rom_verilog.py:51 | a positive number has `bit_length` binary digits, the top one set |
| VerilogRom.AddrTopFits | day4/hw/scripts/gen_rom_verilog.py:51 | for two or more entries the address bus `[top:0]` is exactly wide enough for the last address |
| VerilogRom.AddrTopSmall | day5/hw/scripts/gen_rom_verilog_day5.py:59 | one entry gives a one-bit bus `[0:0]` and no entry gives `[1:0]`, from `bin(-1)` |
| VerilogRom.ChunkedInit | day4/hw/scripts/gen_rom_verilog.py:61-65 | the chunks start at 0, follow one another, end at the last address, and each carries its slice of at most 10 entries |
| VerilogRom.ChunksAscend | day4/hw/scripts/gen_rom_verilog.py:62-65 | later chunks lie strictly above earlier ones |
| VerilogRom.ChunksCover | day4/hw/scripts/gen_rom_verilog.py:62-65 | every address is loaded by exactly one chunk, with its own entry |
| VerilogRom.Assignments | day5/hw/scripts/gen_rom_verilog_day5.py:70-73 | one assignment per address, in address order, each with its entry |
| Day4Hex.DotRow | day4/py/make_hex.py:32 | a padding row is `width` dots |
| Day4Hex.StripAll | day4/py/make_hex.py:28-29 | one stripped line per line |
| Day4Hex.JoinStep | day4/py/make_hex.py:28-29 | joining one more line appends it and its newline |
| Day4Hex.JoinDots | day4/py/make_hex.py:32-33 | the three padding rows, each newline-terminated |
| Day4Hex.PadContent | day4/py/make_hex.py:23-33 | the content loop and the padding build every stripped line newline-terminated, then three dot rows as wide as the first line |
| Day4Hex.MakeHex | day4/py/make_hex_example.py:9-34 | nothing for an empty file, else one code line per character of the padded text |
| Day4Hex.Chr | day4/py/verify_hex.py:39-40 | `chr` gives the character with that code, and fails exactly above the last code point or on a surrogate |
| Day4Hex.ChrOrd | day4/py/verify_hex.py:40 | `chr` inverts `ord` |
| Day4Hex.MagnitudeDigits | day4/py/verify_hex.py:39 | a plain run of hex digits has no `0x` prefix to drop and is read by its digit value |
| Day4Hex.PyIntHexDigits | day4/py/verify_hex.py:39 | `int(s, 16)` reads a plain run of hex digits by its digit value |
| Day4Hex.PyIntHexForms | day4/py/verify_hex.py:39 | `int(s, 16)` also takes a `0x`/`0X` prefix (one underscore may follow it), a `+` or `-` sign and single underscores between digits: `0x41`, `0X_41`, `+41` and `4_1` are 65, `-41` is -65 |
| Day4Hex.PyIntHexRefusals | day4/py/verify_hex.py:39 | `-0` is 0; a bare `0x`, empty text and a doubled sign raise |
| Day4Hex.PyIntHexUnderscores | day4/py/verify_hex.py:39 | a leading, trailing or doubled underscore raises (`_41`, `41_`, `4__1`) |
| Day4Hex.PyIntHexPrefixed | day4/py/verify_hex.py:39 | for any hex digits `d`, `0x` + d, `0X` + d and `+` + d read as `d` |
| Day4Hex.PyIntHexNegated | day4/py/verify_hex.py:39 | for any hex digits `d`, `-` + d reads as the negated value |
| Day4Hex.DecodeLineSigned | day4/py/verify_hex.py:39-40 | a line `0x` + d, `0X` + d or `+` + d decodes as `chr` of d's value; `-` + d decodes to NUL when the value is 0 and otherwise fails, as `chr` raises on a negative code |
| Day4Hex.MagnitudePrefixed | day4/py/verify_hex.py:39 | an unsigned `0x` + d or `0X` + d has the magnitude of the hex digits d |
| Day4Hex.SignedRead | day4/py/verify_hex.py:39 | a leading `-` negates whatever magnitude the rest has and a leading `+` keeps it |
| Day4Hex.DecodeLinePrefixed | day4/py/verify_hex.py:39-40 | a line `0x` + d, `0X` + d or `+` + d decodes to `chr` of the value of d |
| Day4Hex.DecodeLineNegated | day4/py/verify_hex.py:39-40 | a line `-` + d decodes to NUL when d is zero and otherwise fails, as `chr` raises on a negative code |
| Day4Hex.DecodeRead | day4/py/verify_hex.py:39-40 | a line with no surrounding blanks that `int(line, 16)` reads as v decodes to `chr(v)`, or fails when v is negative |
| Day4Hex.Decoded | day4/py/verify_hex.py:36-40 | one character per line, each line decoded by `chr(int(line.strip(), 16))` with Python's base-16 forms (sign, `0x` prefix, underscores) and failing on a negative code |
| Day4Hex.DecodeHex | day4/py/verify_hex.py:36-40 | the decoding loop yields the text of `chr(int(line.strip(), 16))` per line, sign, prefix and underscore forms included, or fails at the first line that raises |
| Day4Hex.DecodedNoneStays | day4/py/verify_hex.py:39 | once a line fails to decode the whole file fails |
| Day4Hex.CodeLineClean | day4/py/make_hex.py:7 | a code line holds no white space and no newline |
| Day4Hex.DecodeAt | day4/py/verify_hex.py:39-40 | each code line decodes to its character |
| Day4Hex.DecodeCodeLines | day4/py/verify_hex.py:36-40 | the code lines decode back to the text they were made from |
| Day4Hex.DecodeRoundTrip | day4/py/make_hex.py:4-7 | the file `string_to_hex` writes decodes back to the text it was written from |
| Day4Hex.NonEmpty | day4/py/verify_hex.py:50-54 | the lines kept are non-empty and no more than given |
| Day4Hex.NonEmptyKeeps | day4/py/verify_hex.py:51-54 | lines that are all non-empty are kept as they are |
| Day4Hex.HexGrid | day4/py/verify_hex.py:49-59 | at most the original row count of non-empty rows, none holding a newline |
| Day4Hex.NonEmptyFrom | day4/py/verify_hex.py:51-54 | every kept line is one of the split lines |
| Day4Hex.Compare | day4/py/verify_hex.py:68-87 | the grids are reported equal exactly when every original row has its equal at the same index of the hex grid |
| Day4Hex.Solve | day4/py/verify_hex.py:4-28 | fails exactly when a row is shorter than the first; otherwise `matches` lists the accessible rolls in row-major order, exactly those, and `count` is their number |
| Day4Hex.CheckRows | day4/py/verify_hex.py:62-98 | fails exactly when the hex grid has fewer rows or a short row; otherwise reports whether the grids are equal and the part 1 count on the hex rows |
| Day4Hex.VerifyHex | day4/py/verify_hex.py:30-98 | fails when a hex line raises in `int(line.strip(), 16)` or `chr`; otherwise reports the comparison and the count on the rows cut from the decoded text |
| Day4Hex.StripJoined | day4/py/verify_hex.py:33 | `strip()` of a clean grid file removes only its final newline |
| Day4Hex.TextGridOfClean | day4/py/verify_hex.py:31-33 | a clean grid file reads back as its rows |
| Day4Hex.Framed | day4/py/make_hex.py:31-33 | the rows followed by three padding rows |
| Day4Hex.PaddedOfClean | day4/py/make_hex.py:26-33 | for a clean grid file the padded text is the framed rows, newline-terminated |
| Day4Hex.RowsOfFramed | day4/py/verify_hex.py:49-59 | the rows cut from the framed text are exactly the grid file's rows |
| Day4Hex.MakeThenVerify | day4/py/verify_hex.py:30-92 | what `make_hex` writes for a clean grid file decodes to the padded text, whose rows cut to the original count are the grid file's rows, so the grids match |
| Day5.RangesOf | day5/py/solution.py:9-12 | one range per range line, or failure |
| Day5.IdsOf | day5/py/solution.py:14-16 | one ID per ID line, or failure |
| Day5.RangesNoneStays | day5/py/solution.py:11 | one unreadable range line makes `parse_input` raise |
| Day5.IdsNoneStays | day5/py/solution.py:16 | one unreadable ID line makes `parse_input` raise |
| Day5.ReadRanges | day5/py/solution.py:9-12 | the range loop yields exactly the parsed ranges, or fails at the first bad line |
| Day5.ReadIds | day5/py/solution.py:14-16 | the ID loop yields exactly the parsed IDs, or fails at the first bad line |
| Day5.ParseInput | day5/py/solution.py:1-18 | the ranges and IDs of the text, or failure where `parse_input` raises |
| Day5.SectionsCut | day5/py/solution.py:3-7 | the range lines are the stripped text up to the first blank line, and the ID lines what follows it up to the next blank line or the end |
| Day5.FirstBlank | day5/py/solution.py:5 | the cut is at the first blank line |
| Day5.FirstPiece | day5/py/solution.py:5-7 | the first piece of a cut ends the text or stops at a blank line |
| Day5.IsFresh | day5/py/solution.py:25-29 | the inner loop answers true exactly when some range holds the ID, ends included |
| Day5.CountFresh | day5/hw/scripts/precompute_day5.py:29-42 | `matches` lists the fresh IDs in input order and `count` is their number |
| Day5.FreshOccurrences | day5/py/solution.py:24-31 | an ID in several ranges counts once, and a repeated ID once per occurrence |
| Day5.FreshBound | day5/py/solution.py:23-33 | the count is at most the number of IDs, and 0 without ranges |
| Day5.Solve | day5/py/solution.py:20-33 | fails exactly where parsing raises; otherwise returns the number of fresh IDs |
| Day5.Precompute | day5/hw/scripts/precompute_day5.py:26-42 | fails exactly where parsing raises; otherwise the count and the fresh IDs in input order |
| Day5.FreshBits | day5/hw/scripts/gen_rom_verilog_day5.py:35-46 | one ROM bit per ID |
| Day5.FreshBitAt | day5/hw/scripts/gen_rom_verilog_day5.py:42-46 | bit `i` is 1 exactly when ID `i` is fresh |
| Day5.FreshBitsSum | day5/hw/scripts/gen_rom_verilog_day5.py:42-52 | `count` is the sum of the ROM bits |
| Day5.RomData | day5/hw/scripts/gen_rom_verilog_day5.py:30-46 | the loop yields the ROM bits and the number of fresh IDs |
| Day5.GenerateRomVerilog | day5/hw/scripts/gen_rom_verilog_day5.py:26-91 | fails where parsing raises; otherwise the header counts the IDs and the fresh ones, and there is one assignment per address with its bit, in address order |
| Day6.Padded | day6/py/solution.py:11-15 | the grid has one row per line, every row as wide as the longest line |
| Day6.PaddedCell | day6/py/solution.py:13 | padding keeps each character of a line and fills the rest with spaces |
| Day6.Mask | day6/py/solution.py:18-23 | one mask entry per column of the grid |
| Day6.ColumnMask | day6/py/solution.py:17-23 | column `x` is marked exactly when some row holds a non-space there |
| Day6.MaskOfLines | day6/py/solution.py:11-23 | a column of the padded grid is marked exactly when some original line reaches it with a non-space |
| Day6.RunEnd | day6/py/solution.py:28-35 | a run of marked columns ends at the first unmarked column or at the right edge |
| Day6.RunsFromMaximal | day6/py/solution.py:25-37 | the regions are the maximal runs of marked columns, non-empty, separated by a gap, left to right, and every marked column lies in one |
| Day6.Regions | day6/py/solution.py:26-37 | the `start_x` walk returns exactly the maximal runs, the last one closed at the right edge |
| Day6.Step | day6/py/solution.py:63-77 | the digits being read stay digits whatever the character |
| Day6.Fold | day6/py/solution.py:62-77 | the digits being read stay digits after any token |
| Day6.ScanRow | day6/py/solution.py:60-81 | the character loop and the final push give exactly the token's scan |
| Day6.ScanTokenSplit | day6/py/solution.py:48-81 | rows never share a number: a row appends its own numbers, and its operator replaces the one found so far |
| Day6.DigitsAreOneNumber | day6/py/solution.py:64-65 | a token of digits alone is one number, its decimal value, and sets no operator |
| Day6.TokenCut | day6/py/solution.py:66-76 | any non-digit splits a token into two independent parts; `+` or `*` counts as an operator unless a later one follows |
| Day6.NoOpToken | day6/py/solution.py:66-71 | a token without `+` or `*` sets no operator |
| Day6.LastOpWins | day6/py/solution.py:71 | the last `+` or `*` of a token is the operator |
| Day6.RegionRow | day6/py/solution.py:51-81 | each row adds its token's numbers after those of the rows above, and a row with an operator decides it |
| Day6.RegionValue | day6/py/solution.py:48-90 | a region is worth the sum of its numbers under `+`, their product under `*`, and 0 with no operator |
| Day6.SumRegions | day6/py/solution.py:39-92 | the total is the sum of the region values |
| Day6.Solve | day6/py/solution.py:4-94 | 0 with no lines, otherwise the sum over the maximal regions of the padded grid |
| Day6Hex.Codes | day6/py/make_hex.py:28-29 | code `y` of a column is the character of row `y` there |
| Day6Hex.OrBytesIsBytes | day6/py/make_hex.py:26-30 | with one-byte characters the or-assignments never overlap, so the word is the base-256 number of the column's codes |
| Day6Hex.BytesBound | day6/py/make_hex.py:35 | `H` bytes fit in the `2H` hex digits of the line |
| Day6Hex.ByteAt | day6/py/make_hex.py:30 | byte `k` of the word is code `k` |
| Day6Hex.ColumnWord | day6/py/make_hex.py:26-30 | the row loop ors each code into bits `8y..8y+7` |
| Day6Hex.ParseAndWrite | day6/py/make_hex.py:4-43 | nothing for no lines; otherwise one `2H`-digit upper-case line per padded column, then an all-zero column, and `WIDTH` one more than the longest line, `HEIGHT` the line count and `COL_BITS` eight times it |
| Day6Hex.WordLine | day6/py/make_hex.py:26-35 | a column line has exactly `2H` digits, reads back as the word, and its byte `y` is code `y` |
| Day6Hex.ByteField | day6/py/make_hex.py:30 | bits `8y..8y+7` of the word hold code `y` |
| Day6Hex.PaddedCodes | day6/py/make_hex.py:15-29 | a padded column's codes are the line characters, spaces past a line's end |
| Day6Hex.ColumnLine | day6/py/make_hex.py:15-35 | a column line reads back as a word whose byte `y` is line `y`'s character at that column, or a space |
| Day6Hex.ZeroColumn | day6/py/make_hex.py:31-35 | the extra column is `2H` zeros and reads back as 0 |
| Day7.Sources | day7/py/solution.py:37-39 | the columns where the row holds `S`, all inside the grid |
| Day7.Successors | day7/py/solution.py:47-62 | a beam on `^` continues in the neighbouring columns inside the grid, any other beam in its own column |
| Day7.NextActive | day7/py/solution.py:34-64 | the next row's beams lie inside the grid |
| Day7.Simulate | day7/py/solution.py:32-64 | after any number of rows every beam lies inside the grid |
| Day7.NextAdd | day7/py/solution.py:45-62 | visiting one more beam adds exactly its continuations to `next_active` |
| Day7.SplitsAdd | day7/py/solution.py:49-50 | visiting one more beam adds one hit exactly when it sits on `^` |
| Day7.ProcessRow | day7/py/solution.py:43-64 | the beam loop gives the merged continuations of all beams and one hit per beam on a splitter, in any visiting order |
| Day7.AddSources | day7/py/solution.py:37-39 | the row's `S` columns join the active beams |
| Day7.Solve | day7/py/solution.py:4-74 | 0 with no non-blank line, IndexError where a row is shorter than the longest one, otherwise the hit count and the number of beams after the last row |
| Day7.BeamFrom | day7/py/solution.py:49-62 | a column holds a beam after a row exactly when a beam fell straight into it or a splitter next to it sent one sideways |
| Day7.NoSplitters | day7/py/solution.py:57-62 | a row without `^` passes every beam unchanged and adds no hit |
| Day7.ColumnsBound | day7/py/solution.py:34 | a set of columns in a grid of width `W` has at most `W` members |
| Day7.BeamsBound | day7/py/solution.py:32-74 | there is at most one beam per column, and the hit count never falls from one row to the next |
| Day7Hex.DotPadded | day7/py/make_hex.py:12-15 | the grid has one row per non-blank line, every row as wide as the longest line |
| Day7Hex.ByteLines | day7/py/make_hex.py:20-21 | one output line per character of the row |
| Day7Hex.ParamsOf | day7/py/make_hex.py:25-27 | `WIDTH` and `HEIGHT` are the grid's dimensions, and `MEM_SIZE` is their product |
| Day7Hex.GenerateHex | day7/py/make_hex.py:4-27 | nothing without a non-blank line; otherwise the `.`-padded grid written row by row and character by character, and the parameters |
| Day7Hex.EmitRow | day7/py/make_hex.py:20-21 | the inner loop appends one line per character of the row |
| Day7Hex.RowMajorAt | day7/py/make_hex.py:19-21 | in a grid of width `W`, line `y*W+x` is the cell at row `y`, column `x` |
| Day7Hex.RowMajorLength | day7/py/make_hex.py:19-21 | the image has `W*H` lines |
| Day7Hex.CellLine | day7/py/make_hex.py:12-21 | line `y*W+x` has two digits and reads back as line `y`'s character at column `x`, or `.` where the line is shorter |
| Day7Hex.GridCell | day7/py/make_hex.py:19-21 | a cell's line has two digits and reads back as its code |
| Day7Hex.DotCell | day7/py/make_hex.py:13 | padding keeps each character of a line and fills the rest with `.` |
| Day7Hex.ByteLine | day7/py/make_hex.py:21 | a one-byte character is written as two digits that read back as its code |
| Day8.DistSq | day8/py/solution.py:5-6 | `eudist_sq` is a natural number, 0 exactly for equal points |
| Day8.DistSqSymmetric | day8/py/solution.py:5-6 | `eudist_sq` is symmetric in its arguments |
| Day8.BuildEdges | day8/py/solution.py:19-23 | the nested loops build every pair (d, i, j) with i < j in loop order |
| Day8.EdgesOrdered | day8/py/solution.py:19-23 | every edge is a pair u < v weighted by its distance, in strictly increasing loop order |
| Day8.EdgesComplete | day8/py/solution.py:19-23 | every pair a < b with a below the outer index is listed |
| Day8.EdgesCount | day8/py/solution.py:19-23 | after i outer iterations there are i(2N-1-i)/2 edges |
| Day8.AllPairsCount | day8/py/solution.py:19-23 | `edges` has N(N-1)/2 entries |
| Day8.AllPairsShape | day8/py/solution.py:19-23 | each entry is a pair u < v weighted by its distance |
| Day8.AllPairsComplete | day8/py/solution.py:19-23 | every pair a < b is in `edges` |
| Day8.AllPairsDistinct | day8/py/solution.py:19-23 | no pair is listed twice |
| Day8.SortedEdgesFacts | day8/py/solution.py:25-26 | the sorted list is a permutation of the pairs, by non-decreasing distance |
| Day8.Compress | day8/py/solution.py:32-36 | re-pointing a node at its root keeps the forest, and so the root every node reaches |
| Day8.RelinkJoined | day8/py/solution.py:41-46 | hanging one root under the other joins exactly the two classes |
| Day8.LinkSized | day8/py/solution.py:45-46 | the new root's size is the sum of the two old sizes and counts its class |
| Day8.UnionFind.constructor | day8/py/solution.py:29-30 | `parent = list(range(N))`, `size = [1] * N`: every node its own root |
| Day8.UnionFind.Find | day8/py/solution.py:32-36 | `find(i)` returns the root of i (a node r with parent[r] == r) and only re-points nodes at their own roots |
| Day8.UnionFind.Link | day8/py/solution.py:45-46 | hangs root rj under root ri and adds the sizes |
| Day8.UnionFind.Union | day8/py/solution.py:38-48 | True iff the roots differed; afterwards x and y share a root iff they did before or one was with i and the other with j; the merged size is the sum; the smaller tree goes under the larger |
| Day8.UnionFind.LinkBySize | day8/py/solution.py:43-46 | with distinct roots, the smaller tree (by size; on a tie the root of `j`) goes under the other root, the classes of i and j are joined and no others, and the surviving root holds the summed size |
| Day8.Attempts | day8/py/solution.py:80-87 | the loop attempts min(k_shortest, len(edges)) edges, none for a non-positive limit |
| Day8.UnionTracks | day8/py/solution.py:86 | a union keeps the union-find partition equal to the reference partition |
| Day8.Connect | day8/py/solution.py:80-87 | after the loop the circuits are those of the reference merge of the attempted edges, whether or not each one merged |
| Day8.RootSizes | day8/py/solution.py:91-97 | one size per root, each root once, every node under a listed root, and the sizes add up to N |
| Day8.TopFirst | day8/py/solution.py:99 | `root_sizes.sort(reverse=True)` is a non-increasing permutation |
| Day8.Product | day8/py/solution.py:101-108 | the product of all sizes when there are fewer than three, else of the first three |
| Day8.SizesOfCircuits | day8/py/solution.py:89-97 | the root sizes are the sizes of the reference circuits, one per circuit |
| Day8.PointOf | day8/py/solution.py:13 | a point is read only from a line of exactly three comma-separated parts |
| Day8.PointsOfEach | day8/py/solution.py:11-14 | point k is the point of non-blank line k |
| Day8.ReadPoints | day8/py/solution.py:9-14 | the reading loop gives the points of the stripped non-blank lines, or raises |
| Day8.Answer | day8/py/solution.py:16-110 | the product of the three largest circuit sizes (all when fewer) after the first `k_shortest` sorted edges |
| Day8.Solve | day8/py/solution.py:8-110 | `None` iff a line does not hold three integers; otherwise that product |
| Day8Hex.SliceTo | day8/py/make_hex.py:33 | `edges[:k_limit]` with Python's slice rules is a prefix of the computed length |
| Day8Hex.SliceIsAttempted | day8/py/make_hex.py:33 | for a non-negative limit the slice is exactly the edges the solver attempts |
| Day8Hex.EdgeWordFields | day8/py/make_hex.py:38-40 | with endpoints below 2^16 a word is eight hex digits reading back as u * 2^16 + v |
| Day8Hex.EmitEdges | day8/py/make_hex.py:37-40 | one word per edge to write, in order |
| Day8Hex.GenerateHex | day8/py/make_hex.py:7-46 | words for `edges[:k_limit]` of the same sorted edge list, NUM_NODES = N, NUM_EDGES = the slice length, K_LIMIT = k |
| Day8Hex.WordsAreJoinedEdges | day8/py/make_hex.py:15-46 | with N at most 65536 each word is u * 2^16 + v for an edge u < v that the solver joins, out of N(N-1)/2 |
| Day9.PointsNoneStays | day9/py/solution.py:7-10 | once a line fails to parse, the whole read fails |
| Day9.ReadPoints | day9/py/solution.py:5-10 | blank lines are skipped and every other line gives one point in order, or the read fails at the first line that is not two comma-separated integers |
| Day9.AreaPositive | day9/py/solution.py:39-41 | every rectangle's area is at least 1 |
| Day9.AreaSymmetric | day9/py/solution.py:39-40 | the area does not depend on the order of the two corners |
| Day9.WorkedExamples | day9/py/solution.py:22-37 | the corners (2,5),(9,7) give 24 and (2,5),(11,1) give 50 |
| Day9.MaxArea | day9/py/solution.py:12-45 | the result bounds the area of every pair `i < j` and equals the area of one of them, or is 0 with fewer than two points |
| Day9.ZeroIffFewerThanTwo | day9/py/solution.py:13-45 | the answer is 0 exactly when there are fewer than two points |
| Day9.MaxAreaUnique | day9/py/solution.py:42-45 | the maximum property determines the answer |
| Day9.MaxAreaReversed | day9/py/solution.py:16-43 | listing the points in reverse gives the same answer |
| Day9.Solve | day9/py/solution.py:4-45 | fails exactly where reading fails; otherwise the largest area over all pairs |
| Gf2.DotXor | day10/py/solution.py:105-107 | the GF(2) dot product is linear in the row |
| Gf2.AddRowKeepsSolutions | day10/py/solution.py:103-107 | XOR-ing the pivot row into another row keeps the solution set |
| Gf2.SwapKeepsSolutions | day10/py/solution.py:97-98 | swapping two rows keeps the solution set |
| Day10.BuildMatrix | day10/py/solution.py:66-74 | row r of the matrix is `[button_0[r], ..., button_{n-1}[r], target[r]]` |
| Day10.SolvesIffLights | day10/py/solution.py:47-74 | x solves the augmented matrix iff pressing the buttons chosen by x lights exactly the target pattern |
| Day10.FindPivot | day10/py/solution.py:86-91 | `sel` is -1 iff no row from `pivot_row` down has a 1 in column c; otherwise it is such a row |
| Day10.AddRowFrom | day10/py/solution.py:106-107 | entries from column c on are XOR-ed, entries left of c are kept |
| Day10.ClearColumn | day10/py/solution.py:102-107 | every other row with a 1 in column c gets the pivot row added; the solutions are unchanged |
| Day10.EliminateColumn | day10/py/solution.py:81-109 | one column becomes a pivot or a free column, keeping reduced form and the solutions |
| Day10.FreeStep | day10/py/solution.py:82-95 | a column with no 1 at or below `pivot_row` becomes free |
| Day10.PivotStep | day10/py/solution.py:97-109 | after the swap and the clearing, column c holds a single 1, in its pivot row |
| Day10.Eliminate | day10/py/solution.py:76-109 | swaps and XORs only: same solutions; every column is a pivot or free; pivot columns increase; each pivot column holds one 1, in its own pivot row |
| Day10.InconsistentRow | day10/py/solution.py:111-117 | a row past the pivot rows with right-hand side 1 has no solution |
| Day10.CheckRows | day10/py/solution.py:111-117 | `possible` iff no row at or below `pivot_row` has right-hand side 1 |
| Day10.PivotRowDot | day10/py/solution.py:151-169 | a pivot row reads its pivot variable plus its free variables to the right |
| Day10.RowValue | day10/py/solution.py:158-167 | `row_val` is the right-hand side XOR the free terms right of the pivot column |
| Day10.FreePart | day10/py/solution.py:144-149 | free variable `free_vars[j]` gets bit j of the loop value |
| Day10.Assign | day10/py/solution.py:142-169 | the assignment is the back-substituted candidate of the loop value |
| Day10.CandidateSolves | day10/py/solution.py:142-169 | with no `0 = 1` row each candidate satisfies A x = target over GF(2) |
| Day10.SolutionIsCandidate | day10/py/solution.py:142-169 | every solution is the candidate of the loop value spelling out its free variables |
| Day10.CandidateUnique | day10/py/solution.py:142-169 | each loop value has exactly one candidate |
| Day10.Weight | day10/py/solution.py:172 | `sum(assignment)` is at most the number of variables |
| Day10.MinPresses | day10/py/solution.py:140-174 | `min_presses` is the weight of some candidate and no candidate weighs less |
| Day10.MinimumIsFewest | day10/py/solution.py:140-176 | the least candidate weight is the least number of presses among all ways of lighting the target |
| Day10.SolveMachine | day10/py/solution.py:63-176 | "impossible" exactly when no presses light the target; otherwise the fewest presses that do |
| Day10.Diagram | day10/py/solution.py:16-18 | a diagram is found only when the line has `[`, and it holds no `]` |
| Day10.Groups | day10/py/solution.py:30-33 | `re.findall(r'\((.*?)\)', rest)` gives groups without `)` |
| Day10.Button | day10/py/solution.py:40-45 | a button is a length-L vector (indices at or past L ignored) |
| Day10.ButtonVector | day10/py/solution.py:40-45 | the loop sets a 1 at each listed index below L, Python's negative indexing included, and raises below -L |
| Day10.ButtonList | day10/py/solution.py:35-45 | one length-L vector per group |
| Day10.ReadButtons | day10/py/solution.py:35-45 | the loop over the groups builds `buttons`, or raises |
| Day10.ParseLine | day10/py/solution.py:12-45 | a parsed line has buttons over the target's lights |
| Day10.SolveLine | day10/py/solution.py:11-176 | one line adds its fewest presses, 0 when it has no diagram or is impossible, or raises |
| Day10.Solve | day10/py/solution.py:5-178 | `total_presses` is the sum of the per-line amounts over the stripped non-blank lines, or raises |
| Day10Hex.RowBits | day10/py/make_hex.py:40-46 | row `r` has one bit per button, that button's toggle of light `r`, then the light's target bit |
| Day10Hex.RowWord | day10/py/make_hex.py:39-46 | the or-assignment loop builds the number whose binary digits are the row's bits |
| Day10Hex.RowWordBits | day10/py/make_hex.py:42-46 | bit `c` of a row word is 1 exactly when button `c` toggles the light, bit `n` exactly when the light must be on, and the word is below `2^(n+1)` |
| Day10Hex.RowWordFits | day10/py/make_hex.py:38-48 | with `n + 1 <= 32` a row word is exactly eight digits and reads back unchanged |
| Day10Hex.HeaderWord | day10/py/make_hex.py:29-31 | below `2^16` each, the header is one eight-digit word with `L` in the upper 16 bits and the button count in the lower 16 |
| Day10Hex.RowWords | day10/py/make_hex.py:39-48 | one word per light so far |
| Day10Hex.MachineWords | day10/py/make_hex.py:31-48 | a machine writes its header and exactly `L` row words |
| Day10Hex.EmitMachine | day10/py/make_hex.py:29-48 | the row loop writes the header, then the row words in light order |
| Day10Hex.GenerateHex | day10/py/make_hex.py:5-48 | the words written line by line: nothing for a line without a diagram, the solver's parse otherwise, and a stop at the first line whose button list raises |
| Day10Hex.EmitLine | day10/py/make_hex.py:10-48 | one turn of the line loop writes exactly that line's words or reports that it raised |
| Day10Hex.OutputStops | day10/py/make_hex.py:23 | after a line raises nothing more is written |
| Day10Hex.ReadsAll | day10/py/make_hex.py:10-48 | when no line's button list raises, the loop reads every line |
| Day10Hex.RaiseStops | day10/py/make_hex.py:23 | a line whose button list raises stops the loop before the end |
| Day10Hex.OutputLength | day10/py/make_hex.py:13-48 | the output holds `L + 1` words per machine line read before any line that raises |
| Day11.Entry | day11/py/solution.py:13-19 | a line raises iff it has no ':'; otherwise its source and destination words |
| Day11.AdjacencyFails | day11/py/solution.py:11-21 | reading fails exactly when some line has no ':' |
| Day11.AdjacencyKeys | day11/py/solution.py:11-21 | the keys of `adj` are exactly the sources of the lines |
| Day11.LastLineWins | day11/py/solution.py:21 | a source maps to the destinations of its last line: a later line replaces an earlier one |
| Day11.ReadGraph | day11/py/solution.py:9-21 | the parse loop builds the adjacency dictionary, or raises |
| Day11.CountPaths | day11/py/solution.py:33-47 | `count_paths(u)` returns the unmemoised count (1 at 'out', the sum over the destination list with repeats, 0 without an entry), keeps every stored entry equal to that count and only adds entries |
| Day11.CountPositive | day11/py/solution.py:35-47 | the count is positive exactly when some walk along destination lists leads from u to 'out' |
| Day11.ChildSumAtLeast | day11/py/solution.py:42-44 | each destination's count is part of the sum |
| Day11.CountRankFree | day11/py/solution.py:26-31 | the count depends on the graph only, not on the acyclicity witness that bounds the recursion |
| Day11.Solve | day11/py/solution.py:4-50 | `None` iff a line has no ':'; otherwise the path count from 'you', positive iff a walk reaches 'out' (for a graph acyclic from 'you') |
| Day11Hex.NodesOfFrom | day11/py/make_hex.py:9-17 | every name in `nodes` is the source or a destination of some line |
| Day11Hex.NodesOfHas | day11/py/make_hex.py:9-17 | the source and every destination of every line are in `nodes`, replaced lists included |
| Day11Hex.Names | day11/py/make_hex.py:38-39 | every node `visit` is called on from a destination list is among the names the search can mark, which bounds the search |
| Day11Hex.AddNodes | day11/py/make_hex.py:17 | `nodes` gains exactly the destinations |
| Day11Hex.ReadInput | day11/py/make_hex.py:8-17 | the line loop builds the same dictionary as the solver and the set of every name, or raises |
| Day11Hex.Visit | day11/py/make_hex.py:31-43 | `visit(u)` raises "Cycle detected" only when a cycle is reachable (no recursion depth limit); otherwise u is finished, the stack is as before, and the finished nodes stay a distinct, children-first list of reachable nodes, u appended when new |
| Day11Hex.Expand | day11/py/make_hex.py:37-43 | marking u, visiting its children and finishing u appends u after its children |
| Day11Hex.VisitChildren | day11/py/make_hex.py:38-40 | after the loop every child of u is finished, or a cycle was found |
| Day11Hex.CycleFound | day11/py/make_hex.py:32-33 | re-entering a node still on the stack closes a cycle reachable from the start |
| Day11Hex.TopoSort | day11/py/make_hex.py:27-45 | `visit('you')` yields each node reachable from 'you' exactly once, each after its children, 'you' last; a "Cycle detected" raise means a reachable cycle (no recursion depth limit) |
| Day11Hex.TopoAcyclic | day11/py/make_hex.py:45-55 | a topological order of the reachable part rules out a reachable cycle |
| Day11Hex.Ids | day11/py/make_hex.py:58 | `node_to_id` has exactly the names of the order as keys |
| Day11Hex.IdsArePositions | day11/py/make_hex.py:58-59 | with distinct names the ids are the positions, a bijection onto 0..N-1 |
| Day11Hex.ChildIds | day11/py/make_hex.py:84 | the filtered child ids are no more than the children |
| Day11Hex.ChildIdsAll | day11/py/make_hex.py:84 | when every child has an id the filter drops nothing and keeps the order |
| Day11Hex.Record | day11/py/make_hex.py:78-91 | a record is one header word and one word per kept child |
| Day11Hex.EmitRecord | day11/py/make_hex.py:79-91 | the header write and the child writes of one node |
| Day11Hex.EmitRecords | day11/py/make_hex.py:78-91 | the records of the nodes in topological order |
| Day11Hex.RecordOfNode | day11/py/make_hex.py:78-91 | in a topological order every child has an id, all smaller than the node's own |
| Day11Hex.HeaderFields | day11/py/make_hex.py:86 | below 2^16 a header is eight hex digits reading back as id * 2^16 + child count |
| Day11Hex.GenerateHex | day11/py/make_hex.py:4-97 | parse error, early return when 'you' or 'out' is missing, cycle error, `KeyError` when 'out' is unreachable, or the records in topological order with NUM_NODES, OUT_NODE and YOU_NODE = N-1 |
| Day12Shapes.Rotate | day12/py/solution.py:67-77 | the quarter turn of an H x W grid is a W x H rectangle |
| Day12Shapes.RotateCell | day12/py/solution.py:67-77 | the quarter turn moves cell (r, c) to (c, H-1-r) |
| Day12Shapes.Flip | day12/py/solution.py:79-80 | `curr[::-1]` keeps the height and puts row H-1-r at position r |
| Day12Shapes.HalfTurn | day12/py/solution.py:67-77 | two quarter turns reverse both the rows and the columns of a rectangle |
| Day12Shapes.TwoHalfTurns | day12/py/solution.py:67-77 | four quarter turns give back the rectangle |
| Day12Shapes.FullTurn | day12/py/solution.py:61-77 | after the four-turn pass `curr` is the grid the pass started from |
| Day12Shapes.FlippedRect | day12/py/solution.py:61-80 | the second pass of `get_variations` turns the row flip of the shape |
| Day12Shapes.OrientationsAtMostEight | day12/py/solution.py:58-82 | the orientation set has at most eight members |
| Day12Shapes.AreaIsCellCount | day12/py/solution.py:99 | `sum(sum(r) for r in shape_grid)` is the number of filled cells |
| Day12Shapes.RotateKeepsArea | day12/py/solution.py:67-77 | a quarter turn keeps the filled-cell count |
| Day12Shapes.FlipKeepsArea | day12/py/solution.py:79-80 | the row flip keeps the filled-cell count |
| Day12Shapes.TurnsKeepArea | day12/py/solution.py:62-77 | any number of quarter turns keeps the filled-cell count |
| Day12Shapes.OrientationsKeepArea | day12/py/solution.py:58-82 | every orientation has the area of the shape |
| Day12.RotateGrid | day12/py/solution.py:69-77 | the nested loop builds exactly the quarter turn |
| Day12.FirstFour | day12/py/solution.py:62-65 | the four grids met in one pass are the first four turns |
| Day12.CollectTurns | day12/py/solution.py:62-77 | one pass adds the four turns of its start grid to `vars` and leaves `curr` turned four times |
| Day12.ListOfSet | day12/py/solution.py:82 | `list(vars)` holds each member of the set exactly once |
| Day12.GetVariations | day12/py/solution.py:55-82 | the result lists every orientation (four turns of the shape, four of its row flip) exactly once, at most eight |
| Day12.BuildMask | day12/py/solution.py:119-127 | the loop builds `(base_mask, vh, vw)` with bit r*w+c for each filled cell |
| Day12.MaskRowsMembers | day12/py/solution.py:123-126 | when the orientation is no wider than the board, bit x is set iff cell (x // w, x % w) is filled |
| Day12.BaseMaskArea | day12/py/solution.py:119-127 | the popcount of a base mask is the orientation's area |
| Day12.ShiftedMask | day12/py/solution.py:147-155 | a shift that passes the test gives exactly the orientation's cells with corner (shift // w, shift % w), all below w*h, none wrapped across a row |
| Day12.Place | day12/py/solution.py:137-159 | `place` returns True iff some sequence of choices for the remaining items passes every test of the search |
| Day12.CompletesSound | day12/py/solution.py:137-159 | an accepted run gives each item one in-bounds placement, pairwise disjoint and clear of the occupied cells, and a flagged item sits at a strictly larger shift than its predecessor |
| Day12.CompletesFromStart | day12/py/solution.py:161 | a run accepted by `place(0, 0, -1)` covers every item, fits the board and never overlaps |
| Day12.RequestStep | day12/py/solution.py:95-103 | one index of the request loop adds `cnt` copies of its shape and `area * cnt` to the total, or raises when the shape is missing or malformed |
| Day12.AppendCopies | day12/py/solution.py:102-103 | `cnt` copies of the entry are appended |
| Day12.RequestOne | day12/py/solution.py:95-103 | one pass of the request loop extends the entries and total, or reports the error |
| Day12.CollectPieces | day12/py/solution.py:93-103 | the first loop yields the area total and one `(area, vars)` entry per requested copy, or the error |
| Day12.BrokenPrefix | day12/py/solution.py:95-101 | an error among the first requests is an error of the whole call |
| Day12.NoRequests | day12/py/solution.py:95-103 | with no positive count nothing is requested and the total is 0 |
| Day12.SortedPieces | day12/py/solution.py:110-111 | sorting (entry, shape) pairs by area sorts the entries the same way |
| Day12.SortedShapes | day12/py/solution.py:110-111 | sorting the pairs stably sorts the shapes by area |
| Day12.SortedDescribes | day12/py/solution.py:110-111 | after the stable largest-area-first sort each entry still describes the shape at its position |
| Day12.BuildMasks | day12/py/solution.py:113-128 | `item_masks` holds one mask per orientation, per entry, in list order |
| Day12.SameFlags | day12/py/solution.py:130-135 | `is_same_as_prev[i]` iff i > 0 and entry i's orientation list equals entry i-1's |
| Day12.ChoicePlaced | day12/py/solution.py:147-155 | a choice that passes the test puts one of the shape's orientations inside the board |
| Day12.LayoutPacks | day12/py/solution.py:147-158 | fitting choices with disjoint footprints are a packing of the shapes |
| Day12.SearchSound | day12/py/solution.py:137-161 | an accepted run on the sorted entries is a packing of the shapes they describe |
| Day12.Search | day12/py/solution.py:113-161 | True means the sorted shapes can be packed; with no entries the answer is True |
| Day12.CanFit | day12/py/solution.py:84-161 | `None` iff a requested shape is missing or malformed; False when the area total exceeds w*h; True with no positive count; True only when the stably sorted shapes can be packed |
| Day12.FitRegion | day12/py/solution.py:167-169 | one region's answer, as a verdict on that region |
| Day12.Solve | day12/py/solution.py:163-171 | the count of regions that `can_fit` accepts, each counted answer a verdict on its region, or `None` when some region raises |
| Day12Input.SplitColon | day12/py/solution.py:25 | `split(':', 1)` splits at the first colon |
| Day12Input.Ints | day12/py/solution.py:31-32 | `map(int, ...)` fails iff some word is not an integer, and otherwise reads each word |
| Day12Input.ShapeRow | day12/py/solution.py:46-48 | a shape row has one cell per character |
| Day12Input.ReadRow | day12/py/solution.py:46-48 | the loop marks exactly the `#` characters as filled |
| Day12Input.ReadShape | day12/py/solution.py:42-51 | the rows of a shape are its non-blank stripped lines after the header |
| Day12Input.ReadRegions | day12/py/solution.py:22-33 | a regions block yields its `WxH: counts` lines in order; blank, colon-less and `x`-less lines are skipped; `int()` failures raise |
| Day12Input.ReadBlock | day12/py/solution.py:13-51 | one block is skipped, read as regions, or read as the shape of its index |
| Day12Input.ParseInput | day12/py/solution.py:4-53 | `parse_input` over the text reads the `\n\n`-separated blocks in order |
| Day12Print.ParseIntDec | day12/py/solution.py:31-32 | `int(str(n)) == n` for a natural number |
| Day12Print.CountsBack | day12/py/solution.py:28-32 | counts written after the colon read back as the counts |
| Day12Print.RegionLineRoundTrip | day12/py/solution.py:22-33 | a region line written as `WxH: c0 c1 ...` reads back as that region |
| Day12Print.RegionsBlockRoundTrip | day12/py/solution.py:20-33 | a block of region lines adds those regions, in order |
| Day12Print.ShapeGridBack | day12/py/solution.py:42-51 | rows written with `#` and `.` read back as the grid |
| Day12Print.ShapeBlockRoundTrip | day12/py/solution.py:34-51 | a shape block `idx:` plus rows sets the shape at its index |

## Left out

- File reads and writes, `print`, `sys.argv`, `os.path` checks and the `__main__` blocks. Each script is modelled from the text it reads to the lines it writes. The diagnostic prints are dropped.
- Text is taken after Python's universal-newline translation, so `\r\n` line ends are not modelled separately.
- Python's decimal `int()` is modelled on surrounding whitespace, one optional sign, then ASCII digits. Underscores and non-ASCII digits are not accepted. `str.isdigit` is modelled on ASCII digits only.
- Day4Hex.DecodeLine / Decoded / DecodeHex / VerifyHex: the base-16 `int(line.strip(), 16)` takes a sign, a `0x`/`0X` prefix and single underscores, as in Python, but only ASCII hex digits. Python also accepts non-ASCII digits such as full-width ones, and those lines fail to decode in the model.
- Python integers are unbounded, as in the model. Where a hardware field has a fixed width, the width is a precondition of the lemma that decodes it, such as a distance below `2^16` or endpoints below `2^16`.
- CharHex.CodeLinesRoundTrip: characters with codes of 256 or more would write three or more digits, so the round trip is stated for one-byte characters only.
- Day6Hex.ColumnLine: with characters of 256 or more the shifted codes overlap, so the byte-per-row decoding is stated for one-byte characters only.
- Day4Hex.Chr / Decoded / DecodeHex / VerifyHex: a surrogate code point gives `None`, because a Dafny `char` cannot hold one, whereas Python's `chr` returns a lone surrogate. So a hex line holding a surrogate code fails the whole decoding in the model, while the source goes on.
- Day1Hex.LineItem / Items / ReadItems / ParseInput: a negative distance gives `None`. The source would or a negative integer into the word, and that is not modelled. So input with a negative distance is refused by the model, while the source writes a word for it.
- Day8Hex.SliceIsAttempted: only a non-negative `k_limit` is tied to the solver's attempted edges. With a negative limit Python's slice counts from the end, while the solver's loop attempts nothing. `SliceTo` models the slice itself.
- Day11.CountPaths: the count takes a ghost ranking of the explored nodes and requires that it falls along every edge, so the explored graph must be acyclic. On a reachable cycle the source recurses until Python's recursion limit raises, and that is not modelled.
- Day11.Solve: it carries the same ranking precondition as `count_paths`. The recursion depth limit is also not modelled on acyclic graphs.
- Day11Hex.Visit / VisitChildren / TopoSort / GenerateHex: the nested `visit` is recursive, so a chain deeper than Python's recursion limit (1000 frames by default) raises RecursionError even on an acyclic graph. The model has no depth limit, so its cycle error means a reachable cycle, and on such a deep chain it returns the records where the source raises.
- Day12.GetVariations: Python's order of `list(set)` is unspecified, so the result is any listing of the orientation set, each member once. The search is proved for every such order.
- Day12.Solve: region widths and heights are natural numbers, so negative dimensions in the text are not modelled.
- Day2.RangeLine: the hex dump of the merged ranges sits behind a command-line flag and is written to a file. Only the line format and its read-back are modelled.
- Day4Hex.VerifyHex: the mismatch messages are printed output and are not modelled. A hex image with fewer rows than the original first reports a mismatch and then raises IndexError when it is cut to the original's rows, so the model returns `None` for it. The separate comparison against `py_out.txt` is a file comparison and is left out.
- Day3Tree.PrecomputeCumulative: with no lines, the source's `results[-1]` raises only in a print statement, which is left out with the rest of the printing.
- The Verilog template text of the day 4 and day 5 ROM generators. The model keeps the ROM data, the depth, the sum, the address width and the address-by-address assignments.
- The `float('inf')` starting value of the day 10 minimum. There is always at least one free-variable assignment, so the model starts from the first candidate's weight instead.
- The cocotb co-simulation tests, the Verilator driver, the waveform plotting, the placement constraints, the build and report scripts, the log comparisons and the day 12 driver scripts. These drive hardware or external tools, and none of them is part of this model.
- The thin dumpers of days 5, 9 and 12, which only format each value with a fixed-width format string.

## Findings

| source | as written | input that shows it | evidently intended | confidence | as-written member | corrected member |
|---|---|---|---|---|---|---|
| day3/hw/scripts/precompute_results.py:62 | the cross score of two tree nodes pairs the left maximum with the right node's first digit | the line `9118` scores 91 | the right node's maximum digit, giving the best pair 98 as in day3/hw/scripts/precompute_results_correct.py | high, not executed | Day3Tree.FirstDigitCross | Day3Tree.TreeScoreExact |
| day3/hw/scripts/precompute_results.py:104-105 | lines are padded to 128 entries with the digit 0, which the tree treats as a valid digit | the line `9` scores 90 | padding with invalid entries, so that a one-digit line scores 0 | high, not executed | Day3Tree.ZeroPadding | Day3Tree.CorrectedResults |
