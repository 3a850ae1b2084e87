/**
 * The character dump the grid puzzles feed to their hardware: `string_to_hex` writes every
 * character of the input text as its code in two upper-case hex digits, one per line,
 * and the readers turn each line back into a character with `chr(int(line, 16))`.
 */
module CharHex {
  import opened Common
  import opened HexText

  /** `ord(c)` */
  function Ord(c: char): nat
  {
    c as int
  }

  /** `f"{ord(char):02X}"` for every character, in order. */
  function CodeLines(content: string): (ls: seq<string>)
    ensures |ls| == |content|
  {
    seq(|content|, k requires 0 <= k < |content| => Format(Ord(content[k]), 2, true))
  }

  /** `string_to_hex`: one line per character of the text. */
  method StringToHex(content: string) returns (lines: seq<string>)
    ensures lines == CodeLines(content)
  {
    lines := [];
    for k := 0 to |content|
      invariant |lines| == k
      invariant forall j | 0 <= j < k :: lines[j] == Format(Ord(content[j]), 2, true)
    {
      lines := lines + [Format(Ord(content[k]), 2, true)];
    }
  }

  /**
   * Each line reads back as its character's code, and a character below 256 takes exactly
   * two digits.
   */
  lemma CodeLinesRoundTrip(content: string, k: nat)
    requires k < |content|
    ensures ParseHex(CodeLines(content)[k]) == Some(Ord(content[k]))
    ensures Ord(content[k]) < 256 ==> |CodeLines(content)[k]| == 2
  {
    FormatParses(Ord(content[k]), 2, true);
    if Ord(content[k]) < 256 {
      assert Pow16(2) == 256;
      FormatRoundTrip(Ord(content[k]), 2, true);
    }
  }
}
