/**
 * Day 8 hardware input: the edges the solver joins, one word `UUUUVVVV` per edge (the two
 * endpoints, four hex digits each), and the parameters `NUM_NODES`, `NUM_EDGES`, `K_LIMIT`.
 */
module Day8Hex {
  import opened Common
  import opened Bits
  import opened HexText
  import opened PyText
  import opened Sorting
  import opened Day8

  /** `s[:k]` with Python's slice rules: a negative `k` counts from the end. */
  function SliceTo<T>(s: seq<T>, k: int): (r: seq<T>)
    ensures |r| == if k >= 0 then Min(k, |s|) else Max(0, |s| + k)
    ensures r == s[..|r|]
  {
    if k >= 0 then s[..Min(k, |s|)] else s[..Max(0, |s| + k)]
  }

  /** For a non-negative limit the slice is exactly the edges the solver attempts. */
  lemma SliceIsAttempted(es: seq<Edge>, k: int)
    requires k >= 0
    ensures SliceTo(es, k) == es[..Attempts(k, |es|)]
  {
  }

  /** `f"{u:04X}{v:04X}"` */
  function EdgeWord(e: Edge): string
  {
    Format(e.u, 4, true) + Format(e.v, 4, true)
  }

  /** With endpoints below 2^16 the word is eight digits, `u` above `v`. */
  lemma EdgeWordFields(e: Edge)
    requires e.u < Pow2(16) && e.v < Pow2(16)
    ensures |EdgeWord(e)| == 8
    ensures ParseHex(EdgeWord(e)) == Some(e.u * Pow2(16) + e.v)
  {
    Pow16IsPow2(4);
    PairParses(e.u, e.v, 4, true);
  }

  /** The file writes. */
  datatype Output = Output(words: seq<string>, numNodes: nat, numEdges: nat, kLimit: int)

  /** The write loop over `edges_to_write`. */
  method EmitEdges(es: seq<Edge>) returns (words: seq<string>)
    ensures |words| == |es| && forall t :: 0 <= t < |es| ==> words[t] == EdgeWord(es[t])
  {
    words := [];
    for t := 0 to |es|
      invariant |words| == t && forall s :: 0 <= s < t ==> words[s] == EdgeWord(es[s])
    {
      words := words + [EdgeWord(es[t])];
    }
  }

  /**
   * `generate_hex` on the file text: `None` when a line does not hold three integers;
   * otherwise one word per edge of `edges[:k_limit]` and the parameters.
   */
  method GenerateHex(text: string, k: int) returns (r: Option<Output>)
    ensures r.None? <==> PointsOf(StrippedLines(text)).None?
    ensures r.Some? ==>
      var points := PointsOf(StrippedLines(text)).value;
      var es := SliceTo(SortedEdges(points), k);
      r.value.numNodes == |points| && r.value.numEdges == |es| && r.value.kLimit == k
      && |r.value.words| == |es| && forall t :: 0 <= t < |es| ==> r.value.words[t] == EdgeWord(es[t])
  {
    var read := ReadPoints(text);
    if read.None? {
      return None;
    }
    var points := read.value;
    var edges := BuildEdges(points);
    var sorted := SortBy(edges, Shorter);
    var toWrite := SliceTo(sorted, k);
    var words := EmitEdges(toWrite);
    r := Some(Output(words, |points|, |toWrite|, k));
  }

  /**
   * What the words say: with at most 65536 points each word is `u * 2^16 + v` for an edge
   * `u < v` that the solver joins (for a non-negative limit), and there are
   * `min(k, N(N-1)/2)` of them.
   */
  lemma WordsAreJoinedEdges(points: seq<Point>, k: int, t: nat)
    requires k >= 0 && |points| <= Pow2(16)
    requires t < |SliceTo(SortedEdges(points), k)|
    ensures var e := SortedEdges(points)[t];
      t < Attempts(k, |SortedEdges(points)|) && e.u < e.v
      && ParseHex(EdgeWord(SliceTo(SortedEdges(points), k)[t])) == Some(e.u * Pow2(16) + e.v)
    ensures 2 * |SortedEdges(points)| == |points| * (|points| - 1)
  {
    SortedEdgesFacts(points);
    AllPairsCount(points);
    EdgeWordFields(SortedEdges(points)[t]);
  }
}
