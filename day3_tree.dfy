/**
 * The tree-reduction form of the Day 3 joltage, used to precompute the hardware's result
 * ROM: every digit becomes a leaf node, and neighbouring nodes are merged pairwise, level
 * by level, until one node is left. A node remembers its largest digit, its first digit
 * and the best pair found inside it.
 *
 * As written, the pair across two merged halves is the left half's largest digit followed
 * by the right half's FIRST digit, which misses pairs ending at a larger later digit, and
 * short lines are padded with valid zero digits. Both are modelled as written (`corrected
 * == false`) next to the corrected tree (`corrected == true`: the cross pair uses the right
 * half's largest digit and padding leaves are invalid), which is proved equal to the
 * joltage of `Day3`.
 */
module Day3Tree {
  import opened Common
  import opened PyText
  import opened HexText
  import opened Day3

  /** One node of the reduction tree; an invalid node stands for a span without digits. */
  datatype Node = Node(maxSeen: nat, score: nat, firstDigit: nat, valid: bool)

  const Empty := Node(0, 0, 0, false)

  /** Level 0: a digit becomes a valid node of score 0, a missing digit an invalid node. */
  function Leaf(d: Option<nat>): Node
  {
    match d
    case Some(v) => Node(v, 0, v, true)
    case None => Empty
  }

  /**
   * Merging a left and a right node. An invalid child yields the other child; two valid
   * children keep the larger maximum, the left first digit, and the best of the two scores
   * and the cross pair.
   */
  function Combine(l: Node, r: Node, corrected: bool): Node
  {
    if !l.valid && !r.valid then Empty
    else if !l.valid then r
    else if !r.valid then l
    else
      var maxSeen := if l.maxSeen >= r.maxSeen then l.maxSeen else r.maxSeen;
      var cross := l.maxSeen * 10 + (if corrected then r.maxSeen else r.firstDigit);
      var score :=
        if l.score >= r.score && l.score >= cross then l.score
        else if r.score >= l.score && r.score >= cross then r.score
        else cross;
      Node(maxSeen, score, l.firstDigit, true)
  }

  function Leaves(ds: seq<Option<nat>>): (ns: seq<Node>)
    ensures |ns| == |ds|
    ensures forall k | 0 <= k < |ds| :: ns[k] == Leaf(ds[k])
  {
    seq(|ds|, k requires 0 <= k < |ds| => Leaf(ds[k]))
  }

  /** One level of the reduction: node `k` merges nodes `2k` and `2k + 1`. */
  function Level(nodes: seq<Node>, corrected: bool): (r: seq<Node>)
    requires |nodes| % 2 == 0
    ensures |r| == |nodes| / 2
    ensures forall k | 0 <= k < |r| :: r[k] == Combine(nodes[2 * k], nodes[2 * k + 1], corrected)
  {
    if nodes == [] then []
    else [Combine(nodes[0], nodes[1], corrected)] + Level(nodes[2..], corrected)
  }

  /**
   * Reduce level by level to one node; an odd level of more than one node indexes past
   * its end, and an empty line has no node 0, both modelled as `None`.
   */
  function Reduce(nodes: seq<Node>, corrected: bool): Option<Node>
    decreases |nodes|
  {
    if |nodes| == 0 then None
    else if |nodes| == 1 then Some(nodes[0])
    else if |nodes| % 2 == 1 then None
    else Reduce(Level(nodes, corrected), corrected)
  }

  /** The score of the root, 0 when no leaf was valid. */
  function TreeScore(ds: seq<Option<nat>>, corrected: bool): Option<nat>
  {
    match Reduce(Leaves(ds), corrected)
    case None => None
    case Some(n) => Some(if n.valid then n.score else 0)
  }

  predicate PowerOfTwo(n: nat)
  {
    n == 1 || (n > 1 && n % 2 == 0 && PowerOfTwo(n / 2))
  }

  /** The reduction reaches a single node exactly when the line length is a power of two. */
  lemma {:induction false} ReduceDefined(nodes: seq<Node>, corrected: bool)
    ensures Reduce(nodes, corrected).Some? <==> PowerOfTwo(|nodes|)
    decreases |nodes|
  {
    if |nodes| > 1 && |nodes| % 2 == 0 {
      ReduceDefined(Level(nodes, corrected), corrected);
    }
  }

  /** `compute_line_score`: build the leaves, then merge pairs until one node is left. */
  method ComputeLineScore(digits: seq<Option<nat>>, corrected: bool) returns (r: Option<nat>)
    ensures r == TreeScore(digits, corrected)
    ensures r.Some? <==> PowerOfTwo(|digits|)
  {
    ReduceDefined(Leaves(digits), corrected);
    var nodes: seq<Node> := [];
    for k := 0 to |digits|
      invariant |nodes| == k
      invariant forall j | 0 <= j < k :: nodes[j] == Leaf(digits[j])
    {
      nodes := nodes + [Leaf(digits[k])];
    }
    assert nodes == Leaves(digits);
    while |nodes| > 1
      invariant Reduce(nodes, corrected) == Reduce(Leaves(digits), corrected)
      decreases |nodes|
    {
      var next: seq<Node> := [];
      var i := 0;
      while i < |nodes|
        invariant 0 <= i <= |nodes| && i % 2 == 0
        invariant |next| == i / 2
        invariant forall k | 0 <= k < i / 2 :: next[k] == Combine(nodes[2 * k], nodes[2 * k + 1], corrected)
      {
        if i + 1 >= |nodes| {
          // `nodes[i + 1]` is past the end of an odd level
          return None;
        }
        next := next + [Combine(nodes[i], nodes[i + 1], corrected)];
        i := i + 2;
      }
      assert next == Level(nodes, corrected);
      nodes := next;
    }
    if |nodes| == 0 {
      return None;
    }
    r := Some(if nodes[0].valid then nodes[0].score else 0);
  }

  // ---------------------------------------------------------------------------------------
  // What a node knows about the span of leaves below it.

  /** The digits of the valid leaves, in order. */
  function Valids(s: seq<Option<nat>>): (v: seq<nat>)
    ensures |v| <= |s|
  {
    if s == [] then []
    else Valids(s[..|s| - 1]) + (match s[|s| - 1] case Some(d) => [d] case None => [])
  }

  lemma {:induction false} ValidsAppend(a: seq<Option<nat>>, b: seq<Option<nat>>)
    ensures Valids(a + b) == Valids(a) + Valids(b)
  {
    if b != [] {
      assert (a + b)[..|a + b| - 1] == a + b[..|b| - 1];
      ValidsAppend(a, b[..|b| - 1]);
    } else {
      assert a + b == a;
    }
  }

  /** A score that is 0 or the value of a pair of the digits. */
  ghost predicate PairOrZero(v: seq<nat>, x: nat)
  {
    x == 0 || exists i, j | 0 <= i < j < |v| :: x == PairValue(v, i, j)
  }

  /**
   * Node `n` summarises the digits `v`: it is valid exactly when there is a digit, and then
   * its maximum and first digit are those of `v`, its score is at least the first pair, and
   * it is a pair of `v` (as written) or the joltage of `v` (corrected).
   */
  ghost predicate Describes(n: Node, v: seq<nat>, corrected: bool)
  {
    (n.valid <==> v != [])
    && (!n.valid ==> n == Empty)
    && (n.valid ==>
          n.maxSeen == MaxDigit(v) && n.firstDigit == v[0]
          && (|v| >= 2 ==> n.score >= PairValue(v, 0, 1))
          && (if corrected then n.score == Best(v) else PairOrZero(v, n.score)))
  }

  /** Node `n` summarises the span `s` of leaves: it describes the span's valid digits. */
  ghost predicate Summarises(n: Node, s: seq<Option<nat>>, corrected: bool)
  {
    Describes(n, Valids(s), corrected)
  }

  lemma LeafSummarises(d: Option<nat>, corrected: bool)
    ensures Summarises(Leaf(d), [d], corrected)
  {
    assert [d][..0] == [];
  }

  /** The maximum of a concatenation is the larger of the two maxima. */
  lemma MaxDigitAppend(a: seq<nat>, b: seq<nat>)
    requires a != [] && b != []
    ensures MaxDigit(a + b) == Max(MaxDigit(a), MaxDigit(b))
  {
    var m := Max(MaxDigit(a), MaxDigit(b));
    var s := a + b;
    MaxDigitIsMax(a);
    MaxDigitIsMax(b);
    MaxDigitIsMax(s);
    forall k | 0 <= k < |s|
      ensures s[k] <= m
    {
      if k < |a| {
        assert s[k] == a[k];
      } else {
        assert s[k] == b[k - |a|];
      }
    }
    var i :| 0 <= i < |a| && a[i] == MaxDigit(a);
    var j :| 0 <= j < |b| && b[j] == MaxDigit(b);
    assert s[i] == a[i] && s[|a| + j] == b[j];
    var w :| 0 <= w < |s| && s[w] == MaxDigit(s);
  }

  /** A pair of either half is a pair of the concatenation, and so is a pair across them. */
  lemma PairsOfAppend(a: seq<nat>, b: seq<nat>, x: nat)
    requires PairOrZero(a, x) || PairOrZero(b, x)
      || (a != [] && b != [] && exists i, j | 0 <= i < |a| && 0 <= j < |b| :: x == 10 * a[i] + b[j])
    ensures PairOrZero(a + b, x)
  {
    var s := a + b;
    if x == 0 {
    } else if PairOrZero(a, x) {
      var i, j :| 0 <= i < j < |a| && x == PairValue(a, i, j);
      assert PairValue(s, i, j) == x;
    } else if PairOrZero(b, x) {
      var i, j :| 0 <= i < j < |b| && x == PairValue(b, i, j);
      assert PairValue(s, |a| + i, |a| + j) == x;
    } else {
      var i, j :| 0 <= i < |a| && 0 <= j < |b| && x == 10 * a[i] + b[j];
      assert PairValue(s, i, |a| + j) == x;
    }
  }

  /** The joltage of a concatenation: the best of either half and of the best cross pair. */
  lemma {:induction false} BestAppend(a: seq<nat>, b: seq<nat>)
    requires a != [] && b != []
    ensures Best(a + b) == Max(Max(Best(a), Best(b)), 10 * MaxDigit(a) + MaxDigit(b))
    decreases |b|
  {
    var p, z := b[..|b| - 1], b[|b| - 1];
    BestAppendLast(a, b);
    if p == [] {
      SingleDigit(b);
    } else {
      BestAppend(a, p);
      MaxDigitAppend(a, p);
      BestLast(b);
      MaxDigitLast(b);
      CrossMax(Best(a + b), Best(a + p), MaxDigit(a + p), Best(b), MaxDigit(b),
               Best(a), Best(p), MaxDigit(a), MaxDigit(p), z);
    }
  }

  lemma BestAppendLast(a: seq<nat>, b: seq<nat>)
    requires a != [] && b != []
    ensures Best(a + b) == Max(Best(a + b[..|b| - 1]), 10 * MaxDigit(a + b[..|b| - 1]) + b[|b| - 1])
  {
    var s := a + b;
    assert s[..|s| - 1] == a + b[..|b| - 1];
    BestLast(s);
  }

  /** One more digit: the old joltage or the old maximum followed by the new digit. */
  lemma BestLast(d: seq<nat>)
    requires |d| >= 2
    ensures Best(d) == Max(Best(d[..|d| - 1]), 10 * MaxDigit(d[..|d| - 1]) + d[|d| - 1])
  {
  }

  lemma MaxDigitLast(d: seq<nat>)
    requires |d| >= 2
    ensures MaxDigit(d) == Max(MaxDigit(d[..|d| - 1]), d[|d| - 1])
  {
  }

  lemma SingleDigit(d: seq<nat>)
    requires |d| == 1
    ensures Best(d) == 0 && MaxDigit(d) == d[0]
  {
  }

  /** The arithmetic of one induction step of `BestAppend`. */
  lemma CrossMax(bab: int, bap: int, mab: int, bb: int, mb: int, ba: int, bp: int, ma: int, mp: int, z: int)
    requires bab == Max(bap, 10 * mab + z)
    requires bap == Max(Max(ba, bp), 10 * ma + mp) && mab == Max(ma, mp)
    requires bb == Max(bp, 10 * mp + z) && mb == Max(mp, z)
    ensures bab == Max(Max(ba, bb), 10 * ma + mb)
  {
  }

  /** Merging two valid nodes describes the concatenation of their digits. */
  lemma CombineBothValid(l: Node, r: Node, va: seq<nat>, vb: seq<nat>, corrected: bool)
    requires l.valid && r.valid
    requires Describes(l, va, corrected) && Describes(r, vb, corrected)
    ensures Describes(Combine(l, r, corrected), va + vb, corrected)
  {
    var v := va + vb;
    var n := Combine(l, r, corrected);
    MaxDigitAppend(va, vb);
    assert v[0] == va[0];
    var cross := l.maxSeen * 10 + (if corrected then r.maxSeen else r.firstDigit);
    assert n.score == Max(Max(l.score, r.score), cross);
    if |va| >= 2 {
      assert PairValue(v, 0, 1) == PairValue(va, 0, 1);
    } else {
      assert v[1] == vb[0];
      MaxDigitIsMax(vb);
      assert r.firstDigit <= r.maxSeen;
    }
    if corrected {
      BestAppend(va, vb);
    } else {
      CrossIsPair(l, r, va, vb);
    }
  }

  /** As written, the merged score is one of three pairs of the concatenation. */
  lemma CrossIsPair(l: Node, r: Node, va: seq<nat>, vb: seq<nat>)
    requires l.valid && r.valid
    requires Describes(l, va, false) && Describes(r, vb, false)
    ensures PairOrZero(va + vb, Combine(l, r, false).score)
  {
    var n := Combine(l, r, false);
    var cross := l.maxSeen * 10 + r.firstDigit;
    MaxDigitIsMax(va);
    var ia :| 0 <= ia < |va| && va[ia] == MaxDigit(va);
    assert cross == 10 * va[ia] + vb[0];
    if n.score == l.score {
      PairsOfAppend(va, vb, l.score);
    } else if n.score == r.score {
      PairsOfAppend(va, vb, r.score);
    } else {
      PairsOfAppend(va, vb, cross);
    }
  }

  /** Merging two nodes summarises the concatenation of their spans. */
  lemma CombineSummarises(l: Node, r: Node, a: seq<Option<nat>>, b: seq<Option<nat>>, corrected: bool)
    requires Summarises(l, a, corrected) && Summarises(r, b, corrected)
    ensures Summarises(Combine(l, r, corrected), a + b, corrected)
  {
    ValidsAppend(a, b);
    var va, vb := Valids(a), Valids(b);
    if !l.valid {
      assert va + vb == vb;
    } else if !r.valid {
      assert va + vb == va;
    } else {
      CombineBothValid(l, r, va, vb, corrected);
    }
  }

  /** Concatenation of a list of spans, front first. */
  function Concat(ss: seq<seq<Option<nat>>>): seq<Option<nat>>
  {
    if ss == [] then [] else ss[0] + Concat(ss[1..])
  }

  /** The spans of the next level: span `k` joins spans `2k` and `2k + 1`. */
  function Pairs(ss: seq<seq<Option<nat>>>): (r: seq<seq<Option<nat>>>)
    requires |ss| % 2 == 0
    ensures |r| == |ss| / 2
    ensures forall k | 0 <= k < |r| :: r[k] == ss[2 * k] + ss[2 * k + 1]
  {
    if ss == [] then [] else [ss[0] + ss[1]] + Pairs(ss[2..])
  }

  lemma {:induction false} ConcatPairs(ss: seq<seq<Option<nat>>>)
    requires |ss| % 2 == 0
    ensures Concat(Pairs(ss)) == Concat(ss)
  {
    if ss != [] {
      ConcatPairs(ss[2..]);
      assert ss[1..][1..] == ss[2..];
      assert Pairs(ss)[1..] == Pairs(ss[2..]);
    }
  }

  /** The spans of the leaves: one leaf each. */
  function Singletons(ds: seq<Option<nat>>): (ss: seq<seq<Option<nat>>>)
    ensures |ss| == |ds|
    ensures forall k | 0 <= k < |ds| :: ss[k] == [ds[k]]
  {
    seq(|ds|, k requires 0 <= k < |ds| => [ds[k]])
  }

  lemma {:induction false} ConcatSingletons(ds: seq<Option<nat>>)
    ensures Concat(Singletons(ds)) == ds
  {
    if ds != [] {
      assert Singletons(ds)[1..] == Singletons(ds[1..]);
      ConcatSingletons(ds[1..]);
    }
  }

  /** Each level's nodes summarise the spans that tile the line. */
  lemma {:induction false} ReduceSummarises(nodes: seq<Node>, ss: seq<seq<Option<nat>>>, corrected: bool)
    requires |ss| == |nodes|
    requires forall k | 0 <= k < |nodes| :: Summarises(nodes[k], ss[k], corrected)
    requires Reduce(nodes, corrected).Some?
    ensures Summarises(Reduce(nodes, corrected).value, Concat(ss), corrected)
    decreases |nodes|
  {
    if |nodes| == 1 {
      assert Concat(ss) == ss[0] + Concat([]);
      assert ss[0] + [] == ss[0];
    } else {
      var next := Level(nodes, corrected);
      var spans := Pairs(ss);
      forall k | 0 <= k < |next|
        ensures Summarises(next[k], spans[k], corrected)
      {
        CombineSummarises(nodes[2 * k], nodes[2 * k + 1], ss[2 * k], ss[2 * k + 1], corrected);
      }
      ReduceSummarises(next, spans, corrected);
      ConcatPairs(ss);
    }
  }

  /** The root summarises the whole line. */
  lemma RootSummarises(ds: seq<Option<nat>>, corrected: bool)
    requires Reduce(Leaves(ds), corrected).Some?
    ensures Summarises(Reduce(Leaves(ds), corrected).value, ds, corrected)
  {
    var ss := Singletons(ds);
    forall k | 0 <= k < |ds|
      ensures Summarises(Leaves(ds)[k], ss[k], corrected)
    {
      LeafSummarises(ds[k], corrected);
    }
    ReduceSummarises(Leaves(ds), ss, corrected);
    ConcatSingletons(ds);
  }

  /**
   * As written, the tree's score is 0 or a real pair of the line's digits, so it never
   * exceeds the joltage, and it is at least the line's first pair.
   */
  lemma TreeScoreSound(ds: seq<Option<nat>>)
    requires TreeScore(ds, false).Some?
    ensures PairOrZero(Valids(ds), TreeScore(ds, false).value)
    ensures TreeScore(ds, false).value <= Best(Valids(ds))
    ensures |Valids(ds)| >= 2 ==> TreeScore(ds, false).value >= PairValue(Valids(ds), 0, 1)
  {
    RootSummarises(ds, false);
    var v := Valids(ds);
    var x := TreeScore(ds, false).value;
    BestIsBestPair(v);
    if x != 0 {
      var i, j :| 0 <= i < j < |v| && x == PairValue(v, i, j);
    }
  }

  /** The corrected tree computes the joltage of the line's digits exactly. */
  lemma TreeScoreExact(ds: seq<Option<nat>>)
    requires PowerOfTwo(|ds|)
    ensures TreeScore(ds, true) == Some(Best(Valids(ds)))
  {
    ReduceDefined(Leaves(ds), true);
    RootSummarises(ds, true);
  }

  /** As written, `[9, 1, 1, 8]` scores 91 although its joltage is 98; corrected, it scores 98. */
  lemma FirstDigitCross()
    ensures TreeScore([Some(9), Some(1), Some(1), Some(8)], false) == Some(91)
    ensures Best([9, 1, 1, 8]) == 98
    ensures TreeScore([Some(9), Some(1), Some(1), Some(8)], true) == Some(98)
  {
    var ds := [Some(9), Some(1), Some(1), Some(8)];
    var ls := Leaves(ds);
    assert ls == [Node(9, 0, 9, true), Node(1, 0, 1, true), Node(1, 0, 1, true), Node(8, 0, 8, true)];
    var l1 := Level(ls, false);
    assert l1 == [Node(9, 91, 9, true), Node(8, 18, 1, true)];
    assert Level(l1, false) == [Node(9, 91, 9, true)];
    var c1 := Level(ls, true);
    assert c1 == [Node(9, 91, 9, true), Node(8, 18, 1, true)];
    assert Level(c1, true) == [Node(9, 98, 9, true)];
    var d: seq<nat> := [9, 1, 1, 8];
    forall i, j | 0 <= i < j < |d|
      ensures PairValue(d, i, j) <= 98
    {
      assert d[i] <= 9 && d[j] <= 8;
    }
    assert PairValue(d, 0, 3) == 98;
    BestOf(d, 98);
  }

  // ---------------------------------------------------------------------------------------
  // The result ROM: every line padded or cut to 128 digits, then reduced.

  const Width: nat := 128

  lemma WidthIsPowerOfTwo()
    ensures PowerOfTwo(Width)
  {
    assert PowerOfTwo(1);
    assert PowerOfTwo(2);
    assert PowerOfTwo(4);
    assert PowerOfTwo(8);
    assert PowerOfTwo(16);
    assert PowerOfTwo(32);
    assert PowerOfTwo(64);
  }

  /**
   * The leaves of a line: its digits, padded to 128 with zero digits (as written) or with
   * missing digits (corrected), and cut to 128.
   */
  function Fit(ds: seq<nat>, corrected: bool): (r: seq<Option<nat>>)
    ensures |r| == Width
  {
    seq(Width, k requires 0 <= k < Width =>
      if k < |ds| then Some(ds[k]) else if corrected then None else Some(0))
  }

  /** `while len(digits) < 128: digits.append(0)`, then `digits[:128]`. */
  method PadDigits(ds: seq<nat>, corrected: bool) returns (leaves: seq<Option<nat>>)
    ensures leaves == Fit(ds, corrected)
  {
    leaves := seq(|ds|, k requires 0 <= k < |ds| => Some(ds[k]));
    while |leaves| < Width
      invariant |leaves| <= Width ==> |leaves| >= |ds|
      invariant forall k | 0 <= k < |leaves| ::
        leaves[k] == if k < |ds| then Some(ds[k]) else if corrected then None else Some(0)
      decreases Width - |leaves|
    {
      leaves := leaves + [if corrected then None else Some(0)];
    }
    leaves := leaves[..Width];
  }

  /** With missing-digit padding, the valid leaves are the line's first 128 digits. */
  lemma {:induction false} ValidsOfFit(ds: seq<nat>, n: nat)
    requires n <= Width
    ensures Valids(Fit(ds, true)[..n]) == ds[..Min(n, |ds|)]
  {
    if n > 0 {
      var f := Fit(ds, true);
      assert f[..n][..n - 1] == f[..n - 1];
      ValidsOfFit(ds, n - 1);
      if n <= |ds| {
        assert ds[..n] == ds[..n - 1] + [ds[n - 1]];
      }
    }
  }

  /** The corrected tree agrees with the streaming joltage on every line of at most 128 digits. */
  lemma CorrectedMatchesStreaming(ds: seq<nat>)
    requires |ds| <= Width
    ensures TreeScore(Fit(ds, true), true) == Some(Best(ds))
  {
    WidthIsPowerOfTwo();
    TreeScoreExact(Fit(ds, true));
    ValidsOfShortFit(ds);
  }

  /** A line of at most 128 digits comes back whole from its padded leaves. */
  lemma ValidsOfShortFit(ds: seq<nat>)
    requires |ds| <= Width
    ensures Valids(Fit(ds, true)) == ds
  {
    ValidsOfFit(ds, Width);
    assert Fit(ds, true)[..Width] == Fit(ds, true);
    assert ds[..|ds|] == ds;
  }

  /** With zero padding, the valid leaves are the 128 fitted digits themselves. */
  lemma {:induction false} ValidsOfZeroFit(ds: seq<nat>, n: nat)
    requires n <= Width
    ensures |Valids(Fit(ds, false)[..n])| == n
    ensures forall k | 0 <= k < n :: Valids(Fit(ds, false)[..n])[k] == Fit(ds, false)[k].value
  {
    if n > 0 {
      var f := Fit(ds, false);
      assert f[..n][..n - 1] == f[..n - 1];
      ValidsOfZeroFit(ds, n - 1);
    }
  }

  /**
   * As written, a one-digit line `x` becomes `x` followed by 127 zero digits and scores
   * `10 * x` (90 for the line "9"), while a line with fewer than two digits has joltage 0,
   * which the corrected tree returns.
   */
  lemma ZeroPadding(x: nat)
    ensures TreeScore(Fit([x], false), false) == Some(10 * x)
    ensures Best([x]) == 0
    ensures TreeScore(Fit([x], true), true) == Some(0)
  {
    var f := Fit([x], false);
    WidthIsPowerOfTwo();
    ReduceDefined(Leaves(f), false);
    ValidsOfZeroFit([x], Width);
    assert f[..Width] == f;
    var v := Valids(f);
    OneDigitThenZeros(v, x);
    TreeScoreSound(f);
    CorrectedMatchesStreaming([x]);
  }

  /** The joltage of `x` followed by zeros is `10 * x`. */
  lemma OneDigitThenZeros(v: seq<nat>, x: nat)
    requires |v| >= 2 && v[0] == x && forall k | 1 <= k < |v| :: v[k] == 0
    ensures Best(v) == 10 * x == PairValue(v, 0, 1)
  {
    forall i, j | 0 <= i < j < |v|
      ensures PairValue(v, i, j) <= 10 * x
    {
      assert v[j] == 0;
      if i > 0 {
        assert v[i] == 0;
      }
    }
    assert PairValue(v, 0, 1) == 10 * x;
    BestOf(v, 10 * x);
  }

  /** The score of one line's digits, fitted to 128 leaves and reduced. */
  function LineTreeScore(line: string, corrected: bool): nat
  {
    WidthIsPowerOfTwo();
    ReduceDefined(Leaves(Fit(DigitsOf(line), corrected)), corrected);
    TreeScore(Fit(DigitsOf(line), corrected), corrected).value
  }

  /** The non-empty raw lines of `f.read().strip().split('\n')`. */
  function NonEmpty(ls: seq<string>): (r: seq<string>)
    ensures |r| <= |ls|
  {
    if ls == [] then []
    else NonEmpty(ls[..|ls| - 1]) + (if ls[|ls| - 1] == [] then [] else [ls[|ls| - 1]])
  }

  function TreeResults(ls: seq<string>, corrected: bool): (r: seq<nat>)
    ensures |r| == |ls|
    ensures forall k | 0 <= k < |ls| :: r[k] == LineTreeScore(ls[k], corrected)
  {
    seq(|ls|, k requires 0 <= k < |ls| => LineTreeScore(ls[k], corrected))
  }

  /** The corrected tree's results are the streaming results of every line of at most 128 digits. */
  lemma CorrectedResults(ls: seq<string>)
    requires forall k | 0 <= k < |ls| :: |DigitsOf(ls[k])| <= Width
    ensures TreeResults(ls, true) == LineResults(ls)
  {
    forall k | 0 <= k < |ls|
      ensures TreeResults(ls, true)[k] == LineResults(ls)[k]
    {
      CorrectedMatchesStreaming(DigitsOf(ls[k]));
    }
  }

  lemma NonEmptySkip(raw: seq<string>, i: nat)
    requires i < |raw| && raw[i] == []
    ensures NonEmpty(raw[..i + 1]) == NonEmpty(raw[..i])
  {
    assert raw[..i + 1][..i] == raw[..i];
  }

  lemma NonEmptyStep(raw: seq<string>, i: nat)
    requires i < |raw| && raw[i] != []
    ensures NonEmpty(raw[..i + 1]) == NonEmpty(raw[..i]) + [raw[i]]
  {
    assert raw[..i + 1][..i] == raw[..i];
  }

  /** One line of the result precomputation: parse, pad, reduce. */
  method TreeLine(line: string, corrected: bool) returns (score: nat)
    ensures score == LineTreeScore(line, corrected)
  {
    var digits := DigitsOf(line);
    var leaves := PadDigits(digits, corrected);
    WidthIsPowerOfTwo();
    var r := ComputeLineScore(leaves, corrected);
    score := r.value;
  }

  /** The per-line tree scores of the non-empty lines, in input order. */
  method CollectTreeResults(raw: seq<string>, corrected: bool) returns (results: seq<nat>)
    ensures results == TreeResults(NonEmpty(raw), corrected)
  {
    results := [];
    for i := 0 to |raw|
      invariant results == TreeResults(NonEmpty(raw[..i]), corrected)
    {
      var line := raw[i];
      if line == [] {
        NonEmptySkip(raw, i);
        continue;
      }
      NonEmptyStep(raw, i);
      var score := TreeLine(line, corrected);
      ghost var prev := NonEmpty(raw[..i]);
      assert TreeResults(prev + [line], corrected) == TreeResults(prev, corrected) + [score];
      results := results + [score];
    }
    assert raw[..|raw|] == raw;
  }

  /**
   * The tree-reduction result precomputation: one 8-digit hex line per non-empty line, and
   * the total of the scores.
   */
  method PrecomputeTreeResults(text: string, corrected: bool) returns (hex: seq<string>, total: int)
    ensures hex == ResultLines(TreeResults(NonEmpty(Split(Strip(text), '\n')), corrected))
    ensures total == Sum(TreeResults(NonEmpty(Split(Strip(text), '\n')), corrected))
  {
    var results := CollectTreeResults(Split(Strip(text), '\n'), corrected);
    hex := WriteResults(results);
    total := 0;
    for i := 0 to |results|
      invariant total == Sum(results[..i])
    {
      assert results[..i + 1][..i] == results[..i];
      total := total + results[i];
    }
    assert results[..|results|] == results;
  }

  // ---------------------------------------------------------------------------------------
  // The cumulative result ROM.

  /** Entry `k` holds the total of the first `k + 1` scores. */
  function RunningTotals(scores: seq<nat>): (r: seq<nat>)
    ensures |r| == |scores|
  {
    seq(|scores|, k requires 0 <= k < |scores| => NatSum(scores[..k + 1]))
  }

  function NatSum(s: seq<nat>): (t: nat)
    ensures t == Sum(s)
  {
    SumNonNegative(s);
    Sum(s)
  }

  /** The running totals never decrease, and the last one is the total of all scores. */
  lemma RunningTotalsProperties(scores: seq<nat>)
    ensures forall k | 0 < k < |scores| :: RunningTotals(scores)[k - 1] <= RunningTotals(scores)[k]
    ensures scores != [] ==> RunningTotals(scores)[|scores| - 1] == Sum(scores)
  {
    forall k | 0 < k < |scores|
      ensures RunningTotals(scores)[k - 1] <= RunningTotals(scores)[k]
    {
      assert scores[..k + 1][..k] == scores[..k];
    }
    assert scores[..|scores|] == scores;
  }

  /** `cumulative += score; results.append(cumulative)` over the lines' scores. */
  method Cumulate(scores: seq<nat>) returns (results: seq<nat>)
    ensures results == RunningTotals(scores)
  {
    results := [];
    var cumulative: nat := 0;
    for i := 0 to |scores|
      invariant |results| == i
      invariant cumulative == Sum(scores[..i])
      invariant forall k | 0 <= k < i :: results[k] == Sum(scores[..k + 1])
    {
      assert scores[..i + 1][..i] == scores[..i];
      cumulative := cumulative + scores[i];
      results := results + [cumulative];
    }
  }

  /** The cumulative precomputation: one 8-digit hex running total per non-empty line. */
  method PrecomputeCumulative(text: string, corrected: bool) returns (hex: seq<string>)
    ensures hex == ResultLines(RunningTotals(TreeResults(NonEmpty(Split(Strip(text), '\n')), corrected)))
  {
    var scores := CollectTreeResults(Split(Strip(text), '\n'), corrected);
    var sums := Cumulate(scores);
    hex := WriteResults(sums);
  }
}
