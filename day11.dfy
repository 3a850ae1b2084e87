/**
 * Day 11: count the paths from device `you` to device `out` in a graph given as lines
 * `name: dest1 dest2 ...`. The count is a depth-first sum memoised per node; it stops at
 * `out` and only terminates when the part of the graph it explores has no cycle, which the
 * model states with a ghost ranking that strictly falls along every explored edge.
 */
module Day11 {
  import opened Common
  import opened PyText

  type Graph = map<string, seq<string>>

  /**
   * One line `src: dests`: the text before the first ':' and the whitespace-separated words
   * between the first and second ':'. A line without ':' has no `parts[1]` and raises.
   */
  function Entry(line: string): (e: Option<(string, seq<string>)>)
    ensures e.None? <==> ':' !in line
  {
    var parts := Split(line, ':');
    if |parts| < 2 then None
    else
      var dests := Strip(parts[1]);
      Some((Strip(parts[0]), if dests != [] then SplitWs(dests) else []))
  }

  /** The adjacency dictionary after the lines, each line overwriting its source's entry. */
  function Adjacency(lines: seq<string>): Option<Graph>
  {
    if lines == [] then Some(map[])
    else
      match Adjacency(lines[..|lines| - 1])
      case None => None
      case Some(adj) =>
        match Entry(lines[|lines| - 1])
        case None => None
        case Some((src, dests)) => Some(adj[src := dests])
  }

  /** Line `k` has source `src`. */
  predicate SourceAt(lines: seq<string>, k: int, src: string)
  {
    0 <= k < |lines| && Entry(lines[k]).Some? && Entry(lines[k]).value.0 == src
  }

  /** Reading fails exactly when some line has no ':'. */
  lemma AdjacencyFails(lines: seq<string>)
    ensures Adjacency(lines).None? <==> exists k :: 0 <= k < |lines| && ':' !in lines[k]
  {
    if Adjacency(lines).None? {
      var k := FailingLine(lines);
    } else {
      forall k | 0 <= k < |lines|
        ensures ':' in lines[k]
      {
        ColonLine(lines, k);
      }
    }
  }

  /** When reading fails, some line has no ':'. */
  lemma {:induction false} FailingLine(lines: seq<string>) returns (k: nat)
    requires Adjacency(lines).None?
    ensures k < |lines| && ':' !in lines[k]
  {
    var init := lines[..|lines| - 1];
    AdjacencyNoneStep(lines);
    if Adjacency(init).None? {
      k := FailingLine(init);
      assert init[k] == lines[k];
    } else {
      k := |lines| - 1;
    }
  }

  /** When reading succeeds, every line has a ':'. */
  lemma {:induction false} ColonLine(lines: seq<string>, k: nat)
    requires Adjacency(lines).Some? && k < |lines|
    ensures ':' in lines[k]
  {
    var init := lines[..|lines| - 1];
    AdjacencyNoneStep(lines);
    assert Adjacency(init).Some? && ':' in lines[|lines| - 1];
    if k < |init| {
      ColonLine(init, k);
      assert init[k] == lines[k];
    } else {
      assert k == |lines| - 1;
    }
  }

  lemma AdjacencyNoneStep(lines: seq<string>)
    requires lines != []
    ensures Adjacency(lines).None?
      <==> Adjacency(lines[..|lines| - 1]).None? || ':' !in lines[|lines| - 1]
  {
  }

  /** The keys are exactly the sources of the lines. */
  lemma {:induction false} AdjacencyKeys(lines: seq<string>, adj: Graph, src: string)
    requires Adjacency(lines) == Some(adj)
    ensures src in adj <==> exists k :: SourceAt(lines, k, src)
  {
    if lines != [] {
      var init := lines[..|lines| - 1];
      var prev := Adjacency(init).value;
      AdjacencyKeys(init, prev, src);
      var last := |lines| - 1;
      var e := Entry(lines[last]);
      assert adj == prev[e.value.0 := e.value.1];
      if src == e.value.0 {
        assert SourceAt(lines, last, src);
      } else {
        if src in prev {
          var k :| SourceAt(init, k, src);
          assert init[k] == lines[k];
          assert SourceAt(lines, k, src);
        }
        if exists k :: SourceAt(lines, k, src) {
          var k :| SourceAt(lines, k, src);
          assert k != last;
          assert init[k] == lines[k];
          assert SourceAt(init, k, src);
        }
      }
    }
  }

  /** No line after `k` has source `src`. */
  predicate LastFor(lines: seq<string>, k: int, src: string)
  {
    SourceAt(lines, k, src) && forall j :: k < j < |lines| ==> !SourceAt(lines, j, src)
  }

  /** A source maps to the destinations of its LAST line: a later line replaces an earlier one. */
  lemma {:induction false} LastLineWins(lines: seq<string>, adj: Graph, src: string, k: nat)
    requires Adjacency(lines) == Some(adj) && LastFor(lines, k, src)
    ensures src in adj && adj[src] == Entry(lines[k]).value.1
  {
    var init := lines[..|lines| - 1];
    var last := |lines| - 1;
    var prev := Adjacency(init).value;
    var e := Entry(lines[last]);
    assert adj == prev[e.value.0 := e.value.1];
    if k < last {
      LastForPrefix(lines, k, src);
      LastLineWins(init, prev, src, k);
      assert init[k] == lines[k];
    } else {
      assert k == last;
      assert e == Entry(lines[k]);
    }
  }

  /** Dropping a final line that is not for `src` keeps line `k` the last one for it. */
  lemma LastForPrefix(lines: seq<string>, k: nat, src: string)
    requires LastFor(lines, k, src) && k < |lines| - 1
    ensures LastFor(lines[..|lines| - 1], k, src)
    ensures Entry(lines[|lines| - 1]).Some? ==> Entry(lines[|lines| - 1]).value.0 != src
  {
    var init := lines[..|lines| - 1];
    assert !SourceAt(lines, |lines| - 1, src);
    assert init[k] == lines[k];
    forall j | k < j < |init|
      ensures !SourceAt(init, j, src)
    {
      assert init[j] == lines[j];
      assert !SourceAt(lines, j, src);
    }
  }

  /** The `for line in lines` loop building `adj`; `None` when `parts[1]` raises. */
  method ReadGraph(lines: seq<string>) returns (g: Option<Graph>)
    ensures g == Adjacency(lines)
  {
    var adj: Graph := map[];
    var k := 0;
    while k < |lines|
      invariant 0 <= k <= |lines| && Adjacency(lines[..k]) == Some(adj)
    {
      AdjacencyStep(lines, k);
      var e := Entry(lines[k]);
      if e.None? {
        AdjacencyStops(lines, k + 1);
        return None;
      }
      var (src, dests) := e.value;
      adj := adj[src := dests];
      k := k + 1;
    }
    assert lines[..k] == lines;
    g := Some(adj);
  }

  /** Reading one more line applies that line's entry, or fails. */
  lemma AdjacencyStep(lines: seq<string>, k: nat)
    requires k < |lines|
    ensures Adjacency(lines[..k + 1]) ==
      if Adjacency(lines[..k]).None? || Entry(lines[k]).None? then None
      else Some(Adjacency(lines[..k]).value[Entry(lines[k]).value.0 := Entry(lines[k]).value.1])
  {
    assert lines[..k + 1][..k] == lines[..k];
  }

  /** Once a prefix fails to read, the whole input does. */
  lemma {:induction false} AdjacencyStops(lines: seq<string>, k: nat)
    requires k <= |lines| && Adjacency(lines[..k]).None?
    ensures Adjacency(lines).None?
    decreases |lines| - k
  {
    if k < |lines| {
      assert lines[..k + 1][..k] == lines[..k];
      AdjacencyStops(lines, k + 1);
    } else {
      assert lines[..k] == lines;
    }
  }

  /**
   * `rank` falls strictly along every edge out of a ranked node that the count follows:
   * from a node other than `out` that has an entry to a child that has one too. Such a
   * ranking exists exactly when no cycle is reachable from the ranked nodes.
   */
  ghost predicate Ranked(adj: Graph, rank: map<string, nat>)
  {
    forall u, i :: u in rank && u in adj && u != "out" && 0 <= i < |adj[u]|
      && adj[u][i] in adj && adj[u][i] != "out"
      ==> adj[u][i] in rank && rank[adj[u][i]] < rank[u]
  }

  /** The count from `u` is covered by the ranking (or stops at once). */
  ghost predicate Covers(adj: Graph, rank: map<string, nat>, u: string)
  {
    u == "out" || u !in adj || u in rank
  }

  /** The recursion depth bound: nodes where the count stops are lowest. */
  ghost function Height(adj: Graph, rank: map<string, nat>, u: string): nat
    requires Covers(adj, rank, u)
  {
    if u == "out" || u !in adj then 0 else rank[u] + 1
  }

  /**
   * The unmemoised `count_paths(u)`: 1 at `out`, otherwise the sum over the destination
   * list (a repeated destination counts each time), 0 for a node without an entry.
   */
  ghost function Count(adj: Graph, rank: map<string, nat>, u: string): nat
    requires Ranked(adj, rank) && Covers(adj, rank, u)
    decreases Height(adj, rank, u), 1, 0
  {
    if u == "out" then 1
    else if u !in adj then 0
    else ChildSum(adj, rank, u, |adj[u]|)
  }

  /** The counts of the first `k` destinations of `u`, added up. */
  ghost function ChildSum(adj: Graph, rank: map<string, nat>, u: string, k: nat): nat
    requires Ranked(adj, rank) && u in adj && u != "out" && u in rank && k <= |adj[u]|
    decreases Height(adj, rank, u), 0, k
  {
    if k == 0 then 0
    else
      var v := adj[u][k - 1];
      assert Covers(adj, rank, v) && Height(adj, rank, v) < Height(adj, rank, u);
      ChildSum(adj, rank, u, k - 1) + Count(adj, rank, v)
  }

  /** Every stored entry equals the unmemoised count. */
  ghost predicate MemoSound(adj: Graph, rank: map<string, nat>, memo: map<string, nat>)
  {
    Ranked(adj, rank) && forall w :: w in memo ==> Covers(adj, rank, w) && memo[w] == Count(adj, rank, w)
  }

  /**
   * `count_paths(u)` with the dictionary `memo` passed in and out: it returns the path
   * count, keeps every stored entry equal to the unmemoised count, and only adds entries.
   */
  method CountPaths(adj: Graph, ghost rank: map<string, nat>, u: string, memo: map<string, nat>)
    returns (total: nat, memo': map<string, nat>)
    requires MemoSound(adj, rank, memo) && Covers(adj, rank, u)
    ensures total == Count(adj, rank, u)
    ensures MemoSound(adj, rank, memo')
    ensures forall w :: w in memo ==> w in memo' && memo'[w] == memo[w]
    decreases Height(adj, rank, u)
  {
    if u == "out" {
      return 1, memo;
    }
    if u in memo {
      return memo[u], memo;
    }
    total := 0;
    memo' := memo;
    if u in adj {
      var dests := adj[u];
      var k := 0;
      while k < |dests|
        invariant 0 <= k <= |dests| && total == ChildSum(adj, rank, u, k)
        invariant MemoSound(adj, rank, memo')
        invariant forall w :: w in memo ==> w in memo' && memo'[w] == memo[w]
      {
        var v := dests[k];
        assert Covers(adj, rank, v) && Height(adj, rank, v) < Height(adj, rank, u);
        var c;
        c, memo' := CountPaths(adj, rank, v, memo');
        total := total + c;
        k := k + 1;
      }
    }
    memo' := memo'[u := total];
  }

  /** A walk that follows destination lists and stops the first time it reaches `out`. */
  predicate Walk(adj: Graph, p: seq<string>)
  {
    forall i :: 0 <= i < |p| - 1 ==> p[i] != "out" && p[i] in adj && p[i + 1] in adj[p[i]]
  }

  predicate PathToOut(adj: Graph, u: string, p: seq<string>)
  {
    |p| >= 1 && p[0] == u && p[|p| - 1] == "out" && Walk(adj, p)
  }

  /** The count is positive exactly when some walk leads from `u` to `out`. */
  lemma CountPositive(adj: Graph, rank: map<string, nat>, u: string)
    requires Ranked(adj, rank) && Covers(adj, rank, u)
    ensures Count(adj, rank, u) > 0 <==> exists p :: PathToOut(adj, u, p)
  {
    if Count(adj, rank, u) > 0 {
      var p := PathFromCount(adj, rank, u);
    }
    if exists p :: PathToOut(adj, u, p) {
      var p :| PathToOut(adj, u, p);
      CountFromPath(adj, rank, p);
    }
  }

  /** A positive count yields a walk to `out`. */
  lemma {:induction false} PathFromCount(adj: Graph, rank: map<string, nat>, u: string)
    returns (p: seq<string>)
    requires Ranked(adj, rank) && Covers(adj, rank, u) && Count(adj, rank, u) > 0
    ensures PathToOut(adj, u, p)
    decreases Height(adj, rank, u)
  {
    if u == "out" {
      p := [u];
    } else {
      var i := PositiveChild(adj, rank, u, |adj[u]|);
      var v := adj[u][i];
      assert Covers(adj, rank, v) && Height(adj, rank, v) < Height(adj, rank, u);
      var q := PathFromCount(adj, rank, v);
      p := [u] + q;
      forall j | 0 <= j < |p| - 1
        ensures p[j] != "out" && p[j] in adj && p[j + 1] in adj[p[j]]
      {
        if j > 0 {
          assert p[j] == q[j - 1] && p[j + 1] == q[j];
        }
      }
    }
  }

  /** A positive partial sum has a destination with a positive count. */
  lemma {:induction false} PositiveChild(adj: Graph, rank: map<string, nat>, u: string, k: nat)
    returns (i: nat)
    requires Ranked(adj, rank) && u in adj && u != "out" && u in rank && k <= |adj[u]|
    requires ChildSum(adj, rank, u, k) > 0
    ensures i < k && Covers(adj, rank, adj[u][i]) && Count(adj, rank, adj[u][i]) > 0
  {
    var v := adj[u][k - 1];
    assert Covers(adj, rank, v);
    if Count(adj, rank, v) > 0 {
      i := k - 1;
    } else {
      i := PositiveChild(adj, rank, u, k - 1);
    }
  }

  /** A walk to `out` makes the count of its first node positive. */
  lemma {:induction false} CountFromPath(adj: Graph, rank: map<string, nat>, p: seq<string>)
    requires Ranked(adj, rank) && |p| >= 1 && Covers(adj, rank, p[0]) && PathToOut(adj, p[0], p)
    ensures Count(adj, rank, p[0]) > 0
  {
    if |p| > 1 {
      var u, v := p[0], p[1];
      assert u != "out" && u in adj && v in adj[u];
      var i :| 0 <= i < |adj[u]| && adj[u][i] == v;
      assert Covers(adj, rank, v);
      assert PathToOut(adj, v, p[1..]) by {
        forall j | 0 <= j < |p[1..]| - 1
          ensures p[1..][j] != "out" && p[1..][j] in adj && p[1..][j + 1] in adj[p[1..][j]]
        {
          assert p[1..][j] == p[j + 1] && p[1..][j + 1] == p[j + 2];
        }
      }
      CountFromPath(adj, rank, p[1..]);
      ChildSumAtLeast(adj, rank, u, |adj[u]|, i);
    }
  }

  /** Each destination's count is part of the sum. */
  lemma {:induction false} ChildSumAtLeast(adj: Graph, rank: map<string, nat>, u: string, k: nat, i: nat)
    requires Ranked(adj, rank) && u in adj && u != "out" && u in rank && i < k <= |adj[u]|
    ensures Covers(adj, rank, adj[u][i])
    ensures ChildSum(adj, rank, u, k) >= Count(adj, rank, adj[u][i])
  {
    if i < k - 1 {
      ChildSumAtLeast(adj, rank, u, k - 1, i);
    }
  }

  /** The count depends on the graph only, not on which ranking witnesses its termination. */
  lemma {:induction false} CountRankFree(adj: Graph, r1: map<string, nat>, r2: map<string, nat>, u: string)
    requires Ranked(adj, r1) && Covers(adj, r1, u) && Ranked(adj, r2) && Covers(adj, r2, u)
    ensures Count(adj, r1, u) == Count(adj, r2, u)
    decreases Height(adj, r1, u)
  {
    if u != "out" && u in adj {
      ChildSumRankFree(adj, r1, r2, u, |adj[u]|);
    }
  }

  lemma {:induction false} ChildSumRankFree(adj: Graph, r1: map<string, nat>, r2: map<string, nat>,
                                            u: string, k: nat)
    requires Ranked(adj, r1) && Ranked(adj, r2) && u in adj && u != "out"
    requires u in r1 && u in r2 && k <= |adj[u]|
    ensures ChildSum(adj, r1, u, k) == ChildSum(adj, r2, u, k)
    decreases Height(adj, r1, u), k
  {
    if k > 0 {
      var v := adj[u][k - 1];
      assert Covers(adj, r1, v) && Covers(adj, r2, v);
      assert Height(adj, r1, v) < Height(adj, r1, u);
      ChildSumRankFree(adj, r1, r2, u, k - 1);
      CountRankFree(adj, r1, r2, v);
    }
  }

  /** The input text admits a ranking that makes the count from `you` terminate. */
  ghost predicate Terminates(text: string, rank: map<string, nat>)
  {
    var g := Adjacency(StrippedLines(text));
    g.Some? ==> Ranked(g.value, rank) && Covers(g.value, rank, "you")
  }

  /**
   * `solve` on the read text: `None` when a line has no ':', and otherwise the number of
   * walks from `you` that end at `out`.
   */
  method Solve(text: string, ghost rank: map<string, nat>) returns (r: Option<nat>)
    requires Terminates(text, rank)
    ensures r.None? <==> Adjacency(StrippedLines(text)).None?
    ensures r.Some? ==> r.value == Count(Adjacency(StrippedLines(text)).value, rank, "you")
    ensures r.Some? ==> (r.value > 0 <==> exists p :: PathToOut(Adjacency(StrippedLines(text)).value, "you", p))
  {
    var g := ReadGraph(StrippedLines(text));
    if g.None? {
      return None;
    }
    var total, _ := CountPaths(g.value, rank, "you", map[]);
    CountPositive(g.value, rank, "you");
    r := Some(total);
  }
}
