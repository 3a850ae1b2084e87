/**
 * Day 11 hardware input: the nodes reachable from `you` in depth-first post-order, each
 * numbered by its position, and for every node in that order a header word `IIIICCCC` (its
 * id and its child count) followed by one eight-digit word per child id. Post-order puts
 * every child before its parent, so the hardware can sum path counts in one pass.
 */
module Day11Hex {
  import opened Common
  import opened PyText
  import opened HexText
  import opened Day11

  /** `nodes`: every source and every destination named on any line, replaced lists included. */
  function NodesOf(lines: seq<string>): set<string>
  {
    if lines == [] then {} else NodesOf(lines[..|lines| - 1]) + LineNames(lines[|lines| - 1])
  }

  /** The names one line adds to `nodes`: its source and its destinations. */
  function LineNames(line: string): set<string>
  {
    match Entry(line)
    case None => {}
    case Some((src, dests)) => {src} + set d | d in dests
  }

  /** Every name in `nodes` comes from some line. */
  lemma {:induction false} NodesOfFrom(lines: seq<string>, x: string)
    requires x in NodesOf(lines)
    ensures exists k :: 0 <= k < |lines| && x in LineNames(lines[k])
  {
    var last := |lines| - 1;
    var init := lines[..last];
    if x in NodesOf(init) {
      NodesOfFrom(init, x);
      var k :| 0 <= k < |init| && x in LineNames(init[k]);
      assert lines[k] == init[k];
    } else {
      assert x in LineNames(lines[last]);
    }
  }

  /** Every name a line mentions is in `nodes`. */
  lemma NodesOfHas(lines: seq<string>, k: nat, x: string)
    requires k < |lines| && x in LineNames(lines[k])
    ensures x in NodesOf(lines)
  {
    NodesOfSnoc(lines, k);
    NodesOfGrows(lines, k + 1);
  }

  /** Reading line `k` adds its names. */
  lemma NodesOfSnoc(lines: seq<string>, k: nat)
    requires k < |lines|
    ensures NodesOf(lines[..k + 1]) == NodesOf(lines[..k]) + LineNames(lines[k])
  {
    assert lines[..k + 1][..k] == lines[..k];
  }

  /** `nodes` only grows as lines are read. */
  lemma {:induction false} NodesOfGrows(lines: seq<string>, n: nat)
    requires n <= |lines|
    ensures NodesOf(lines[..n]) <= NodesOf(lines)
    decreases |lines| - n
  {
    if n < |lines| {
      NodesOfSnoc(lines, n);
      NodesOfGrows(lines, n + 1);
    } else {
      assert lines[..n] == lines;
    }
  }

  /** Every name the graph mentions: its sources and the destinations they list. */
  function Names(adj: Graph): (ns: set<string>)
    ensures forall u, i :: u in adj && 0 <= i < |adj[u]| ==> adj[u][i] in ns
  {
    adj.Keys + set u, i | u in adj && 0 <= i < |adj[u]| :: adj[u][i]
  }

  predicate Edge(adj: Graph, a: string, b: string)
  {
    a in adj && b in adj[a]
  }

  /** A walk along destination lists (the empty sequence included). */
  predicate Chain(adj: Graph, p: seq<string>)
  {
    forall i :: 0 <= i < |p| - 1 ==> Edge(adj, p[i], p[i + 1])
  }

  ghost predicate Reachable(adj: Graph, a: string, b: string)
  {
    exists p :: Chain(adj, p) && |p| >= 1 && p[0] == a && p[|p| - 1] == b
  }

  /** A walk that comes back to where it started. */
  predicate Cycle(adj: Graph, c: seq<string>)
  {
    |c| >= 2 && c[0] == c[|c| - 1] && Chain(adj, c)
  }

  /** A cycle the search from `start` can run into. */
  ghost predicate CycleFrom(adj: Graph, start: string, c: seq<string>)
  {
    Cycle(adj, c) && Reachable(adj, start, c[0])
  }

  predicate Distinct(s: seq<string>)
  {
    forall i, j :: 0 <= i < j < |s| ==> s[i] != s[j]
  }

  /** Every child of a node comes earlier in `order` than the node itself. */
  predicate ChildrenFirst(adj: Graph, order: seq<string>)
  {
    forall i, j :: 0 <= i < |order| && order[i] in adj && 0 <= j < |adj[order[i]]|
      ==> adj[order[i]][j] in order[..i]
  }

  /** The state the nested `visit` closes over: `visited`, `temp_mark`, `topo_order`. */
  datatype Dfs = Dfs(visited: set<string>, temp: set<string>, order: seq<string>)

  /** `temp_mark` is the set of the DFS stack, a walk down from `start`. */
  ghost predicate StackOk(adj: Graph, start: string, temp: set<string>, stack: seq<string>)
  {
    (forall x :: x in temp <==> x in stack)
    && (stack != [] ==> stack[0] == start)
    && Chain(adj, stack)
  }

  /** The finished nodes: listed once each, children first, all reachable from `start`. */
  ghost predicate OrderOk(adj: Graph, start: string, s: Dfs)
  {
    (forall x :: x in s.visited <==> x in s.order)
    && (forall x :: x in s.temp ==> x !in s.visited)
    && Distinct(s.order)
    && ChildrenFirst(adj, s.order)
    && (forall x :: x in s.visited ==> Reachable(adj, start, x))
  }

  /** `u` is entered from the top of the stack, or is the root of the search. */
  predicate Entering(adj: Graph, start: string, stack: seq<string>, u: string)
  {
    if stack == [] then u == start else Edge(adj, stack[|stack| - 1], u)
  }

  /** The names a search from `start` can ever mark. */
  function Universe(adj: Graph, start: string): set<string>
  {
    Names(adj) + {start}
  }

  /**
   * `visit(u)`: `false` when it raises "Cycle detected" (then the graph has a cycle);
   * otherwise `u` is finished, the stack is as it was, and the finished nodes still form a
   * children-first list of distinct nodes reachable from `start`, extended at the end.
   */
  method Visit(adj: Graph, start: string, u: string, s: Dfs, ghost stack: seq<string>)
    returns (s': Dfs, ok: bool)
    requires StackOk(adj, start, s.temp, stack) && OrderOk(adj, start, s)
    requires Entering(adj, start, stack, u)
    ensures ok ==> StackOk(adj, start, s'.temp, stack)
    ensures ok ==> OrderOk(adj, start, s')
    ensures ok ==> s'.temp == s.temp && u in s'.visited && s.order <= s'.order
    ensures ok && u !in s.visited ==> s'.order[|s'.order| - 1] == u
    ensures !ok ==> exists c :: CycleFrom(adj, start, c)
    decreases |Universe(adj, start) - s.temp|, 1
  {
    if u in s.temp {
      CycleFound(adj, start, s.temp, stack, u);
      return s, false;
    }
    if u in s.visited {
      return s, true;
    }
    s', ok := Expand(adj, start, u, s, stack);
  }

  /** The body of `visit` for a node not yet marked: mark, visit the children, finish. */
  method Expand(adj: Graph, start: string, u: string, s: Dfs, ghost stack: seq<string>)
    returns (s': Dfs, ok: bool)
    requires StackOk(adj, start, s.temp, stack) && OrderOk(adj, start, s)
    requires Entering(adj, start, stack, u) && u !in s.temp && u !in s.visited
    ensures ok ==> StackOk(adj, start, s'.temp, stack)
    ensures ok ==> OrderOk(adj, start, s')
    ensures ok ==> s'.temp == s.temp && u in s'.visited && s.order <= s'.order
    ensures ok ==> s'.order[|s'.order| - 1] == u
    ensures !ok ==> exists c :: CycleFrom(adj, start, c)
    decreases |Universe(adj, start) - s.temp|, 0
  {
    ghost var inner := stack + [u];
    var t := s.(temp := s.temp + {u});
    Push(adj, start, s, stack, u);
    if u in adj {
      InUniverse(adj, start, stack, u);
      Shrinks(adj, start, s.temp, u);
      var done: bool;
      t, done := VisitChildren(adj, start, u, t, inner);
      if !done {
        return t, false;
      }
    }
    s' := Dfs(t.visited + {u}, t.temp - {u}, t.order + [u]);
    Pop(adj, start, s, t, stack, u);
    ok := true;
  }

  /** The `for v in adj[u]: visit(v)` loop, with `u` on top of the stack. */
  method VisitChildren(adj: Graph, start: string, u: string, t: Dfs, ghost inner: seq<string>)
    returns (t': Dfs, ok: bool)
    requires u in adj && inner != [] && inner[|inner| - 1] == u
    requires StackOk(adj, start, t.temp, inner) && OrderOk(adj, start, t)
    ensures ok ==> StackOk(adj, start, t'.temp, inner) && OrderOk(adj, start, t')
    ensures ok ==> t'.temp == t.temp && t.order <= t'.order
    ensures ok ==> forall m :: 0 <= m < |adj[u]| ==> adj[u][m] in t'.visited
    ensures !ok ==> exists c :: CycleFrom(adj, start, c)
    decreases |Universe(adj, start) - t.temp|, 2
  {
    var dests := adj[u];
    t' := t;
    var k := 0;
    while k < |dests|
      invariant 0 <= k <= |dests|
      invariant StackOk(adj, start, t'.temp, inner) && OrderOk(adj, start, t')
      invariant t'.temp == t.temp && t.order <= t'.order
      invariant forall m :: 0 <= m < k ==> dests[m] in t'.visited
    {
      var done: bool;
      t', done := Visit(adj, start, dests[k], t', inner);
      if !done {
        return t', false;
      }
      k := k + 1;
    }
    ok := true;
  }

  /** Re-entering a node on the stack closes a cycle: the stack from that node, then the node. */
  lemma CycleFound(adj: Graph, start: string, temp: set<string>, stack: seq<string>, u: string)
    requires StackOk(adj, start, temp, stack) && Entering(adj, start, stack, u) && u in temp
    ensures exists c :: CycleFrom(adj, start, c)
  {
    var j :| 0 <= j < |stack| && stack[j] == u;
    var c := stack[j..] + [u];
    var p := stack[..j + 1];
    assert Chain(adj, p) by {
      forall i | 0 <= i < |p| - 1
        ensures Edge(adj, p[i], p[i + 1])
      {
        assert p[i] == stack[i] && p[i + 1] == stack[i + 1];
      }
    }
    assert p[0] == start && p[|p| - 1] == c[0];
    forall i | 0 <= i < |c| - 1
      ensures Edge(adj, c[i], c[i + 1])
    {
      if i < |c| - 2 {
        assert c[i] == stack[j + i] && c[i + 1] == stack[j + i + 1];
      }
    }
    assert CycleFrom(adj, start, c);
  }

  /** Marking `u` pushes it on the stack. */
  lemma Push(adj: Graph, start: string, s: Dfs, stack: seq<string>, u: string)
    requires StackOk(adj, start, s.temp, stack) && OrderOk(adj, start, s)
    requires Entering(adj, start, stack, u) && u !in s.temp && u !in s.visited
    ensures StackOk(adj, start, s.temp + {u}, stack + [u])
    ensures OrderOk(adj, start, s.(temp := s.temp + {u}))
  {
    var inner := stack + [u];
    forall i | 0 <= i < |inner| - 1
      ensures Edge(adj, inner[i], inner[i + 1])
    {
      if i < |stack| - 1 {
        assert inner[i] == stack[i] && inner[i + 1] == stack[i + 1];
      }
    }
  }

  /** Every node the search enters is a name of the graph or the root. */
  lemma InUniverse(adj: Graph, start: string, stack: seq<string>, u: string)
    requires Entering(adj, start, stack, u)
    ensures u in Universe(adj, start)
  {
    if stack != [] {
      var a := stack[|stack| - 1];
      var i :| 0 <= i < |adj[a]| && adj[a][i] == u;
    }
  }

  /** Marking a node still unmarked in the universe shrinks the unmarked part. */
  lemma Shrinks(adj: Graph, start: string, temp: set<string>, u: string)
    requires u in Universe(adj, start) && u !in temp
    ensures |Universe(adj, start) - (temp + {u})| < |Universe(adj, start) - temp|
  {
    var U := Universe(adj, start);
    var rest := U - (temp + {u});
    assert U - temp == rest + {u} && u !in rest;
  }

  /** Finishing `u` after all its children pops it and appends it to the order. */
  lemma Pop(adj: Graph, start: string, s: Dfs, t: Dfs, stack: seq<string>, u: string)
    requires StackOk(adj, start, s.temp, stack) && Entering(adj, start, stack, u) && u !in s.temp
    requires StackOk(adj, start, t.temp, stack + [u]) && OrderOk(adj, start, t)
    requires t.temp == s.temp + {u}
    requires u in adj ==> forall m :: 0 <= m < |adj[u]| ==> adj[u][m] in t.visited
    ensures StackOk(adj, start, t.temp - {u}, stack)
    ensures OrderOk(adj, start, Dfs(t.visited + {u}, t.temp - {u}, t.order + [u]))
  {
    var s' := Dfs(t.visited + {u}, t.temp - {u}, t.order + [u]);
    var o := s'.order;
    assert t.temp - {u} == s.temp;
    forall i, j | 0 <= i < |o| && o[i] in adj && 0 <= j < |adj[o[i]]|
      ensures adj[o[i]][j] in o[..i]
    {
      if i < |t.order| {
        assert o[..i] == t.order[..i];
      } else {
        assert o[..i] == t.order;
      }
    }
    var p := stack + [u];
    assert Chain(adj, p) && p[0] == start && p[|p| - 1] == u;
    assert Reachable(adj, start, u);
  }

  /** A children-first list holding `start` holds everything reachable from `start`. */
  lemma ReachableListed(adj: Graph, order: seq<string>, start: string, x: string)
    requires ChildrenFirst(adj, order) && start in order && Reachable(adj, start, x)
    ensures x in order
  {
    var p :| Chain(adj, p) && |p| >= 1 && p[0] == start && p[|p| - 1] == x;
    ChainListed(adj, order, p, |p| - 1);
  }

  lemma {:induction false} ChainListed(adj: Graph, order: seq<string>, p: seq<string>, k: nat)
    requires ChildrenFirst(adj, order) && Chain(adj, p) && k < |p| && p[0] in order
    ensures p[k] in order
  {
    if k > 0 {
      ChainListed(adj, order, p, k - 1);
      var i :| 0 <= i < |order| && order[i] == p[k - 1];
      assert Edge(adj, p[k - 1], p[k]);
      var j :| 0 <= j < |adj[order[i]]| && adj[order[i]][j] == p[k];
      assert p[k] in order[..i];
    }
  }

  /** What `visit(start)` leaves behind: the topological order of the part reachable from it. */
  ghost predicate TopoOf(adj: Graph, start: string, order: seq<string>)
  {
    Distinct(order) && ChildrenFirst(adj, order)
    && |order| >= 1 && order[|order| - 1] == start
    && (forall x :: x in order <==> Reachable(adj, start, x))
  }

  /** `visit(start)` on empty marks: the order, or `false` when a cycle was detected. */
  method TopoSort(adj: Graph, start: string) returns (order: seq<string>, ok: bool)
    ensures ok ==> TopoOf(adj, start, order)
    ensures !ok ==> exists c :: CycleFrom(adj, start, c)
  {
    var s;
    s, ok := Visit(adj, start, start, Dfs({}, {}, []), []);
    order := s.order;
    if ok {
      forall x | Reachable(adj, start, x)
        ensures x in order
      {
        ReachableListed(adj, order, start, x);
      }
    }
  }

  /** A topological order of everything reachable from `start` rules out a cycle reachable from it. */
  lemma TopoAcyclic(adj: Graph, start: string, order: seq<string>)
    requires TopoOf(adj, start, order)
    ensures forall c :: !CycleFrom(adj, start, c)
  {
    forall c | CycleFrom(adj, start, c)
      ensures false
    {
      ReachableListed(adj, order, start, c[0]);
      IdsArePositions(order);
      IdsFall(adj, order, c, |c| - 1);
    }
  }

  /** Along a walk inside a children-first order the ids strictly fall. */
  lemma {:induction false} IdsFall(adj: Graph, order: seq<string>, c: seq<string>, k: nat)
    requires Distinct(order) && ChildrenFirst(adj, order) && Chain(adj, c) && k < |c| && c[0] in order
    ensures c[k] in Ids(order) && Ids(order)[c[k]] + k <= Ids(order)[c[0]]
  {
    IdsArePositions(order);
    if k > 0 {
      IdsFall(adj, order, c, k - 1);
      var ids := Ids(order);
      var m := ids[c[k - 1]];
      assert order[m] == c[k - 1] && Edge(adj, c[k - 1], c[k]);
      var j :| 0 <= j < |adj[order[m]]| && adj[order[m]][j] == c[k];
      assert c[k] in order[..m];
      var m' :| 0 <= m' < m && order[m'] == c[k];
      assert ids[order[m']] == m';
    }
  }

  /** `{name: i for i, name in enumerate(order)}`, a later position overwriting an earlier one. */
  function Ids(order: seq<string>): (ids: map<string, nat>)
    ensures forall x :: x in ids <==> x in order
  {
    if order == [] then map[]
    else Ids(order[..|order| - 1])[order[|order| - 1] := |order| - 1]
  }

  /** With distinct names the ids are the positions: a bijection onto `0 .. N-1`. */
  lemma {:induction false} IdsArePositions(order: seq<string>)
    requires Distinct(order)
    ensures forall i :: 0 <= i < |order| ==> Ids(order)[order[i]] == i
    ensures forall x :: x in Ids(order) ==> Ids(order)[x] < |order| && order[Ids(order)[x]] == x
  {
    if order != [] {
      var init := order[..|order| - 1];
      assert Distinct(init);
      IdsArePositions(init);
      forall i | 0 <= i < |init|
        ensures Ids(order)[order[i]] == i
      {
        assert init[i] == order[i] && order[i] != order[|order| - 1];
      }
    }
  }

  /** `[node_to_id[c] for c in children if c in node_to_id]` */
  function ChildIds(ids: map<string, nat>, children: seq<string>): (cs: seq<nat>)
    ensures |cs| <= |children|
  {
    if children == [] then []
    else
      var c := children[|children| - 1];
      ChildIds(ids, children[..|children| - 1]) + (if c in ids then [ids[c]] else [])
  }

  /** When every child has an id the filter drops nothing and keeps the order. */
  lemma {:induction false} ChildIdsAll(ids: map<string, nat>, children: seq<string>)
    requires forall j :: 0 <= j < |children| ==> children[j] in ids
    ensures |ChildIds(ids, children)| == |children|
    ensures forall j :: 0 <= j < |children| ==> ChildIds(ids, children)[j] == ids[children[j]]
  {
    if children != [] {
      ChildIdsAll(ids, children[..|children| - 1]);
    }
  }

  /** `adj.get(u, [])` */
  function ChildrenOf(adj: Graph, u: string): seq<string>
  {
    if u in adj then adj[u] else []
  }

  /** The words for node `u`: its header, then one word per child id in adjacency order. */
  function Record(adj: Graph, ids: map<string, nat>, u: string): (ws: seq<string>)
    requires u in ids
    ensures |ws| == 1 + |ChildIds(ids, ChildrenOf(adj, u))|
  {
    var cs := ChildIds(ids, ChildrenOf(adj, u));
    [Format(ids[u], 4, true) + Format(|cs|, 4, true)] + seq(|cs|, j requires 0 <= j < |cs| => Format(cs[j], 8, true))
  }

  /** The records of the nodes of `order`, one after another. */
  function Records(adj: Graph, ids: map<string, nat>, order: seq<string>): seq<string>
    requires forall x :: x in order ==> x in ids
  {
    if order == [] then []
    else Records(adj, ids, order[..|order| - 1]) + Record(adj, ids, order[|order| - 1])
  }

  /** The `for u in topo_order` loop writing `input.hex`. */
  method EmitRecords(adj: Graph, ids: map<string, nat>, order: seq<string>) returns (words: seq<string>)
    requires forall x :: x in order ==> x in ids
    ensures words == Records(adj, ids, order)
  {
    words := [];
    var k := 0;
    while k < |order|
      invariant 0 <= k <= |order| && words == Records(adj, ids, order[..k])
    {
      RecordsStep(adj, ids, order, k);
      var more := EmitRecord(adj, ids, order[k]);
      words := words + more;
      k := k + 1;
    }
    assert order[..k] == order;
  }

  /** One more node appends its record. */
  lemma RecordsStep(adj: Graph, ids: map<string, nat>, order: seq<string>, k: nat)
    requires k < |order| && forall x :: x in order ==> x in ids
    ensures Records(adj, ids, order[..k + 1]) == Records(adj, ids, order[..k]) + Record(adj, ids, order[k])
  {
    assert order[..k + 1][..k] == order[..k];
  }

  /** One pass of the loop: the header write, then the `for cid in children_ids` writes. */
  method EmitRecord(adj: Graph, ids: map<string, nat>, u: string) returns (words: seq<string>)
    requires u in ids
    ensures words == Record(adj, ids, u)
  {
    var cs := ChildIds(ids, ChildrenOf(adj, u));
    ghost var rec := Record(adj, ids, u);
    words := [Format(ids[u], 4, true) + Format(|cs|, 4, true)];
    var j := 0;
    while j < |cs|
      invariant 0 <= j <= |cs| && words == rec[..j + 1]
    {
      assert rec[..j + 2] == rec[..j + 1] + [Format(cs[j], 8, true)];
      words := words + [Format(cs[j], 8, true)];
      j := j + 1;
    }
    assert rec[..j + 1] == rec;
  }

  /**
   * In a topological order every child has an id, so node `i`'s record is its header and one
   * word per child, each child id smaller than `i`: a node's inputs are finished before it.
   */
  lemma RecordOfNode(adj: Graph, order: seq<string>, start: string, i: nat)
    requires TopoOf(adj, start, order) && i < |order|
    ensures ChildIds(Ids(order), ChildrenOf(adj, order[i])) == seq(|ChildrenOf(adj, order[i])|,
      j requires 0 <= j < |ChildrenOf(adj, order[i])| => Ids(order)[ChildrenOf(adj, order[i])[j]])
    ensures forall j :: 0 <= j < |ChildrenOf(adj, order[i])| ==> Ids(order)[ChildrenOf(adj, order[i])[j]] < i
  {
    var ids := Ids(order);
    var cs := ChildrenOf(adj, order[i]);
    IdsArePositions(order);
    forall j | 0 <= j < |cs|
      ensures cs[j] in ids && ids[cs[j]] < i
    {
      assert cs[j] in order[..i];
      var m :| 0 <= m < i && order[m] == cs[j];
    }
    ChildIdsAll(ids, cs);
  }

  /** Below `2^16` nodes and children, a header reads back as id above child count. */
  lemma HeaderFields(id: nat, count: nat)
    requires id < Pow16(4) && count < Pow16(4)
    ensures |Format(id, 4, true) + Format(count, 4, true)| == 8
    ensures ParseHex(Format(id, 4, true) + Format(count, 4, true)) == Some(id * Pow16(4) + count)
  {
    PairParses(id, count, 4, true);
  }

  /** How `generate_hex` ends. */
  datatype Outcome =
    | ParseError            // `parts[1]` raised on a line without ':'
    | MissingEnds           // "Missing start/end nodes": nothing is written
    | CycleError            // `visit` raised "Cycle detected"
    | NoOut                 // `node_to_id['out']` raised: `input.hex` is left empty
    | Written(words: seq<string>, numNodes: nat, outNode: nat, youNode: nat)

  /** The line loop of `generate_hex`: the dictionary and the set of every name. */
  method ReadInput(lines: seq<string>) returns (g: Option<Graph>, nodes: set<string>)
    ensures g == Adjacency(lines)
    ensures g.Some? ==> nodes == NodesOf(lines)
  {
    var adj: Graph := map[];
    nodes := {};
    var k := 0;
    while k < |lines|
      invariant 0 <= k <= |lines| && Adjacency(lines[..k]) == Some(adj) && nodes == NodesOf(lines[..k])
    {
      AdjacencyStep(lines, k);
      var e := Entry(lines[k]);
      if e.None? {
        AdjacencyStops(lines, k + 1);
        return None, nodes;
      }
      var (src, dests) := e.value;
      NodesStep(lines, k);
      adj := adj[src := dests];
      nodes := AddNodes(nodes + {src}, dests);
      k := k + 1;
    }
    assert lines[..k] == lines;
    g := Some(adj);
  }

  lemma NodesStep(lines: seq<string>, k: nat)
    requires k < |lines| && Entry(lines[k]).Some?
    ensures NodesOf(lines[..k + 1])
      == NodesOf(lines[..k]) + {Entry(lines[k]).value.0} + set d | d in Entry(lines[k]).value.1
  {
    assert lines[..k + 1][..k] == lines[..k];
  }

  /** `for d in dests: nodes.add(d)` */
  method AddNodes(nodes: set<string>, dests: seq<string>) returns (ns: set<string>)
    ensures ns == nodes + set d | d in dests
  {
    ns := nodes;
    var j := 0;
    while j < |dests|
      invariant 0 <= j <= |dests| && ns == nodes + set d | d in dests[..j]
    {
      assert dests[..j + 1] == dests[..j] + [dests[j]];
      ns := ns + {dests[j]};
      j := j + 1;
    }
    assert dests[..j] == dests;
  }

  /**
   * `generate_hex` on the read text. `order` is the post-order `visit('you')` built; the
   * records are written in that order and the parameters name its size and the ids of `out`
   * and `you` (`you`, the root, is finished last).
   */
  method GenerateHex(text: string) returns (r: Outcome, ghost order: seq<string>)
    ensures r == ParseError <==> Adjacency(StrippedLines(text)).None?
    ensures r == MissingEnds <==> (Adjacency(StrippedLines(text)).Some?
      && ("you" !in NodesOf(StrippedLines(text)) || "out" !in NodesOf(StrippedLines(text))))
    ensures r == CycleError ==> exists c :: CycleFrom(Adjacency(StrippedLines(text)).value, "you", c)
    ensures r == NoOut || r.Written? ==> forall c :: !CycleFrom(Adjacency(StrippedLines(text)).value, "you", c)
    ensures r == NoOut ==> !Reachable(Adjacency(StrippedLines(text)).value, "you", "out")
    ensures r.Written? ==>
      var adj := Adjacency(StrippedLines(text)).value;
      TopoOf(adj, "you", order) && "out" in order
      && r.words == Records(adj, Ids(order), order)
      && r.numNodes == |order| && r.youNode == |order| - 1
      && r.outNode < |order| && order[r.outNode] == "out"
  {
    var lines := StrippedLines(text);
    var g, nodes := ReadInput(lines);
    order := [];
    if g.None? {
      return ParseError, order;
    }
    var adj := g.value;
    if "you" !in nodes || "out" !in nodes {
      return MissingEnds, order;
    }
    var topo, ok := TopoSort(adj, "you");
    order := topo;
    if !ok {
      return CycleError, order;
    }
    TopoAcyclic(adj, "you", topo);
    var ids := Ids(topo);
    if "out" !in ids {
      return NoOut, order;
    }
    var words := EmitRecords(adj, ids, topo);
    IdsArePositions(topo);
    var outId, youId := ids["out"], ids["you"];
    assert outId < |topo| && topo[outId] == "out";
    assert youId == |topo| - 1;
    r := Written(words, |topo|, outId, youId);
  }
}
