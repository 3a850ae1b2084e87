/**
 * Day 8: junction boxes in 3-D space. Every pair is an edge weighted by its squared distance;
 * the `k` shortest edges (stably sorted) are joined with union-find, and the answer is the
 * product of the three largest circuit sizes (of all of them when there are fewer than three).
 */
module Day8 {
  import opened Common
  import opened PyText
  import opened Sorting

  type Point = (int, int, int)

  /** `eudist_sq`: the squared Euclidean distance. */
  function DistSq(p: Point, q: Point): (d: nat)
    ensures d == 0 <==> p == q
  {
    Square(p.0 - q.0) + Square(p.1 - q.1) + Square(p.2 - q.2)
  }

  function Square(a: int): (s: nat)
    ensures s == 0 <==> a == 0
  {
    if a >= 0 then a * a
    else MulAtLeastOne(-a); (-a) * (-a)
  }

  lemma MulAtLeastOne(a: int)
    requires a >= 1
    ensures a * a >= 1
  {
  }

  lemma DistSqSymmetric(p: Point, q: Point)
    ensures DistSq(p, q) == DistSq(q, p)
  {
    assert Square(p.0 - q.0) == Square(q.0 - p.0);
    assert Square(p.1 - q.1) == Square(q.1 - p.1);
    assert Square(p.2 - q.2) == Square(q.2 - p.2);
  }

  // ----- edges -----

  /** `(d, i, j)` in the edge list. */
  datatype Edge = Edge(d: nat, u: nat, v: nat)

  /** The inner loop for `i`, up to but excluding `j = hi`. */
  function RowEdges(points: seq<Point>, i: nat, hi: nat): (es: seq<Edge>)
    requires i < |points| && hi <= |points|
  {
    if hi <= i + 1 then []
    else RowEdges(points, i, hi - 1) + [Edge(DistSq(points[i], points[hi - 1]), i, hi - 1)]
  }

  /** The edges appended by the first `i` outer iterations. */
  function EdgesUpTo(points: seq<Point>, i: nat): seq<Edge>
    requires i <= |points|
  {
    if i == 0 then [] else EdgesUpTo(points, i - 1) + RowEdges(points, i - 1, |points|)
  }

  /** Every pair `i < j` of the points, in loop order. */
  function AllPairs(points: seq<Point>): seq<Edge>
  {
    EdgesUpTo(points, |points|)
  }

  /** The two nested loops that build `edges`. */
  method BuildEdges(points: seq<Point>) returns (edges: seq<Edge>)
    ensures edges == AllPairs(points)
  {
    edges := [];
    var i := 0;
    while i < |points|
      invariant 0 <= i <= |points| && edges == EdgesUpTo(points, i)
    {
      var j := i + 1;
      while j < |points|
        invariant i + 1 <= j <= |points| || (j == i + 1 && i + 1 > |points|)
        invariant edges == EdgesUpTo(points, i) + RowEdges(points, i, j)
      {
        edges := edges + [Edge(DistSq(points[i], points[j]), i, j)];
        j := j + 1;
      }
      i := i + 1;
    }
  }

  /** An edge of the list: its endpoints in order and its weight their distance. */
  predicate PairEdge(points: seq<Point>, e: Edge)
  {
    e.u < e.v < |points| && e.d == DistSq(points[e.u], points[e.v])
  }

  /** Loop order: by first endpoint, then by second. */
  predicate Before(e1: Edge, e2: Edge)
  {
    e1.u < e2.u || (e1.u == e2.u && e1.v < e2.v)
  }

  lemma {:induction false} RowShape(points: seq<Point>, i: nat, hi: nat)
    requires i < |points| && hi <= |points|
    ensures forall k :: 0 <= k < |RowEdges(points, i, hi)| ==>
      PairEdge(points, RowEdges(points, i, hi)[k]) && RowEdges(points, i, hi)[k].u == i
      && RowEdges(points, i, hi)[k].v < hi
    ensures forall k1, k2 :: 0 <= k1 < k2 < |RowEdges(points, i, hi)| ==>
      RowEdges(points, i, hi)[k1].v < RowEdges(points, i, hi)[k2].v < hi
  {
    if hi > i + 1 {
      RowShape(points, i, hi - 1);
    }
  }

  lemma {:induction false} RowLength(points: seq<Point>, i: nat, hi: nat)
    requires i < |points| && hi <= |points|
    ensures |RowEdges(points, i, hi)| == if hi <= i + 1 then 0 else hi - i - 1
  {
    if hi > i + 1 {
      RowLength(points, i, hi - 1);
    }
  }

  lemma {:induction false} RowComplete(points: seq<Point>, i: nat, hi: nat, b: nat)
    requires i < b < hi <= |points|
    ensures Edge(DistSq(points[i], points[b]), i, b) in RowEdges(points, i, hi)
  {
    if b < hi - 1 {
      RowComplete(points, i, hi - 1, b);
    }
  }

  /** The list holds only pairs `u < v`, in strictly increasing loop order. */
  lemma {:induction false} EdgesOrdered(points: seq<Point>, i: nat)
    requires i <= |points|
    ensures forall k :: 0 <= k < |EdgesUpTo(points, i)| ==>
      PairEdge(points, EdgesUpTo(points, i)[k]) && EdgesUpTo(points, i)[k].u < i
    ensures forall k1, k2 :: 0 <= k1 < k2 < |EdgesUpTo(points, i)| ==>
      Before(EdgesUpTo(points, i)[k1], EdgesUpTo(points, i)[k2])
  {
    if i > 0 {
      EdgesOrdered(points, i - 1);
      RowShape(points, i - 1, |points|);
      var a, b := EdgesUpTo(points, i - 1), RowEdges(points, i - 1, |points|);
      assert EdgesUpTo(points, i) == a + b;
      forall k1, k2 | 0 <= k1 < k2 < |a + b|
        ensures Before((a + b)[k1], (a + b)[k2])
      {
        if k2 < |a| {
        } else if k1 < |a| {
          assert (a + b)[k1] == a[k1] && (a + b)[k2] == b[k2 - |a|];
        } else {
          assert (a + b)[k1] == b[k1 - |a|] && (a + b)[k2] == b[k2 - |a|];
        }
      }
    }
  }

  /** Every pair `a < b` with `a < i` is in the list. */
  lemma {:induction false} EdgesComplete(points: seq<Point>, i: nat, a: nat, b: nat)
    requires i <= |points| && a < i && a < b < |points|
    ensures Edge(DistSq(points[a], points[b]), a, b) in EdgesUpTo(points, i)
  {
    var e := Edge(DistSq(points[a], points[b]), a, b);
    var pre, row := EdgesUpTo(points, i - 1), RowEdges(points, i - 1, |points|);
    assert EdgesUpTo(points, i) == pre + row;
    if a < i - 1 {
      EdgesComplete(points, i - 1, a, b);
      assert e in pre;
    } else {
      RowComplete(points, a, |points|, b);
      assert e in row;
    }
  }

  /** `N(N-1)/2` edges: twice the count after `i` rows is `i (2N - 1 - i)`. */
  lemma {:induction false} EdgesCount(points: seq<Point>, i: nat)
    requires i <= |points|
    ensures 2 * |EdgesUpTo(points, i)| == i * (2 * |points| - 1 - i)
  {
    if i > 0 {
      var m := |points|;
      EdgesCount(points, i - 1);
      RowLength(points, i - 1, m);
      assert |EdgesUpTo(points, i)| == |EdgesUpTo(points, i - 1)| + (m - i);
      RowArithmetic(i, m);
    }
  }

  lemma RowArithmetic(i: int, m: int)
    ensures (i - 1) * (2 * m - 1 - (i - 1)) + 2 * (m - i) == i * (2 * m - 1 - i)
  {
    assert (i - 1) * (2 * m - i) == i * (2 * m - i) - (2 * m - i);
    assert i * (2 * m - i) == i * (2 * m - 1 - i) + i;
  }

  /** `edges` has `N(N-1)/2` entries. */
  lemma AllPairsCount(points: seq<Point>)
    ensures 2 * |AllPairs(points)| == |points| * (|points| - 1)
  {
    EdgesCount(points, |points|);
  }

  /** Each entry is a pair `u < v` weighted by its distance. */
  lemma AllPairsShape(points: seq<Point>)
    ensures forall k :: 0 <= k < |AllPairs(points)| ==> PairEdge(points, AllPairs(points)[k])
  {
    EdgesOrdered(points, |points|);
  }

  /** Every pair `a < b` is in `edges`. */
  lemma AllPairsComplete(points: seq<Point>)
    ensures forall a: nat, b: nat :: a < b < |points| ==> Edge(DistSq(points[a], points[b]), a, b) in AllPairs(points)
  {
    forall a: nat, b: nat | a < b < |points|
      ensures Edge(DistSq(points[a], points[b]), a, b) in AllPairs(points)
    {
      EdgesComplete(points, |points|, a, b);
    }
  }

  /** No pair appears twice. */
  lemma AllPairsDistinct(points: seq<Point>)
    ensures forall k1, k2 :: 0 <= k1 < k2 < |AllPairs(points)| ==> AllPairs(points)[k1] != AllPairs(points)[k2]
  {
    EdgesOrdered(points, |points|);
    var es := AllPairs(points);
    forall k1, k2 | 0 <= k1 < k2 < |es|
      ensures es[k1] != es[k2]
    {
      assert Before(es[k1], es[k2]);
    }
  }

  // ----- union-find -----
  // ----- union-find -----

  /** The classes after joining `i` and `j`: `x` and `y` were together, or one was with each. */
  predicate Joined(root: seq<nat>, i: nat, j: nat, x: nat, y: nat)
    requires i < |root| && j < |root| && x < |root| && y < |root|
  {
    root[x] == root[y]
    || (root[x] == root[i] && root[y] == root[j])
    || (root[x] == root[j] && root[y] == root[i])
  }

  /** The nodes whose root is `r`. */
  ghost function MembersOf(root: seq<nat>, r: nat): set<nat>
  {
    set x: nat | x < |root| && root[x] == r
  }

  /** `parent` links stay inside, lead to the recorded root, and roots point at themselves. */
  ghost predicate Linked(parent: seq<nat>, root: seq<nat>)
  {
    |parent| == |root|
    && (forall x :: 0 <= x < |root| ==> parent[x] < |root| && root[x] < |root|)
    && (forall x :: 0 <= x < |root| ==> root[root[x]] == root[x] && parent[root[x]] == root[x])
    && (forall x :: 0 <= x < |root| ==> root[parent[x]] == root[x])
    && (forall x :: 0 <= x < |root| && parent[x] == x ==> root[x] == x)
  }

  /** `depth` falls along every link and from every non-root to its root. */
  ghost predicate Ranked(parent: seq<nat>, root: seq<nat>, depth: seq<nat>)
    requires Linked(parent, root)
  {
    |depth| == |root|
    && (forall x :: 0 <= x < |root| && parent[x] != x ==> depth[parent[x]] < depth[x])
    && (forall x :: 0 <= x < |root| && parent[x] != x ==> depth[root[x]] < depth[x])
  }

  /** A root's `size` entry counts its class. */
  ghost predicate Sized(size: seq<nat>, root: seq<nat>)
  {
    |size| == |root| && forall r :: 0 <= r < |root| && root[r] == r ==> size[r] == |MembersOf(root, r)|
  }

  ghost predicate Forest(parent: seq<nat>, size: seq<nat>, root: seq<nat>, depth: seq<nat>)
  {
    Linked(parent, root) && Ranked(parent, root, depth) && Sized(size, root)
  }

  /** Re-pointing a node at its own root keeps the forest. */
  lemma Compress(parent: seq<nat>, size: seq<nat>, root: seq<nat>, depth: seq<nat>, i: nat)
    requires Forest(parent, size, root, depth) && i < |root| && parent[i] != i
    ensures Forest(parent[i := root[i]], size, root, depth)
  {
    var p := parent[i := root[i]];
    assert root[i] != i;
    forall x | 0 <= x < |root|
      ensures parent[root[x]] == root[x] && p[root[x]] == root[x]
    {
    }
  }

  /** The root labels after hanging root `rj` under root `ri`. */
  function Relink(root: seq<nat>, ri: nat, rj: nat): (r: seq<nat>)
    ensures |r| == |root|
  {
    seq(|root|, x requires 0 <= x < |root| => if root[x] == rj then ri else root[x])
  }

  /** Relinking the root of `j` under that of `i` (or the reverse) joins exactly their classes. */
  lemma RelinkJoined(root: seq<nat>, i: nat, j: nat, ri: nat, rj: nat)
    requires i < |root| && j < |root|
    requires (ri == root[i] && rj == root[j]) || (ri == root[j] && rj == root[i])
    ensures forall x, y :: 0 <= x < |root| && 0 <= y < |root| ==>
      (Relink(root, ri, rj)[x] == Relink(root, ri, rj)[y] <==> Joined(root, i, j, x, y))
  {
  }

  lemma LinkLinked(parent: seq<nat>, root: seq<nat>, ri: nat, rj: nat)
    requires Linked(parent, root) && ri < |root| && rj < |root| && ri != rj
    requires root[ri] == ri && root[rj] == rj
    ensures Linked(parent[rj := ri], Relink(root, ri, rj))
  {
  }

  lemma LinkRanked(parent: seq<nat>, root: seq<nat>, depth: seq<nat>, ri: nat, rj: nat)
    requires Linked(parent, root) && Ranked(parent, root, depth)
    requires ri < |root| && rj < |root| && ri != rj && root[ri] == ri && root[rj] == rj
    ensures Linked(parent[rj := ri], Relink(root, ri, rj))
    ensures Ranked(parent[rj := ri], Relink(root, ri, rj), Lifted(depth, root, ri, rj))
  {
    LinkLinked(parent, root, ri, rj);
  }

  /** The class of `rj` moves below `ri`: its depths rise above `ri`'s. */
  function Lifted(depth: seq<nat>, root: seq<nat>, ri: nat, rj: nat): (d: seq<nat>)
    requires |depth| == |root| && ri < |root|
    ensures |d| == |depth|
  {
    seq(|root|, x requires 0 <= x < |root| => if root[x] == rj then depth[x] + depth[ri] + 1 else depth[x])
  }

  lemma LinkSized(size: seq<nat>, root: seq<nat>, ri: nat, rj: nat)
    requires Sized(size, root) && ri < |root| && rj < |root| && ri != rj
    requires root[ri] == ri && root[rj] == rj
    ensures Sized(size[ri := size[ri] + size[rj]], Relink(root, ri, rj))
  {
    var root' := Relink(root, ri, rj);
    assert MembersOf(root', ri) == MembersOf(root, ri) + MembersOf(root, rj);
    assert MembersOf(root, ri) !! MembersOf(root, rj);
    forall r | 0 <= r < |root| && root'[r] == r && r != ri
      ensures MembersOf(root', r) == MembersOf(root, r)
    {
    }
  }

  /** `parent`/`size` lists with the union-by-size and path-compression rules of `solve`. */
  class UnionFind {
    const n: nat
    const parent: array<nat>
    const size: array<nat>
    /** The root each node reaches by following `parent`. */
    ghost var root: seq<nat>
    /** A measure that falls along every `parent` link, so `find` terminates. */
    ghost var depth: seq<nat>

    ghost predicate Valid()
      reads this, parent, size
    {
      parent != size && parent.Length == n && |root| == n
      && Forest(parent[..], size[..], root, depth)
    }

    /** `parent = list(range(N))`, `size = [1] * N`: every node alone. */
    constructor (count: nat)
      ensures Valid() && n == count && root == seq(count, x => x)
      ensures fresh(parent) && fresh(size)
    {
      n := count;
      parent := new nat[count](x => x);
      size := new nat[count](_ => 1);
      root := seq(count, x => x);
      depth := seq(count, _ => 0);
      new;
      forall r | 0 <= r < count
        ensures size[r] == |MembersOf(root, r)|
      {
        assert MembersOf(root, r) == {r};
      }
    }

    lemma RootFacts(x: nat)
      requires Valid() && x < n
      ensures root[x] < n && root[root[x]] == root[x] && size[root[x]] == |MembersOf(root, root[x])|
    {
      assert Linked(parent[..], root) && Sized(size[..], root);
    }

    /** `find`: the root of `i`; every node on the way is re-pointed at that root. */
    method Find(i: nat) returns (r: nat)
      requires Valid() && i < n
      modifies parent
      ensures Valid() && r == root[i]
      ensures forall x :: 0 <= x < n ==> parent[x] == old(parent[x]) || parent[x] == root[x]
      decreases depth[i]
    {
      if parent[i] == i {
        return i;
      }
      var p := parent[i];
      r := Find(p);
      Compress(parent[..], size[..], root, depth, i);
      parent[i] := r;
      r := parent[i];
    }

    /** Hang root `rj` under root `ri` and add its size there. */
    method Link(ri: nat, rj: nat)
      requires Valid() && ri < n && rj < n && ri != rj && root[ri] == ri && root[rj] == rj
      modifies this`root, this`depth, parent, size
      ensures Valid()
      ensures root == Relink(old(root), ri, rj)
      ensures size[ri] == old(size[ri]) + old(size[rj])
    {
      LinkRanked(parent[..], root, depth, ri, rj);
      LinkSized(size[..], root, ri, rj);
      parent[rj] := ri;
      size[ri] := size[ri] + size[rj];
      depth := Lifted(depth, root, ri, rj);
      root := Relink(root, ri, rj);
    }

    /** `union`: joins the classes of `i` and `j`, the smaller under the larger. */
    method Union(i: nat, j: nat) returns (merged: bool)
      requires Valid() && i < n && j < n
      modifies this`root, this`depth, parent, size
      ensures Valid()
      ensures merged <==> old(root[i]) != old(root[j])
      ensures forall x, y :: 0 <= x < n && 0 <= y < n ==>
        (root[x] == root[y] <==> Joined(old(root), i, j, x, y))
      ensures merged ==> size[root[i]] == old(size[root[i]]) + old(size[root[j]])
      ensures merged ==> root[i] == if old(size[root[i]]) < old(size[root[j]]) then old(root[j]) else old(root[i])
    {
      var ri, rj := FindBoth(i, j);
      if ri == rj {
        return false;
      }
      LinkBySize(i, j, ri, rj);
      merged := true;
    }

    /** The distinct roots `ri` of `i` and `rj` of `j` linked, the smaller class under the larger. */
    method LinkBySize(i: nat, j: nat, ri: nat, rj: nat)
      requires Valid() && i < n && j < n && ri == root[i] && rj == root[j] && ri != rj
      requires root[ri] == ri && root[rj] == rj
      modifies this`root, this`depth, parent, size
      ensures Valid()
      ensures forall x, y :: 0 <= x < n && 0 <= y < n ==>
        (root[x] == root[y] <==> Joined(old(root), i, j, x, y))
      ensures size[root[i]] == old(size[ri]) + old(size[rj])
      ensures root[i] == if old(size[ri]) < old(size[rj]) then rj else ri
    {
      var big, small := ri, rj;
      if size[ri] < size[rj] {
        big, small := rj, ri;
      }
      RelinkJoined(root, i, j, big, small);
      Link(big, small);
    }

    /** The roots of `i` and `j`, compressing both paths. */
    method FindBoth(i: nat, j: nat) returns (ri: nat, rj: nat)
      requires Valid() && i < n && j < n
      modifies parent
      ensures Valid() && ri == root[i] && rj == root[j]
      ensures root[ri] == ri && root[rj] == rj
    {
      ri := Find(i);
      rj := Find(j);
      RootFacts(i);
      RootFacts(j);
    }
  }

  // ----- sorting the edges -----

  /** `edges.sort(key=lambda x: x[0])`: by distance only, ties kept in loop order. */
  predicate Shorter(a: Edge, b: Edge)
  {
    a.d < b.d
  }

  lemma ShorterOrder()
    ensures StrictWeakOrder(Shorter)
  {
  }

  /** The sorted edge list of `solve`. */
  function SortedEdges(points: seq<Point>): seq<Edge>
  {
    SortBy(AllPairs(points), Shorter)
  }

  /**
   * The sorted list is a permutation of the pairs, by non-decreasing distance, and still has
   * each pair exactly once.
   */
  lemma SortedEdgesFacts(points: seq<Point>)
    ensures multiset(SortedEdges(points)) == multiset(AllPairs(points))
    ensures forall k1, k2 :: 0 <= k1 < k2 < |SortedEdges(points)| ==>
      SortedEdges(points)[k1].d <= SortedEdges(points)[k2].d
    ensures forall k :: 0 <= k < |SortedEdges(points)| ==> PairEdge(points, SortedEdges(points)[k])
  {
    ShorterOrder();
    SortBySorted(AllPairs(points), Shorter);
    AllPairsShape(points);
    var s := SortedEdges(points);
    forall k | 0 <= k < |s|
      ensures PairEdge(points, s[k])
    {
      assert s[k] in multiset(AllPairs(points));
    }
  }

  // ----- the partition the unions build -----

  /** Node labels that name the circuit: two nodes share a circuit iff their labels agree. */
  predicate Equivalent(a: seq<nat>, b: seq<nat>)
  {
    |a| == |b| && forall x, y :: 0 <= x < |a| && 0 <= y < |a| ==> (a[x] == a[y] <==> b[x] == b[y])
  }

  /** Reference: join the edges one after another, relabelling `v`'s circuit with `u`'s label. */
  function Merged(labels: seq<nat>, es: seq<Edge>): (r: seq<nat>)
    requires forall k :: 0 <= k < |es| ==> es[k].u < |labels| && es[k].v < |labels|
    ensures |r| == |labels|
  {
    if es == [] then labels
    else
      var prev := Merged(labels, es[..|es| - 1]);
      var e := es[|es| - 1];
      Relink(prev, prev[e.u], prev[e.v])
  }

  /** How many edges the loop attempts: it stops once `count_processed >= k_shortest`. */
  function Attempts(k: int, m: nat): (c: nat)
    ensures c <= m && (k >= 0 ==> c <= k)
  {
    if k <= 0 then 0 else Min(k, m)
  }

  /** A union keeps the partition in step with the reference. */
  lemma UnionTracks(before: seq<nat>, after: seq<nat>, ref: seq<nat>, e: Edge)
    requires Equivalent(before, ref) && e.u < |ref| && e.v < |ref| && |after| == |ref|
    requires forall x, y :: 0 <= x < |ref| && 0 <= y < |ref| ==>
      (after[x] == after[y] <==> Joined(before, e.u, e.v, x, y))
    ensures Equivalent(after, Relink(ref, ref[e.u], ref[e.v]))
  {
    RelinkJoined(ref, e.u, e.v, ref[e.u], ref[e.v]);
  }

  /** `union(u, v)` for one edge: the classes follow the labels `ref` relinked along it. */
  method JoinEdge(uf: UnionFind, e: Edge, ghost ref: seq<nat>)
    requires uf.Valid() && e.u < uf.n && e.v < uf.n && |ref| == uf.n && Equivalent(uf.root, ref)
    modifies uf`root, uf`depth, uf.parent, uf.size
    ensures uf.Valid() && Equivalent(uf.root, Relink(ref, ref[e.u], ref[e.v]))
  {
    ghost var before := uf.root;
    var _ := uf.Union(e.u, e.v);
    UnionTracks(before, uf.root, ref, e);
  }

  /** One more edge relinks the two labels it joins. */
  lemma MergedStep(labels: seq<nat>, es: seq<Edge>, t: nat)
    requires t < |es| && forall k :: 0 <= k < |es| ==> es[k].u < |labels| && es[k].v < |labels|
    ensures var prev := Merged(labels, es[..t]);
      Merged(labels, es[..t + 1]) == Relink(prev, prev[es[t].u], prev[es[t].v])
  {
    assert es[..t + 1][..t] == es[..t];
  }

  /** The loop over the sorted edges: `union(u, v)` for each of the first `k_shortest`. */
  method Connect(uf: UnionFind, edges: seq<Edge>, k: int) returns (attempts: nat)
    requires uf.Valid() && forall t :: 0 <= t < |edges| ==> edges[t].u < uf.n && edges[t].v < uf.n
    modifies uf`root, uf`depth, uf.parent, uf.size
    ensures uf.Valid() && attempts == Attempts(k, |edges|)
    ensures Equivalent(uf.root, Merged(old(uf.root), edges[..attempts]))
  {
    ghost var start := uf.root;
    attempts := 0;
    for t := 0 to |edges|
      invariant uf.Valid() && attempts == t && t <= Attempts(k, |edges|)
      invariant Equivalent(uf.root, Merged(start, edges[..t]))
    {
      if attempts >= k {
        break;
      }
      JoinEdge(uf, edges[t], Merged(start, edges[..t]));
      MergedStep(start, edges, t);
      attempts := attempts + 1;
    }
  }

  // ----- circuit sizes -----

  /** The nodes whose label is in `rs`. */
  ghost function Covered(root: seq<nat>, rs: set<nat>): set<nat>
  {
    set x: nat | x < |root| && root[x] in rs
  }

  /** The nodes `0 .. n-1`. */
  function Below(n: nat): (r: set<nat>)
    ensures forall x: nat :: x in r <==> x < n
    ensures |r| == n
  {
    if n == 0 then {} else Below(n - 1) + {n - 1}
  }

  /** What `RootSizes` knows after the first nodes: one size per root met, and their sum. */
  ghost predicate SizesSoFar(root: seq<nat>, sizes: seq<nat>, reps: seq<nat>, visited: set<nat>, i: nat)
  {
    |sizes| == |reps| && visited == (set t | t in reps)
    && (forall t :: 0 <= t < |reps| ==>
         reps[t] < |root| && root[reps[t]] == reps[t] && sizes[t] == |MembersOf(root, reps[t])|)
    && (forall t1, t2 :: 0 <= t1 < t2 < |reps| ==> reps[t1] != reps[t2])
    && (forall x :: 0 <= x < i && x < |root| ==> root[x] in visited)
    && Sum(sizes) == |Covered(root, visited)|
  }

  /** `sizes` holds `size[r]` for each root `r` once, in `reps` order, and they add up to `N`. */
  ghost predicate RootList(root: seq<nat>, sizes: seq<nat>, reps: seq<nat>)
  {
    |sizes| == |reps|
    && (forall t :: 0 <= t < |reps| ==>
         reps[t] < |root| && root[reps[t]] == reps[t] && sizes[t] == |MembersOf(root, reps[t])|)
    && (forall t1, t2 :: 0 <= t1 < t2 < |reps| ==> reps[t1] != reps[t2])
    && (forall x :: 0 <= x < |root| ==> root[x] in reps)
    && Sum(sizes) == |root|
  }

  lemma FinishSizes(root: seq<nat>, sizes: seq<nat>, reps: seq<nat>, visited: set<nat>)
    requires SizesSoFar(root, sizes, reps, visited, |root|)
    ensures RootList(root, sizes, reps)
  {
    assert Covered(root, visited) == Below(|root|);
  }

  /** `find(i)` for every node, recording `size[r]` the first time each root `r` appears. */
  method RootSizes(uf: UnionFind) returns (sizes: seq<nat>, ghost reps: seq<nat>)
    requires uf.Valid()
    modifies uf.parent
    ensures uf.Valid() && RootList(uf.root, sizes, reps)
  {
    sizes, reps := [], [];
    var visited: set<nat> := {};
    ghost var root := uf.root;
    for i := 0 to uf.n
      invariant uf.Valid() && uf.root == root
      invariant SizesSoFar(root, sizes, reps, visited, i)
    {
      var r := uf.Find(i);
      uf.RootFacts(i);
      sizes, reps, visited := Visit(root, sizes, reps, visited, i, r, uf.size[r]);
    }
    FinishSizes(root, sizes, reps, visited);
  }

  /** One step of the loop: a root `r` not met before adds its size `sz`. */
  method Visit(ghost root: seq<nat>, sizes: seq<nat>, ghost reps: seq<nat>, visited: set<nat>, i: nat, r: nat, sz: nat)
    returns (sizes': seq<nat>, ghost reps': seq<nat>, visited': set<nat>)
    requires i < |root| && r < |root| && r == root[i] && root[r] == r && sz == |MembersOf(root, r)|
    requires SizesSoFar(root, sizes, reps, visited, i)
    ensures SizesSoFar(root, sizes', reps', visited', i + 1)
  {
    sizes', reps', visited' := sizes, reps, visited;
    if r !in visited {
      AddClass(root, visited, r);
      SumAppend(sizes, [sz]);
      sizes' := sizes + [sz];
      reps' := reps + [r];
      visited' := visited + {r};
    }
  }

  lemma AddClass(root: seq<nat>, rs: set<nat>, r: nat)
    requires r !in rs
    ensures Covered(root, rs + {r}) == Covered(root, rs) + MembersOf(root, r)
    ensures |Covered(root, rs + {r})| == |Covered(root, rs)| + |MembersOf(root, r)|
  {
    assert Covered(root, rs) !! MembersOf(root, r);
  }

  /** `root_sizes.sort(reverse=True)`. */
  predicate Greater(a: nat, b: nat)
  {
    a > b
  }

  /** The product of the three largest sizes, or of all of them when there are fewer. */
  function TopProduct(sizes: seq<nat>): int
  {
    var s := SortBy(sizes, Greater);
    if |s| < 3 then Prod(s) else s[0] * s[1] * s[2]
  }

  /** The largest sizes come first, so `TopProduct` multiplies the three largest. */
  lemma TopFirst(sizes: seq<nat>)
    ensures multiset(SortBy(sizes, Greater)) == multiset(sizes)
    ensures forall i, j :: 0 <= i < j < |sizes| ==> SortBy(sizes, Greater)[i] >= SortBy(sizes, Greater)[j]
  {
    SortBySorted(sizes, Greater);
  }

  /** `result = 1; for s in root_sizes: result *= s` or the product of the first three. */
  method Product(sorted: seq<nat>) returns (result: int)
    ensures result == if |sorted| < 3 then Prod(sorted) else sorted[0] * sorted[1] * sorted[2]
  {
    if |sorted| < 3 {
      result := 1;
      for t := 0 to |sorted|
        invariant result == Prod(sorted[..t])
      {
        assert sorted[..t + 1][..t] == sorted[..t];
        result := result * sorted[t];
      }
      assert sorted[..|sorted|] == sorted;
    } else {
      result := sorted[0] * sorted[1] * sorted[2];
    }
  }

  /** The class of `x` under labels `l`. */
  ghost function Class(l: seq<nat>, x: nat): set<nat>
  {
    set y: nat | y < |l| && x < |l| && l[y] == l[x]
  }

  /** `reps` names each circuit of `l` once, and `sizes` holds their sizes in that order. */
  ghost predicate Representatives(l: seq<nat>, sizes: seq<nat>, reps: seq<nat>)
  {
    |reps| == |sizes|
    && (forall t :: 0 <= t < |reps| ==> reps[t] < |l| && sizes[t] == |Class(l, reps[t])|)
    && (forall t1, t2 :: 0 <= t1 < t2 < |reps| ==> l[reps[t1]] != l[reps[t2]])
    && (forall x :: 0 <= x < |l| ==> exists t :: 0 <= t < |reps| && l[reps[t]] == l[x])
  }

  /** `sizes` lists the circuit sizes of `l`, one per circuit, in some order. */
  ghost predicate CircuitSizes(l: seq<nat>, sizes: seq<nat>)
  {
    exists reps :: Representatives(l, sizes, reps)
  }

  /** The union-find roots and the reference labels describe the same circuits. */
  lemma SizesOfCircuits(root: seq<nat>, l: seq<nat>, sizes: seq<nat>, reps: seq<nat>)
    requires RootList(root, sizes, reps) && Equivalent(root, l)
    ensures Representatives(l, sizes, reps)
  {
    forall t | 0 <= t < |reps|
      ensures MembersOf(root, reps[t]) == Class(l, reps[t])
    {
    }
    forall x | 0 <= x < |l|
      ensures exists t :: 0 <= t < |reps| && l[reps[t]] == l[x]
    {
      assert root[x] in reps;
      var t :| 0 <= t < |reps| && reps[t] == root[x];
      assert root[reps[t]] == root[x];
    }
  }

  // ----- input and answer -----

  /** `x, y, z = map(int, line.strip().split(','))`, `None` where that raises `ValueError`. */
  function PointOf(line: string): (p: Option<Point>)
    ensures p.Some? ==> |Split(line, ',')| == 3
  {
    var parts := Split(line, ',');
    if |parts| != 3 then None
    else match (ParseInt(parts[0]), ParseInt(parts[1]), ParseInt(parts[2]))
      case (Some(x), Some(y), Some(z)) => Some((x, y, z))
      case _ => None
  }

  /** The points of the non-blank lines, in order, or `None` when one of them raises. */
  function PointsOf(lines: seq<string>): (r: Option<seq<Point>>)
    ensures r.Some? ==> |r.value| == |lines|
  {
    if lines == [] then Some([])
    else match (PointsOf(lines[..|lines| - 1]), PointOf(lines[|lines| - 1]))
      case (Some(ps), Some(p)) => Some(ps + [p])
      case _ => None
  }

  /** Point `k` is the point of line `k`. */
  lemma {:induction false} PointsOfEach(lines: seq<string>, k: nat)
    requires PointsOf(lines).Some? && k < |lines|
    ensures PointOf(lines[k]) == Some(PointsOf(lines).value[k])
  {
    if k < |lines| - 1 {
      PointsOfEach(lines[..|lines| - 1], k);
    }
  }

  lemma {:induction false} PointsFail(lines: seq<string>, k: nat)
    requires k < |lines| && PointOf(lines[k]).None?
    ensures PointsOf(lines).None?
  {
    if k < |lines| - 1 {
      PointsFail(lines[..|lines| - 1], k);
    }
  }

  /** One more readable line adds its point. */
  lemma PointsStep(lines: seq<string>, k: nat, ps: seq<Point>)
    requires k < |lines| && PointsOf(lines[..k]) == Some(ps) && PointOf(lines[k]).Some?
    ensures PointsOf(lines[..k + 1]) == Some(ps + [PointOf(lines[k]).value])
  {
    assert lines[..k + 1][..k] == lines[..k];
  }

  /** The reading loop of `solve`. */
  method ReadPoints(text: string) returns (points: Option<seq<Point>>)
    ensures points == PointsOf(StrippedLines(text))
  {
    var lines := StrippedLines(text);
    var ps: seq<Point> := [];
    for k := 0 to |lines|
      invariant PointsOf(lines[..k]) == Some(ps)
    {
      var p := PointOf(lines[k]);
      if p.None? {
        PointsFail(lines, k);
        return None;
      }
      PointsStep(lines, k, ps);
      ps := ps + [p.value];
    }
    assert lines[..|lines|] == lines;
    points := Some(ps);
  }

  /** Every node alone. */
  function Identity(n: nat): (l: seq<nat>)
    ensures |l| == n
  {
    seq(n, x requires 0 <= x < n => x)
  }

  /** The circuits after the first `k_shortest` sorted edges, as reference labels. */
  ghost function Circuits(points: seq<Point>, k: int): seq<nat>
  {
    SortedEdgesFacts(points);
    var es := SortedEdges(points);
    Merged(Identity(|points|), es[..Attempts(k, |es|)])
  }

  /**
   * `solve` on the file text: `None` when a line does not hold three integers; otherwise the
   * product of the three largest circuit sizes (all of them when fewer) after the first
   * `k_shortest` edges by distance.
   */
  method Solve(text: string, k: int) returns (r: Option<int>)
    ensures r.None? <==> PointsOf(StrippedLines(text)).None?
    ensures r.Some? ==> exists sizes ::
      CircuitSizes(Circuits(PointsOf(StrippedLines(text)).value, k), sizes) && r.value == TopProduct(sizes)
  {
    var read := ReadPoints(text);
    if read.None? {
      return None;
    }
    var result := Answer(read.value, k);
    r := Some(result);
  }

  /** `solve` after the read. */
  method Answer(points: seq<Point>, k: int) returns (result: int)
    ensures exists sizes :: CircuitSizes(Circuits(points, k), sizes) && result == TopProduct(sizes)
  {
    var edges := BuildEdges(points);
    var sorted := SortBy(edges, Shorter);
    SortedEdgesFacts(points);
    var uf := new UnionFind(|points|);
    assert uf.root == Identity(|points|);
    var attempts := Connect(uf, sorted, k);
    ghost var l := Merged(Identity(|points|), sorted[..attempts]);
    assert l == Circuits(points, k);
    var sizes, reps := RootSizes(uf);
    SizesOfCircuits(uf.root, l, sizes, reps);
    assert CircuitSizes(l, sizes);
    result := Product(SortBy(sizes, Greater));
  }
}
