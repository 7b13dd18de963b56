/** The adjacency-list graph ADT: vertices `[0, numVertices)`, unit-weight
    edges, parallel edges and self-loops allowed. */
module Graphs {
  import opened Seqs

  /** `numVertices` is stored apart from `adj` because `removeAllEdges` empties
      the outer list without touching the vertex count. */
  datatype Graph = Graph(numVertices: int, directed: bool, adj: seq<seq<int>>)

  predicate InRange(g: Graph, u: int) {
    0 <= u < g.numVertices
  }

  /** One adjacency list per vertex. */
  predicate Shaped(g: Graph) {
    |g.adj| == g.numVertices
  }

  /** Every stored neighbour is a vertex of the graph. */
  predicate NeighboursInRange(g: Graph) {
    forall u, k :: 0 <= u < |g.adj| && 0 <= k < |g.adj[u]| ==> 0 <= g.adj[u][k] < g.numVertices
  }

  /** In an undirected graph `v` occurs in `adj[u]` as often as `u` occurs in `adj[v]`. */
  predicate Symmetric(g: Graph) {
    !g.directed ==>
      forall u, v :: 0 <= u < |g.adj| && 0 <= v < |g.adj| ==> multiset(g.adj[u])[v] == multiset(g.adj[v])[u]
  }

  /** The invariant every graph built only by the constructor, `addEdge` and `removeEdge` keeps. */
  predicate Valid(g: Graph) {
    Shaped(g) && NeighboursInRange(g) && Symmetric(g)
  }

  /** No list holds a vertex twice and no vertex lists itself. */
  ghost predicate Simple(g: Graph) {
    && (forall u, w :: 0 <= u < |g.adj| ==> multiset(g.adj[u])[w] <= 1)
    && (forall u :: 0 <= u < |g.adj| ==> u !in g.adj[u])
  }

  /** `Graph(vertices, directed)`: one empty list per vertex. */
  function New(n: nat, directed: bool): (g: Graph)
    ensures Valid(g) && g.numVertices == n && g.directed == directed
    ensures TotalLength(g.adj) == 0
  {
    var adj := seq(n, _ => []);
    assert TotalLength(adj) == 0 by { EmptyListsTotal(adj); }
    Graph(n, directed, adj)
  }

  lemma {:induction false} EmptyListsTotal(adj: seq<seq<int>>)
    requires forall u :: 0 <= u < |adj| ==> adj[u] == []
    ensures TotalLength(adj) == 0
  {
    if |adj| > 0 {
      EmptyListsTotal(adj[1..]);
    }
  }

  /** What an in-range `addEdge(u, v)` appends to the list of `w`. */
  function Added(g: Graph, u: int, v: int, w: int): seq<int> {
    (if w == u then [v] else []) + (if !g.directed && w == v then [u] else [])
  }

  /** `addEdge(u, v)`: out-of-range indices change nothing; otherwise `v` is
      appended to `adj[u]` and, for an undirected graph, `u` to `adj[v]`. */
  function AddEdge(g: Graph, u: int, v: int): (r: Graph)
    requires InRange(g, u) && InRange(g, v) ==> Shaped(g)
    ensures r.numVertices == g.numVertices && r.directed == g.directed && |r.adj| == |g.adj|
    ensures !(InRange(g, u) && InRange(g, v)) ==> r == g
    ensures InRange(g, u) && InRange(g, v) ==>
      forall w :: 0 <= w < |g.adj| ==>
        r.adj[w] == g.adj[w] + Added(g, u, v, w)
  {
    if !(InRange(g, u) && InRange(g, v)) then g
    else
      var a1 := g.adj[u := g.adj[u] + [v]];
      var a2 := if g.directed then a1 else a1[v := a1[v] + [u]];
      assert forall w :: 0 <= w < |g.adj| ==> a2[w] == g.adj[w] + Added(g, u, v, w);
      Graph(g.numVertices, g.directed, a2)
  }

  /** `addEdge` keeps the range and symmetry invariants. */
  lemma AddEdgeKeepsValid(g: Graph, u: int, v: int)
    requires Valid(g)
    ensures Valid(AddEdge(g, u, v))
  {
    if InRange(g, u) && InRange(g, v) {
      AddEdgeKeepsRange(g, u, v);
      AddEdgeKeepsSymmetric(g, u, v);
    }
  }

  lemma AddEdgeKeepsRange(g: Graph, u: int, v: int)
    requires Valid(g) && InRange(g, u) && InRange(g, v)
    ensures NeighboursInRange(AddEdge(g, u, v))
  {
    var r := AddEdge(g, u, v);
    forall x, k | 0 <= x < |r.adj| && 0 <= k < |r.adj[x]|
      ensures 0 <= r.adj[x][k] < r.numVertices
    {
      assert r.adj[x] == g.adj[x] + Added(g, u, v, x);
      if k < |g.adj[x]| {
        assert r.adj[x][k] == g.adj[x][k];
      } else {
        assert r.adj[x][k] in Added(g, u, v, x);
      }
    }
  }

  lemma AddEdgeKeepsSymmetric(g: Graph, u: int, v: int)
    requires Valid(g) && InRange(g, u) && InRange(g, v)
    ensures Symmetric(AddEdge(g, u, v))
  {
    var r := AddEdge(g, u, v);
    if !g.directed {
      forall x, y | 0 <= x < |r.adj| && 0 <= y < |r.adj|
        ensures multiset(r.adj[x])[y] == multiset(r.adj[y])[x]
      {
        assert multiset(g.adj[x])[y] == multiset(g.adj[y])[x];
        AddedPair(g, u, v, x, y);
        AddedPair(g, u, v, y, x);
      }
    }
  }

  /** How often `y` occurs in the list of `x` after an in-range `addEdge(u, v)`. */
  lemma AddedPair(g: Graph, u: int, v: int, x: int, y: int)
    requires Valid(g) && InRange(g, u) && InRange(g, v) && 0 <= x < |g.adj| && 0 <= y < |g.adj|
    ensures multiset(AddEdge(g, u, v).adj[x])[y] == multiset(g.adj[x])[y] +
      (if x == u && y == v then 1 else 0) + (if !g.directed && x == v && y == u then 1 else 0)
  {
    var r := AddEdge(g, u, v);
    assert r.adj[x] == g.adj[x] + Added(g, u, v, x);
    assert multiset(r.adj[x]) == multiset(g.adj[x]) + multiset(Added(g, u, v, x));
    AddedCount(g, u, v, x, y);
  }

  lemma AddedCount(g: Graph, u: int, v: int, x: int, y: int)
    ensures multiset(Added(g, u, v, x))[y] ==
      (if x == u && y == v then 1 else 0) + (if !g.directed && x == v && y == u then 1 else 0)
  {
  }

  /** `removeEdge(u, v)`: out-of-range indices change nothing; otherwise every
      `v` leaves `adj[u]` and, for an undirected graph, every `u` leaves `adj[v]`. */
  function RemoveEdge(g: Graph, u: int, v: int): (r: Graph)
    requires InRange(g, u) && InRange(g, v) ==> Shaped(g)
    ensures r.numVertices == g.numVertices && r.directed == g.directed && |r.adj| == |g.adj|
    ensures !(InRange(g, u) && InRange(g, v)) ==> r == g
    ensures InRange(g, u) && InRange(g, v) ==>
      && v !in r.adj[u]
      && (!g.directed ==> u !in r.adj[v])
      && forall w :: 0 <= w < |g.adj| && w != u && (g.directed || w != v) ==> r.adj[w] == g.adj[w]
  {
    if !(InRange(g, u) && InRange(g, v)) then g
    else
      var a1 := g.adj[u := RemoveAll(g.adj[u], v)];
      var a2 := if g.directed then a1 else a1[v := RemoveAll(a1[v], u)];
      Graph(g.numVertices, g.directed, a2)
  }

  /** `removeEdge` keeps the range and symmetry invariants. */
  lemma RemoveEdgeKeepsValid(g: Graph, u: int, v: int)
    requires Valid(g)
    ensures Valid(RemoveEdge(g, u, v))
  {
    var r := RemoveEdge(g, u, v);
    if !(InRange(g, u) && InRange(g, v)) {
      return;
    }
    RemoveEdgeKeepsRange(g, u, v, r);
    RemoveEdgeKeepsSymmetry(g, u, v, r);
  }

  lemma RemoveEdgeKeepsRange(g: Graph, u: int, v: int, r: Graph)
    requires Shaped(g) && NeighboursInRange(g) && InRange(g, u) && InRange(g, v)
    requires r == Graph(g.numVertices, g.directed,
      var a1 := g.adj[u := RemoveAll(g.adj[u], v)];
      if g.directed then a1 else a1[v := RemoveAll(a1[v], u)])
    ensures NeighboursInRange(r)
  {
    forall x, k | 0 <= x < |r.adj| && 0 <= k < |r.adj[x]|
      ensures 0 <= r.adj[x][k] < r.numVertices
    {
      RemovedCounts(g, u, v, r, x);
      var y := r.adj[x][k];
      assert y in multiset(r.adj[x]);
      assert y in g.adj[x];
    }
  }

  lemma RemoveEdgeKeepsSymmetry(g: Graph, u: int, v: int, r: Graph)
    requires Shaped(g) && Symmetric(g) && InRange(g, u) && InRange(g, v)
    requires r == Graph(g.numVertices, g.directed,
      var a1 := g.adj[u := RemoveAll(g.adj[u], v)];
      if g.directed then a1 else a1[v := RemoveAll(a1[v], u)])
    ensures Symmetric(r)
  {
    if !g.directed {
      forall x, y | 0 <= x < |r.adj| && 0 <= y < |r.adj|
        ensures multiset(r.adj[x])[y] == multiset(r.adj[y])[x]
      {
        RemovedCounts(g, u, v, r, x);
        RemovedCounts(g, u, v, r, y);
        assert multiset(g.adj[x])[y] == multiset(g.adj[y])[x];
      }
    }
  }

  lemma RemovedCounts(g: Graph, u: int, v: int, r: Graph, x: int)
    requires Shaped(g) && InRange(g, u) && InRange(g, v) && 0 <= x < |g.adj|
    requires r == Graph(g.numVertices, g.directed,
      var a1 := g.adj[u := RemoveAll(g.adj[u], v)];
      if g.directed then a1 else a1[v := RemoveAll(a1[v], u)])
    ensures multiset(r.adj[x]) <= multiset(g.adj[x])
    ensures !g.directed ==> forall y :: multiset(r.adj[x])[y] == (if (x == u && y == v) || (x == v && y == u) then 0 else multiset(g.adj[x])[y])
  {
    if g.directed {
      if x == u {
        assert r.adj[x] == RemoveAll(g.adj[u], v);
        RemoveAllCount(g.adj[u], v);
      } else {
        assert r.adj[x] == g.adj[x];
      }
    } else if x == u && x == v {
      assert r.adj[x] == RemoveAll(RemoveAll(g.adj[u], v), u);
      RemoveAllCount(g.adj[u], v);
      RemoveAllCount(RemoveAll(g.adj[u], v), u);
    } else if x == u {
      assert r.adj[x] == RemoveAll(g.adj[u], v);
      RemoveAllCount(g.adj[u], v);
    } else if x == v {
      assert r.adj[x] == RemoveAll(g.adj[v], u);
      RemoveAllCount(g.adj[v], u);
    } else {
      assert r.adj[x] == g.adj[x];
    }
  }

  /** `getNeighbors(v)`: no bounds check in the source, so `v` must index a list. */
  function Neighbours(g: Graph, v: int): (r: seq<int>)
    requires 0 <= v < |g.adj|
    ensures Valid(g) ==> forall w :: w in r ==> InRange(g, w)
  {
    g.adj[v]
  }

  /** `getNumVertices()`. */
  function NumVertices(g: Graph): int {
    g.numVertices
  }

  /** `removeAllEdges()` (the part3 version): every list is emptied and then
      the outer list is cleared, so no lists remain and the vertex count no
      longer matches the number of lists. */
  function RemoveAllEdges(g: Graph): (r: Graph)
    ensures r.numVertices == g.numVertices && r.directed == g.directed
    ensures |r.adj| == 0
    ensures g.numVertices != 0 ==> !Shaped(r)
  {
    Graph(g.numVertices, g.directed, [])
  }

  /** Adding an edge absent from both lists and removing it again restores the graph. */
  lemma AddThenRemove(g: Graph, u: int, v: int)
    requires Valid(g) && InRange(g, u) && InRange(g, v)
    requires v !in g.adj[u] && (!g.directed ==> u !in g.adj[v])
    ensures RemoveEdge(AddEdge(g, u, v), u, v) == g
  {
    var r := RemoveEdge(AddEdge(g, u, v), u, v);
    forall w | 0 <= w < |g.adj|
      ensures r.adj[w] == g.adj[w]
    {
      AddThenRemoveRow(g, u, v, w);
    }
    assert r.adj == g.adj;
  }

  lemma AddThenRemoveRow(g: Graph, u: int, v: int, w: int)
    requires Shaped(g) && InRange(g, u) && InRange(g, v) && 0 <= w < |g.adj|
    requires v !in g.adj[u] && (!g.directed ==> u !in g.adj[v])
    ensures RemoveEdge(AddEdge(g, u, v), u, v).adj[w] == g.adj[w]
  {
    if !g.directed && w == u && w == v {
      AddThenRemoveSelfLoop(g, u);
    } else if w == u {
      AddThenRemoveAt(g, u, v, w, v, [v]);
    } else if !g.directed && w == v {
      AddThenRemoveAt(g, u, v, w, u, [u]);
    }
  }

  lemma AddThenRemoveSelfLoop(g: Graph, u: int)
    requires Shaped(g) && InRange(g, u) && !g.directed && u !in g.adj[u]
    ensures RemoveEdge(AddEdge(g, u, u), u, u).adj[u] == g.adj[u]
  {
    var row := g.adj[u];
    assert RemoveAll(RemoveAll(row + [u, u], u), u) == row by {
      RemoveAllDropsTail(row, u, [u, u]);
      RemoveAllAbsent(row, u);
    }
    var a := AddEdge(g, u, u);
    assert a.adj[u] == row + [u, u] by {
      assert Added(g, u, u, u) == [u, u];
    }
    assert RemoveEdge(a, u, u).adj[u] == RemoveAll(RemoveAll(a.adj[u], u), u) by {
      RemovedRow(a, u, u, u);
    }
  }

  lemma AddThenRemoveAt(g: Graph, u: int, v: int, w: int, x: int, t: seq<int>)
    requires Shaped(g) && InRange(g, u) && InRange(g, v) && 0 <= w < |g.adj|
    requires !(!g.directed && u == v)
    requires (w == u && x == v) || (!g.directed && w == v && x == u)
    requires t == [x] && x !in g.adj[w]
    ensures RemoveEdge(AddEdge(g, u, v), u, v).adj[w] == g.adj[w]
  {
    var row := g.adj[w];
    assert RemoveAll(row + t, x) == row by {
      RemoveAllDropsTail(row, x, t);
    }
    var a := AddEdge(g, u, v);
    assert a.adj[w] == row + t by {
      assert Added(g, u, v, w) == t;
    }
    assert RemoveEdge(a, u, v).adj[w] == RemoveAll(a.adj[w], x) by {
      RemovedRow(a, u, v, w);
    }
  }

  /** The list of `w` after an in-range `removeEdge(u, v)`. */
  lemma RemovedRow(g: Graph, u: int, v: int, w: int)
    requires Shaped(g) && InRange(g, u) && InRange(g, v) && 0 <= w < |g.adj|
    ensures RemoveEdge(g, u, v).adj[w] ==
      if !g.directed && w == u && w == v then RemoveAll(RemoveAll(g.adj[w], v), v)
      else if w == u then RemoveAll(g.adj[w], v)
      else if !g.directed && w == v then RemoveAll(g.adj[w], u)
      else g.adj[w]
  {
  }

  /** Removing `x` from a list that lacks it, extended by copies of `x`, gives the list back. */
  lemma RemoveAllDropsTail(s: seq<int>, x: int, t: seq<int>)
    requires x !in s && forall i :: 0 <= i < |t| ==> t[i] == x
    ensures RemoveAll(s + t, x) == s
  {
    RemoveAllAppend(s, t, x);
    RemoveAllAbsent(s, x);
    assert RemoveAll(t, x) == [] by {
      RemoveAllCount(t, x);
      assert multiset(RemoveAll(t, x)) == multiset{};
    }
    assert s + [] == s;
  }

  /** One call of `addEdge` or `removeEdge`, with its arguments. */
  datatype EdgeOp = AddOp(u: int, v: int) | RemoveOp(u: int, v: int)

  function ApplyOp(g: Graph, op: EdgeOp): Graph
    requires Shaped(g)
  {
    match op
    case AddOp(u, v) => AddEdge(g, u, v)
    case RemoveOp(u, v) => RemoveEdge(g, u, v)
  }

  /** The calls of `ops`, in order. */
  function ApplyOps(g: Graph, ops: seq<EdgeOp>): Graph
    requires Shaped(g)
    decreases |ops|
  {
    if |ops| == 0 then g else ApplyOps(ApplyOp(g, ops[0]), ops[1..])
  }

  /** However many edges are added and removed, in or out of range, the
      vertex count and the direction flag stay those of the graph, and a
      valid graph stays valid. */
  lemma {:induction false} EdgeOpsKeepVertexCount(g: Graph, ops: seq<EdgeOp>)
    requires Shaped(g)
    ensures NumVertices(ApplyOps(g, ops)) == NumVertices(g)
    ensures ApplyOps(g, ops).directed == g.directed
    ensures Valid(g) ==> Valid(ApplyOps(g, ops))
    decreases |ops|
  {
    if |ops| > 0 {
      var h := ApplyOp(g, ops[0]);
      if Valid(g) {
        match ops[0]
        case AddOp(u, v) => AddEdgeKeepsValid(g, u, v);
        case RemoveOp(u, v) => RemoveEdgeKeepsValid(g, u, v);
      }
      EdgeOpsKeepVertexCount(h, ops[1..]);
    }
  }

  /** After an in-range `addEdge` on an undirected graph each endpoint lists the other. */
  lemma AddEdgeLinksBothEnds(g: Graph, u: int, v: int)
    requires Shaped(g) && !g.directed && InRange(g, u) && InRange(g, v)
    ensures v in Neighbours(AddEdge(g, u, v), u) && u in Neighbours(AddEdge(g, u, v), v)
  {
    var r := AddEdge(g, u, v);
    assert r.adj[u] == g.adj[u] + [v] + (if u == v then [u] else []);
    assert r.adj[u][|g.adj[u]|] == v;
    if u != v {
      assert r.adj[v] == g.adj[v] + [u];
      assert r.adj[v][|g.adj[v]|] == u;
    }
  }
}
