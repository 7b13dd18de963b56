/** `Graph::mstWeight` (part7): Prim's algorithm with every edge of weight 1,
    started from vertex 0. Weights are unbounded integers here; `INT_MAX`
    keeps its value as the "not yet reached" mark. */
module Mst {
  import opened Seqs
  import opened Graphs
  import opened Reach

  /** The selection loop: scanning from `v` with best candidate `u` so far
      (-1 for none), keep the first unvisited vertex of least `minEdge`. */
  function Pick(visited: set<int>, minEdge: seq<int>, v: int, u: int): (r: int)
    requires 0 <= v <= |minEdge| && -1 <= u < |minEdge|
    requires u == -1 ==> forall w :: 0 <= w < v ==> w in visited
    requires u != -1 ==> u !in visited && forall w :: 0 <= w < v && w !in visited ==> minEdge[u] <= minEdge[w]
    ensures r == -1 <==> forall w :: 0 <= w < |minEdge| ==> w in visited
    ensures r != -1 ==> 0 <= r < |minEdge| && r !in visited
    ensures r != -1 ==> forall w :: 0 <= w < |minEdge| && w !in visited ==> minEdge[r] <= minEdge[w]
    decreases |minEdge| - v
  {
    if v == |minEdge| then u
    else if v !in visited && (u == -1 || minEdge[v] < minEdge[u]) then Pick(visited, minEdge, v + 1, v)
    else Pick(visited, minEdge, v + 1, u)
  }

  /** The neighbour loop: every unvisited entry of `list` gets `minEdge`
      lowered to at most 1. */
  function Relax(list: seq<int>, visited: set<int>, minEdge: seq<int>): (r: seq<int>)
    requires forall k :: 0 <= k < |list| ==> 0 <= list[k] < |minEdge|
    ensures |r| == |minEdge|
    ensures forall w :: 0 <= w < |minEdge| ==>
      r[w] == if w !in visited && w in list then Min(minEdge[w], 1) else minEdge[w]
  {
    if |list| == 0 then minEdge
    else
      var w := list[0];
      var next := if w !in visited then minEdge[w := Min(minEdge[w], 1)] else minEdge;
      Relax(list[1..], visited, next)
  }

  /** The outer loop, one iteration per vertex: pick, mark, add its
      `minEdge`, relax its neighbours. */
  function PrimLoop(adj: seq<seq<int>>, visited: set<int>, minEdge: seq<int>, total: int): int
    requires WellFormed(adj) && |minEdge| == |adj|
    requires visited <= Range(|adj|)
    decreases |adj| - |visited|
  {
    RangeCard(|adj|);
    SubsetCard(visited, Range(|adj|));
    if |visited| == |adj| then total
    else
      var u := Pick(visited, minEdge, 0, -1);
      assert u != -1 by {
        var x := MissesSome(visited, |adj|);
      }
      var visited' := visited + {u};
      PrimLoop(adj, visited', Relax(adj[u], visited', minEdge), total + minEdge[u])
  }

  /** One iteration of the outer loop, unfolded. */
  lemma PrimLoopUnfold(adj: seq<seq<int>>, visited: set<int>, minEdge: seq<int>, total: int, u: int)
    requires WellFormed(adj) && |minEdge| == |adj| && visited <= Range(|adj|) && |visited| < |adj|
    requires u == Pick(visited, minEdge, 0, -1)
    ensures 0 <= u < |adj| && u !in visited
    ensures PrimLoop(adj, visited, minEdge, total) ==
      PrimLoop(adj, visited + {u}, Relax(adj[u], visited + {u}, minEdge), total + minEdge[u])
  {
    var x := MissesSome(visited, |adj|);
  }

  /** `minEdge` as the loop first sees it: 0 at vertex 0, `INT_MAX` elsewhere. */
  function InitialMinEdge(n: nat): (r: seq<int>)
    ensures |r| == n && forall v :: 0 <= v < n ==> r[v] == if v == 0 then 0 else IntMax
  {
    seq(n, v => if v == 0 then 0 else IntMax)
  }

  /** -1 for a directed graph, else the total of the picked `minEdge` values. */
  function MstWeight(g: Graph): int
    requires Shaped(g) && NeighboursInRange(g)
    requires !g.directed ==> g.numVertices >= 1
  {
    if g.directed then -1
    else PrimLoop(g.adj, {}, InitialMinEdge(|g.adj|), 0)
  }

  // ---------------------------------------------------------------------
  // What the loop computes.

  /** Facts every iteration keeps: vertex 0 goes first, and an unvisited
      vertex other than 0 has `minEdge` 1 or `INT_MAX`. */
  ghost predicate Base(adj: seq<seq<int>>, visited: set<int>, minEdge: seq<int>) {
    && WellFormed(adj) && |minEdge| == |adj| && visited <= Range(|adj|)
    && (visited == {} || 0 in visited)
    && (forall v :: 0 <= v < |adj| && v !in visited ==> if v == 0 then minEdge[v] == 0 else 1 <= minEdge[v] <= IntMax)
  }

  /** One iteration keeps `Base`; the first picks vertex 0 at cost 0 and the
      later ones cost at least 1. */
  lemma BaseStep(adj: seq<seq<int>>, visited: set<int>, minEdge: seq<int>, u: int)
    requires Base(adj, visited, minEdge) && |visited| < |adj|
    requires u == Pick(visited, minEdge, 0, -1)
    ensures 0 <= u < |adj| && u !in visited
    ensures Base(adj, visited + {u}, Relax(adj[u], visited + {u}, minEdge))
    ensures visited == {} ==> u == 0 && minEdge[u] == 0
    ensures visited != {} ==> 1 <= minEdge[u] <= IntMax
  {
    var x := MissesSome(visited, |adj|);
    if visited == {} {
      assert minEdge[u] <= minEdge[0];
    }
  }

  /** Every unvisited vertex joined by an edge from a visited one has `minEdge` 1. */
  ghost predicate Frontier(adj: seq<seq<int>>, visited: set<int>, minEdge: seq<int>) {
    forall u, k :: u in visited && 0 <= u < |adj| && 0 <= k < |adj[u]| && adj[u][k] !in visited ==>
      0 <= adj[u][k] < |minEdge| && minEdge[adj[u][k]] == 1
  }

  /** Every vertex can be reached from vertex 0. */
  ghost predicate ConnectedFromZero(adj: seq<seq<int>>) {
    forall v :: 0 <= v < |adj| ==> Reachable(adj, 0, v)
  }

  lemma FrontierStep(adj: seq<seq<int>>, visited: set<int>, minEdge: seq<int>, u: int)
    requires Base(adj, visited, minEdge) && Frontier(adj, visited, minEdge)
    requires 0 <= u < |adj| && u !in visited && (visited == {} ==> u == 0)
    ensures Frontier(adj, visited + {u}, Relax(adj[u], visited + {u}, minEdge))
  {
  }

  /** On a graph where vertex 0 reaches everything, a later pick costs exactly 1. */
  lemma ConnectedPickCostsOne(adj: seq<seq<int>>, visited: set<int>, minEdge: seq<int>)
    requires Base(adj, visited, minEdge) && Frontier(adj, visited, minEdge) && ConnectedFromZero(adj)
    requires visited != {} && |visited| < |adj|
    ensures var u := Pick(visited, minEdge, 0, -1); 0 <= u < |minEdge| && minEdge[u] == 1
  {
    var x := MissesSome(visited, |adj|);
    assert Reachable(adj, 0, x);
    assert Closed(adj, visited) && 0 in visited ==> x in visited;
    var w, k :| w in visited && 0 <= w < |adj| && 0 <= k < |adj[w]| && adj[w][k] !in visited;
    var u := Pick(visited, minEdge, 0, -1);
    assert minEdge[u] <= minEdge[adj[w][k]];
  }

  lemma {:induction false} PrimConnected(adj: seq<seq<int>>, visited: set<int>, minEdge: seq<int>, total: int)
    requires Base(adj, visited, minEdge) && Frontier(adj, visited, minEdge) && ConnectedFromZero(adj)
    requires total == if visited == {} then 0 else |visited| - 1
    requires |adj| >= 1
    ensures PrimLoop(adj, visited, minEdge, total) == |adj| - 1
    decreases |adj| - |visited|, 1
  {
    RangeCard(|adj|);
    SubsetCard(visited, Range(|adj|));
    if |visited| < |adj| {
      var u := Pick(visited, minEdge, 0, -1);
      PrimConnectedNext(adj, visited, minEdge, total, u);
      PrimLoopUnfold(adj, visited, minEdge, total, u);
    }
  }

  /** The weight for the state after one more iteration. */
  lemma {:induction false} PrimConnectedNext(adj: seq<seq<int>>, visited: set<int>, minEdge: seq<int>, total: int, u: int)
    requires Base(adj, visited, minEdge) && Frontier(adj, visited, minEdge) && ConnectedFromZero(adj)
    requires total == if visited == {} then 0 else |visited| - 1
    requires |visited| < |adj| && u == Pick(visited, minEdge, 0, -1)
    ensures 0 <= u < |adj| && u !in visited
    ensures PrimLoop(adj, visited + {u}, Relax(adj[u], visited + {u}, minEdge), total + minEdge[u]) == |adj| - 1
    decreases |adj| - |visited|, 0
  {
    BaseStep(adj, visited, minEdge, u);
    var visited', minEdge', total' := visited + {u}, Relax(adj[u], visited + {u}, minEdge), total + minEdge[u];
    assert Frontier(adj, visited', minEdge') by {
      FrontierStep(adj, visited, minEdge, u);
    }
    assert total' == |visited'| - 1 by {
      if visited != {} {
        ConnectedPickCostsOne(adj, visited, minEdge);
      }
      assert |visited'| == |visited| + 1;
    }
    PrimConnected(adj, visited', minEdge', total');
  }

  /** While only vertices of the closed set `reach` are visited, the vertices
      outside it keep `minEdge` at `INT_MAX`. */
  ghost predicate Outside(adj: seq<seq<int>>, visited: set<int>, minEdge: seq<int>, reach: set<int>) {
    visited <= reach ==> forall v :: 0 <= v < |minEdge| && v !in visited && v !in reach ==> minEdge[v] == IntMax
  }

  /** The running total is at least one per pick after the first, and has
      taken an `INT_MAX` once a vertex outside `reach` was picked. */
  ghost predicate TotalBound(visited: set<int>, total: int, reach: set<int>) {
    && (visited == {} ==> total == 0)
    && (visited != {} ==> total >= |visited| - 1 + (if visited <= reach then 0 else IntMax - 1))
  }

  lemma OutsideStep(adj: seq<seq<int>>, visited: set<int>, minEdge: seq<int>, reach: set<int>, u: int)
    requires Base(adj, visited, minEdge) && Outside(adj, visited, minEdge, reach)
    requires Closed(adj, reach) && 0 <= u < |adj| && u !in visited
    ensures Outside(adj, visited + {u}, Relax(adj[u], visited + {u}, minEdge), reach)
  {
    var visited' := visited + {u};
    var minEdge' := Relax(adj[u], visited', minEdge);
    if visited' <= reach {
      forall v | 0 <= v < |minEdge| && v !in visited' && v !in reach ensures minEdge'[v] == IntMax {
        assert v !in adj[u];
      }
    }
  }

  /** A subset of `[0, n)` with `n` members is all of it. */
  lemma FullRange(s: set<int>, n: int)
    requires n >= 0 && s <= Range(n) && |s| >= n
    ensures s == Range(n)
  {
    RangeCard(n);
    assert |Range(n) - s| == 0;
  }

  lemma TotalStep(adj: seq<seq<int>>, visited: set<int>, minEdge: seq<int>, total: int, reach: set<int>, u: int)
    requires Base(adj, visited, minEdge) && Outside(adj, visited, minEdge, reach) && TotalBound(visited, total, reach)
    requires 0 in reach && 0 <= u < |adj| && u !in visited
    requires visited == {} ==> u == 0 && minEdge[u] == 0
    requires visited != {} ==> 1 <= minEdge[u] <= IntMax
    ensures TotalBound(visited + {u}, total + minEdge[u], reach)
  {
    assert |visited + {u}| == |visited| + 1;
  }

  /** What the loop returns: one per vertex after the first, and an
      `INT_MAX` more once a vertex outside `reach` exists. */
  ghost predicate Bounded(adj: seq<seq<int>>, weight: int, reach: set<int>) {
    && weight >= |adj| - 1
    && (!(Range(|adj|) <= reach) ==> weight >= |adj| - 2 + IntMax)
  }

  lemma {:induction false} PrimOutside(adj: seq<seq<int>>, visited: set<int>, minEdge: seq<int>, total: int, reach: set<int>)
    requires Base(adj, visited, minEdge) && Outside(adj, visited, minEdge, reach) && TotalBound(visited, total, reach)
    requires Closed(adj, reach) && 0 in reach && |adj| >= 1
    ensures Bounded(adj, PrimLoop(adj, visited, minEdge, total), reach)
    decreases |adj| - |visited|, 2
  {
    RangeCard(|adj|);
    SubsetCard(visited, Range(|adj|));
    if |visited| < |adj| {
      PrimOutsideStep(adj, visited, minEdge, total, reach);
    } else {
      FullRange(visited, |adj|);
    }
  }

  lemma {:induction false} PrimOutsideStep(adj: seq<seq<int>>, visited: set<int>, minEdge: seq<int>, total: int, reach: set<int>)
    requires Base(adj, visited, minEdge) && Outside(adj, visited, minEdge, reach) && TotalBound(visited, total, reach)
    requires Closed(adj, reach) && 0 in reach && |visited| < |adj|
    ensures Bounded(adj, PrimLoop(adj, visited, minEdge, total), reach)
    decreases |adj| - |visited|, 1
  {
    var u := Pick(visited, minEdge, 0, -1);
    PrimOutsideNext(adj, visited, minEdge, total, reach, u);
    PrimLoopUnfold(adj, visited, minEdge, total, u);
  }

  /** The bound for the state after one more iteration. */
  lemma {:induction false} PrimOutsideNext(adj: seq<seq<int>>, visited: set<int>, minEdge: seq<int>, total: int, reach: set<int>, u: int)
    requires Base(adj, visited, minEdge) && Outside(adj, visited, minEdge, reach) && TotalBound(visited, total, reach)
    requires Closed(adj, reach) && 0 in reach && |visited| < |adj|
    requires u == Pick(visited, minEdge, 0, -1)
    ensures 0 <= u < |adj| && u !in visited
    ensures Bounded(adj, PrimLoop(adj, visited + {u}, Relax(adj[u], visited + {u}, minEdge), total + minEdge[u]), reach)
    decreases |adj| - |visited|, 0
  {
    BaseStep(adj, visited, minEdge, u);
    TotalStep(adj, visited, minEdge, total, reach, u);
    OutsideStep(adj, visited, minEdge, reach, u);
    PrimOutside(adj, visited + {u}, Relax(adj[u], visited + {u}, minEdge), total + minEdge[u], reach);
  }

  /** On an undirected graph with at least one vertex, the weight is `n - 1`
      exactly when every vertex is reachable from vertex 0; otherwise an
      `INT_MAX` entered the total. */
  lemma MstWeightConnected(g: Graph)
    requires Shaped(g) && NeighboursInRange(g) && !g.directed && g.numVertices >= 1
    ensures MstWeight(g) >= g.numVertices - 1
    ensures MstWeight(g) == g.numVertices - 1 <==> ConnectedFromZero(g.adj)
    ensures !ConnectedFromZero(g.adj) ==> MstWeight(g) >= g.numVertices - 2 + IntMax
  {
    var adj := g.adj;
    var reach := set x | 0 <= x < |adj| && Reachable(adj, 0, x);
    forall u, k | u in reach && 0 <= u < |adj| && 0 <= k < |adj[u]|
      ensures adj[u][k] in reach
    {
      ReachableStep(adj, 0, u, k);
    }
    ReachableFromSelf(adj, 0);
    PrimOutside(adj, {}, InitialMinEdge(|adj|), 0, reach);
    if ConnectedFromZero(adj) {
      PrimConnected(adj, {}, InitialMinEdge(|adj|), 0);
    } else {
      var v :| 0 <= v < |adj| && !Reachable(adj, 0, v);
      assert v !in reach;
    }
  }

  /** The weight is -1 exactly for a directed graph. */
  lemma MstWeightDirected(g: Graph)
    requires Shaped(g) && NeighboursInRange(g) && (!g.directed ==> g.numVertices >= 1)
    ensures MstWeight(g) == -1 <==> g.directed
  {
    if !g.directed {
      MstWeightConnected(g);
    }
  }
}
