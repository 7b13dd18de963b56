/** The first case of part9/test_pipling.cpp, stated about the model: the
    undirected path 0-1-2-3 built with three `addEdge` calls and pushed
    through the pipeline. */
module Scenarios {
  import opened Graphs
  import opened Reach
  import Mst
  import Cliques
  import Scc
  import MaxFlow
  import Pipeline
  import Seqs

  /** The path 0-1-2-3 as adjacency lists. */
  function Path4(): Graph {
    Graph(4, false, [[1], [0, 2], [1, 3], [2]])
  }

  /** Every vertex of the path reaches every other. */
  lemma PathConnected(u: int, v: int)
    requires 0 <= u < 4 && 0 <= v < 4
    ensures Reachable(Path4().adj, u, v)
  {
    var adj := Path4().adj;
    ReachableFromSelf(adj, 0);
    ReachableStep(adj, 0, 0, 0);
    ReachableStep(adj, 0, 1, 1);
    ReachableStep(adj, 0, 2, 1);
    ReachableFromSelf(adj, 3);
    ReachableStep(adj, 3, 3, 0);
    ReachableStep(adj, 3, 2, 0);
    ReachableStep(adj, 3, 1, 0);
    ReachableSymmetric(adj, 0, u);
    ReachableTrans(adj, u, 0, v);
  }

  /** Prim on the path takes its three edges of weight 1. */
  lemma PathMst()
    ensures Mst.MstWeight(Path4()) == 3
  {
    forall v | 0 <= v < 4 ensures Reachable(Path4().adj, 0, v) { PathConnected(0, v); }
    Mst.MstWeightConnected(Path4());
  }

  /** The path carries one unit from its first vertex to its last: only
      one edge leaves vertex 0, and the last vertex is reachable. */
  lemma PathFlow()
    ensures MaxFlow.MaxFlow(Path4(), 0, 3) == 1
  {
    PathConnected(0, 3);
    MaxFlow.MaxFlowBounds(Path4(), 0, 3);
    MaxFlow.MaxFlowZeroIff(Path4(), 0, 3);
  }

  /** `findSCCs` on the path returns one component holding all four
      vertices. */
  lemma PathSccs()
    ensures |Scc.FindSccs(Path4())| == 1
    ensures forall v :: v in Scc.FindSccs(Path4())[0] <==> 0 <= v < 4
  {
    forall u, v | 0 <= u < 4 && 0 <= v < 4 ensures Reachable(Path4().adj, u, v) { PathConnected(u, v); }
    Scc.OneComponent(Path4());
  }

  /** An in-range `addEdge` leaves exactly the lists the rows name. */
  lemma AddedRows(g: Graph, u: int, v: int, rows: seq<seq<int>>)
    requires Shaped(g) && InRange(g, u) && InRange(g, v) && |rows| == |g.adj|
    requires forall w :: 0 <= w < |rows| ==> rows[w] == g.adj[w] + Added(g, u, v, w)
    ensures AddEdge(g, u, v) == Graph(g.numVertices, g.directed, rows)
  {
  }

  /** The first `addEdge(0, 1)` on four empty lists. */
  lemma FirstEdge()
    ensures AddEdge(New(4, false), 0, 1) == Graph(4, false, [[1], [0], [], []])
  {
    var g0 := New(4, false);
    assert g0.adj == [[], [], [], []];
    AddedRows(g0, 0, 1, [[1], [0], [], []]);
  }

  /** The graph the test builds, one `addEdge` at a time, is the path. */
  lemma PathBuilt()
    ensures AddEdge(AddEdge(AddEdge(New(4, false), 0, 1), 1, 2), 2, 3) == Path4()
  {
    FirstEdge();
    var g1 := Graph(4, false, [[1], [0], [], []]);
    AddedRows(g1, 1, 2, [[1], [0, 2], [1], []]);
    var g2 := Graph(4, false, [[1], [0, 2], [1], []]);
    AddedRows(g2, 2, 3, Path4().adj);
  }

  /** The edges of the path, each as the vertex set it joins. */
  ghost function PathPairs(): set<set<int>> {
    {{0, 1}, {1, 2}, {2, 3}}
  }

  /** In the path a smaller vertex lists a larger one only when they are adjacent. */
  lemma PathLinks(a: int, b: int)
    requires 0 <= a < b < 4 && b in Path4().adj[a]
    ensures b == a + 1
  {
  }

  /** The sets `countCliques` counts on the path: the four single vertices
      and the three edges. */
  lemma PathCliqueSets()
    ensures Cliques.CliqueSets(Path4().adj, 4) == Cliques.Singletons(4) + PathPairs()
  {
    var adj := Path4().adj;
    var want := Cliques.Singletons(4) + PathPairs();
    forall s | s in Cliques.CliqueSets(adj, 4) ensures s in want {
      var x :| x in s;
      assert 0 <= x < 4;
      forall y | y in s ensures x - 1 <= y <= x + 1 {
        if y < x {
          PathLinks(y, x);
        } else if y > x {
          PathLinks(x, y);
        }
      }
      if x - 1 in s {
        assert s == {x - 1, x};
      } else if x + 1 in s {
        assert s == {x, x + 1};
      } else {
        assert s == {x};
      }
    }
    forall s | s in want ensures s in Cliques.CliqueSets(adj, 4) {
      assert s <= Seqs.Range(4);
    }
  }

  /** The path has exactly 7 counted sets. */
  lemma PathCliqueCount()
    ensures Cliques.CountCliques(Path4()) == 7
  {
    Cliques.CountCliquesCounts(Path4());
    PathCliqueSets();
    PathSetsCard();
  }

  /** Four single vertices and three edges are seven distinct sets. */
  lemma PathSetsCard()
    ensures |Cliques.Singletons(4) + PathPairs()| == 7
  {
    Cliques.SingletonsCard(4);
    assert |PathPairs()| == 3 by {
      assert 0 !in {1, 2} && 1 !in {2, 3} && 0 !in {2, 3};
    }
    assert Cliques.Singletons(4) * PathPairs() == {} by {
      forall s | s in PathPairs() ensures s !in Cliques.Singletons(4) {
        assert |s| == 2;
      }
    }
  }

  /** One job through the pipeline: `get` returns minimum spanning tree
      weight 3, 7 cliques, one strongly connected component with all four
      vertices, and flow 1 from vertex 0 to vertex 3. */
  lemma PathPipeline()
    ensures var r := Pipeline.Get(Pipeline.Submit(Pipeline.Started(), Path4())).0;
      && r.Some? && r.value.mstWeight == 3 && r.value.maxFlow == 1
      && |r.value.sccs| == 1 && (forall v :: v in r.value.sccs[0] <==> 0 <= v < 4)
      && r.value.numCliques == 7
  {
    Pipeline.ServeOne(Path4());
    PathMst();
    PathFlow();
    PathSccs();
    PathCliqueCount();
  }
}
