/** `buildRandGraph` (part4/main.cpp): an undirected graph on `V` vertices
    with `E` distinct edges drawn from the list of all pairs `u < v`.
    The generator is a parameter: `draws` is the sequence `rand()` returns
    after `srand(seed)`, so the outcome is a function of that sequence. */
module RandGraph {
  import opened Wrappers
  import opened Seqs
  import opened Graphs

  // ---------------------------------------------------------------------
  // The candidate list.

  /** Lexicographic order on pairs. */
  predicate Less(p: (int, int), q: (int, int)) {
    p.0 < q.0 || (p.0 == q.0 && p.1 < q.1)
  }

  /** The inner loop: `(u, v), (u, v + 1), ..., (u, n - 1)`. */
  function Row(u: int, v: int, n: int): (r: seq<(int, int)>)
    ensures |r| == (if v < n then n - v else 0)
    ensures forall i :: 0 <= i < |r| ==> r[i] == (u, v + i)
    decreases n - v
  {
    if v >= n then [] else [(u, v)] + Row(u, v + 1, n)
  }

  /** The outer loop from `u` on: every pair `a < b` of `[u, n)`, in
      lexicographic order. */
  function Rows(u: int, n: int): (r: seq<(int, int)>)
    requires 0 <= u <= n
    ensures |r| == (n - u) * (n - u - 1) / 2
    ensures forall p :: p in r <==> u <= p.0 < p.1 < n
    ensures forall i, j :: 0 <= i < j < |r| ==> Less(r[i], r[j])
    decreases n - u
  {
    if u == n then []
    else
      var row := Row(u, u + 1, n);
      var rest := Rows(u + 1, n);
      var m := n - u - 1;
      assert (m + 1) * m == 2 * m + m * (m - 1);
      assert forall p :: p in row <==> p.0 == u && u + 1 <= p.1 < n by {
        forall p | p in row ensures p.0 == u && u + 1 <= p.1 < n {
          var i :| 0 <= i < |row| && row[i] == p;
        }
        forall p: (int, int) | p.0 == u && u + 1 <= p.1 < n ensures p in row {
          assert row[p.1 - u - 1] == p;
        }
      }
      var r := row + rest;
      assert forall i, j :: 0 <= i < j < |r| ==> Less(r[i], r[j]) by {
        forall i, j | 0 <= i < j < |r| ensures Less(r[i], r[j]) {
          if j < |row| {
          } else if i >= |row| {
            assert r[i] == rest[i - |row|] && r[j] == rest[j - |row|];
          } else {
            assert r[j] == rest[j - |row|] && r[j] in rest;
          }
        }
      }
      r
  }

  /** `allAdges`: every pair `u < v` of vertices, in lexicographic order,
      `V (V - 1) / 2` of them. */
  function Candidates(n: nat): (r: seq<(int, int)>)
    ensures |r| == n * (n - 1) / 2
    ensures forall p :: p in r <==> 0 <= p.0 < p.1 < n
    ensures forall i, j :: 0 <= i < j < |r| ==> Less(r[i], r[j])
  {
    Rows(0, n)
  }

  /** A list sorted strictly in lexicographic order holds each pair once. */
  lemma CandidatesDistinct(n: nat)
    ensures Distinct(Candidates(n))
  {
    var r := Candidates(n);
    forall i, j | 0 <= i < j < |r| ensures r[i] != r[j] {
      assert Less(r[i], r[j]);
    }
  }

  // ---------------------------------------------------------------------
  // Drawing distinct indices.

  /** A new index and how many draws it took. */
  datatype Pick = Pick(index: int, used: nat)

  /** `randNum = rand() % allEdgesNum`, redrawn while it is already in
      `chosen`; `None` when the draws run out first (the source would go on
      drawing). */
  function Draw(draws: seq<nat>, all: int, chosen: seq<int>): (r: Option<Pick>)
    requires all > 0
    ensures r.Some? ==> 0 < r.value.used <= |draws| && r.value.index == draws[r.value.used - 1] % all
    ensures r.Some? ==> 0 <= r.value.index < all && r.value.index !in chosen
    ensures r.Some? ==> forall i :: 0 <= i < r.value.used - 1 ==> draws[i] % all in chosen
    ensures r.None? <==> forall i :: 0 <= i < |draws| ==> draws[i] % all in chosen
    decreases |draws|
  {
    if |draws| == 0 then None
    else if draws[0] % all in chosen then
      var r := Draw(draws[1..], all, chosen);
      assert forall i :: 1 <= i < |draws| ==> draws[i] == draws[1..][i - 1];
      match r
      case None => None
      case Some(p) => Some(Pick(p.index, p.used + 1))
    else Some(Pick(draws[0] % all, 1))
  }

  /** Indices of `[0, all)`, each once. */
  predicate Indices(chosen: seq<int>, all: int) {
    Distinct(chosen) && forall i :: 0 <= i < |chosen| ==> 0 <= chosen[i] < all
  }

  /** The outer loop: `k` more indices, each new; `None` when the draws run out. */
  function Select(draws: seq<nat>, all: int, k: int, chosen: seq<int>): (r: Option<seq<int>>)
    requires k > 0 ==> all > 0
    requires Indices(chosen, all)
    ensures r.Some? ==> Indices(r.value, all)
    ensures r.Some? ==> |r.value| == |chosen| + (if k > 0 then k else 0) && chosen <= r.value
    decreases k
  {
    if k <= 0 then Some(chosen)
    else
      match Draw(draws, all, chosen)
      case None => None
      case Some(p) =>
        var next := chosen + [p.index];
        assert Distinct(next) by {
          forall i, j | 0 <= i < j < |next| ensures next[i] != next[j] {
            if j == |chosen| {
              assert next[i] in chosen;
            }
          }
        }
        var r := Select(draws[p.used..], all, k - 1, next);
        r
  }

  // ---------------------------------------------------------------------
  // Adding the chosen edges.

  /** `graph.addEdge(allAdges[i].first, allAdges[i].second)` for each chosen
      index, in the order chosen. */
  function AddPairs(g: Graph, cands: seq<(int, int)>, idx: seq<int>): (r: Graph)
    requires Shaped(g) && forall i :: 0 <= i < |idx| ==> 0 <= idx[i] < |cands|
    ensures r.numVertices == g.numVertices && r.directed == g.directed && Shaped(r)
    decreases |idx|
  {
    if |idx| == 0 then g
    else
      assert forall i :: 1 <= i < |idx| ==> idx[i] == idx[1..][i - 1];
      AddPairs(AddEdge(g, cands[idx[0]].0, cands[idx[0]].1), cands, idx[1..])
  }

  datatype Built =
    | TooManyEdges          // `invalid_argument`: more edges than pairs
    | NegativeSize          // the `Graph` constructor's vector rejects a negative size
    | Exhausted             // the draws ran out before every edge was found
    | Built(graph: Graph, chosen: seq<int>)

  /** `buildRandGraph(numOfEdges, numOfVartx, seed)`. */
  function BuildRandGraph(numEdges: int, numVertices: int, draws: seq<nat>): (r: Built)
    ensures r.TooManyEdges? <==> numEdges > numVertices * (numVertices - 1) / 2
    ensures r.NegativeSize? <==> numEdges <= numVertices * (numVertices - 1) / 2 && numVertices < 0
    ensures r.Built? ==> numVertices >= 0 && |r.chosen| == (if numEdges > 0 then numEdges else 0)
    ensures r.Built? ==> Indices(r.chosen, numVertices * (numVertices - 1) / 2)
  {
    var all := numVertices * (numVertices - 1) / 2;
    if numEdges > all then TooManyEdges
    else if numVertices < 0 then NegativeSize
    else
      var cands := Candidates(numVertices);
      match Select(draws, all, numEdges, [])
      case None => Exhausted
      case Some(chosen) => Built(AddPairs(New(numVertices, false), cands, chosen), chosen)
  }

  // ---------------------------------------------------------------------
  // What the built graph holds.

  /** The unordered pair `{u, v}` as a candidate. */
  function Key(u: int, v: int): (int, int) {
    if u <= v then (u, v) else (v, u)
  }

  /** The pairs the indices in `idx` select. */
  ghost function Picked(cands: seq<(int, int)>, idx: seq<int>): set<(int, int)> {
    set i | i in idx && 0 <= i < |cands| :: cands[i]
  }

  /** Every list holds `v` once when `{u, v}` is one of `es`, else not at all. */
  ghost predicate Holds(g: Graph, es: set<(int, int)>) {
    forall u, v :: 0 <= u < |g.adj| ==>
      multiset(g.adj[u])[v] == (if Key(u, v) in es then 1 else 0)
  }

  /** Adding a new pair `a < b` adds it to the edge set and two list entries. */
  lemma AddPairStep(g: Graph, es: set<(int, int)>, a: int, b: int)
    requires Shaped(g) && !g.directed && Holds(g, es)
    requires 0 <= a < b < g.numVertices && (a, b) !in es
    ensures Holds(AddEdge(g, a, b), es + {(a, b)})
    ensures TotalLength(AddEdge(g, a, b).adj) == TotalLength(g.adj) + 2
  {
    var r := AddEdge(g, a, b);
    forall u, v | 0 <= u < |r.adj|
      ensures multiset(r.adj[u])[v] == (if Key(u, v) in es + {(a, b)} then 1 else 0)
    {
      assert r.adj[u] == g.adj[u] + Added(g, a, b, u);
      AddedCount(g, a, b, u, v);
    }
    var a1 := g.adj[a := g.adj[a] + [b]];
    TotalLengthUpdate(g.adj, a, g.adj[a] + [b]);
    TotalLengthUpdate(a1, b, a1[b] + [a]);
    assert r.adj == a1[b := a1[b] + [a]];
  }

  /** Adding the candidates of fresh distinct indices, one by one. */
  lemma {:induction false} AddPairsHolds(g: Graph, n: nat, pre: seq<int>, idx: seq<int>)
    requires Shaped(g) && !g.directed && g.numVertices == n
    requires Indices(pre + idx, n * (n - 1) / 2)
    requires forall i :: 0 <= i < |idx| ==> 0 <= idx[i] < n * (n - 1) / 2
    requires Holds(g, Picked(Candidates(n), pre))
    ensures Holds(AddPairs(g, Candidates(n), idx), Picked(Candidates(n), pre + idx))
    ensures TotalLength(AddPairs(g, Candidates(n), idx).adj) == TotalLength(g.adj) + 2 * |idx|
    decreases |idx|
  {
    var cands := Candidates(n);
    assert forall i :: 0 <= i < |idx| ==> idx[i] == (pre + idx)[|pre| + i];
    if |idx| == 0 {
      assert pre + idx == pre;
    } else {
      var c := idx[0];
      var (a, b) := cands[c];
      assert cands[c] in cands;
      assert (a, b) !in Picked(cands, pre) by {
        CandidatesDistinct(n);
        forall i | i in pre && 0 <= i < |cands| ensures cands[i] != cands[c] {
          var k :| 0 <= k < |pre| && pre[k] == i;
          assert (pre + idx)[k] == i && (pre + idx)[|pre|] == c;
        }
      }
      AddPairStep(g, Picked(cands, pre), a, b);
      assert Picked(cands, pre + [c]) == Picked(cands, pre) + {(a, b)} by {
        assert forall i :: i in pre + [c] <==> i in pre || i == c;
      }
      assert pre + idx == (pre + [c]) + idx[1..];
      AddPairsHolds(AddEdge(g, a, b), n, pre + [c], idx[1..]);
    }
  }

  /** The built graph holds exactly the chosen pairs, each once in each
      direction: `2 E` list entries in all. */
  lemma BuiltHolds(numEdges: int, numVertices: int, draws: seq<nat>)
    requires BuildRandGraph(numEdges, numVertices, draws).Built?
    ensures var r := BuildRandGraph(numEdges, numVertices, draws);
      && !r.graph.directed && r.graph.numVertices == numVertices && Shaped(r.graph)
      && Holds(r.graph, Picked(Candidates(numVertices), r.chosen))
      && TotalLength(r.graph.adj) == 2 * |r.chosen|
  {
    var r := BuildRandGraph(numEdges, numVertices, draws);
    var n: nat := numVertices;
    var g0 := New(n, false);
    assert Holds(g0, Picked(Candidates(n), [])) by {
      assert Picked(Candidates(n), []) == {};
    }
    assert [] + r.chosen == r.chosen;
    AddPairsHolds(g0, n, [], r.chosen);
  }

  /** A graph holding candidate pairs keeps the graph invariant and is simple. */
  lemma HoldsValid(g: Graph, n: nat, chosen: seq<int>)
    requires Shaped(g) && !g.directed && g.numVertices == n
    requires Holds(g, Picked(Candidates(n), chosen))
    ensures Valid(g) && Simple(g)
  {
    forall u, v | 0 <= u < |g.adj| && 0 <= v < |g.adj| ensures multiset(g.adj[u])[v] == multiset(g.adj[v])[u] {
      assert Key(u, v) == Key(v, u);
    }
    forall u, k | 0 <= u < |g.adj| && 0 <= k < |g.adj[u]| ensures 0 <= g.adj[u][k] < g.numVertices {
      var v := g.adj[u][k];
      assert v in multiset(g.adj[u]);
      PickedPairs(n, chosen, u, v);
    }
    forall u | 0 <= u < |g.adj| ensures u !in g.adj[u] {
      if u in g.adj[u] {
        assert u in multiset(g.adj[u]);
        PickedPairs(n, chosen, u, u);
      }
    }
  }

  /** The built graph is undirected on `V` vertices, keeps the graph
      invariant, has no self-loop or repeated edge, and has `2 E` list entries. */
  lemma BuiltGraph(numEdges: int, numVertices: int, draws: seq<nat>)
    requires BuildRandGraph(numEdges, numVertices, draws).Built?
    ensures var r := BuildRandGraph(numEdges, numVertices, draws);
      && Valid(r.graph) && Simple(r.graph) && !r.graph.directed && r.graph.numVertices == numVertices
      && TotalLength(r.graph.adj) == 2 * (if numEdges > 0 then numEdges else 0)
  {
    var r := BuildRandGraph(numEdges, numVertices, draws);
    BuiltHolds(numEdges, numVertices, draws);
    HoldsValid(r.graph, numVertices, r.chosen);
  }

  /** A picked key is a candidate: both ends are vertices and differ. */
  lemma PickedPairs(n: nat, chosen: seq<int>, u: int, v: int)
    requires Key(u, v) in Picked(Candidates(n), chosen)
    ensures 0 <= u < n && 0 <= v < n && u != v
  {
    var i :| i in chosen && 0 <= i < |Candidates(n)| && Candidates(n)[i] == Key(u, v);
    assert Candidates(n)[i] in Candidates(n);
  }
}
