/** Euler circuits (`Graph::hasEulerCircuit` and `Graph::findEulerCircuit`,
    the same code in part3 and part7): a connectivity-and-parity test, then
    Hierholzer's stack walk over a copy of the adjacency lists. */
module Euler {
  import opened Seqs
  import opened Graphs
  import opened Reach

  /** The shape both routines index without going out of bounds. */
  predicate Indexable(g: Graph) {
    Shaped(g) && NeighboursInRange(g)
  }

  /** The first vertex at or after `i` whose list is non-empty, or -1. */
  function FirstWithEdges(adj: seq<seq<int>>, i: int): (r: int)
    requires 0 <= i <= |adj|
    ensures r == -1 <==> forall u :: i <= u < |adj| ==> adj[u] == []
    ensures r != -1 ==> i <= r < |adj| && adj[r] != [] && forall u :: i <= u < r ==> adj[u] == []
    decreases |adj| - i
  {
    if i == |adj| then -1
    else if adj[i] != [] then i
    else FirstWithEdges(adj, i + 1)
  }

  /** A graph without edges passes; otherwise every vertex with edges must be
      marked by a search from the first such vertex, and every list must have
      even length. */
  function HasEulerCircuit(g: Graph): bool
    requires Indexable(g)
  {
    var start := FirstWithEdges(g.adj, 0);
    if start == -1 then true
    else
      var visited := SearchFrom(g.adj, start);
      && (forall u | 0 <= u < |g.adj| :: g.adj[u] != [] ==> u in visited)
      && (forall u | 0 <= u < |g.adj| :: |g.adj[u]| % 2 == 0)
  }

  /** The textbook condition for an undirected graph: all vertices that have
      edges lie in one component, and every degree is even. */
  ghost predicate EulerCondition(adj: seq<seq<int>>) {
    && (forall u, v :: 0 <= u < |adj| && 0 <= v < |adj| && adj[u] != [] && adj[v] != [] ==> Reachable(adj, u, v))
    && (forall u :: 0 <= u < |adj| ==> |adj[u]| % 2 == 0)
  }

  lemma ValidUndirected(g: Graph)
    requires Valid(g) && !g.directed
    ensures Undirected(g.adj)
  {
    forall u, k | 0 <= u < |g.adj| && 0 <= k < |g.adj[u]|
      ensures 0 <= g.adj[u][k] < |g.adj| && u in g.adj[g.adj[u][k]]
    {
      var v := g.adj[u][k];
      assert multiset(g.adj[u])[v] > 0;
      assert multiset(g.adj[v])[u] > 0;
    }
  }

  /** A graph without edges has a circuit, the empty one, directed or not. */
  lemma NoEdgesCircuit(g: Graph)
    requires Indexable(g) && forall u :: 0 <= u < |g.adj| ==> g.adj[u] == []
    ensures HasEulerCircuit(g)
  {
  }

  /** On an undirected graph the test decides exactly the textbook condition. */
  lemma HasEulerCircuitIff(g: Graph)
    requires Valid(g) && !g.directed
    ensures HasEulerCircuit(g) <==> EulerCondition(g.adj)
  {
    if HasEulerCircuit(g) {
      CircuitCondition(g);
    }
    if EulerCondition(g.adj) {
      ConditionCircuit(g);
    }
  }

  /** A graph that passes the test meets the textbook condition. */
  lemma CircuitCondition(g: Graph)
    requires Valid(g) && !g.directed && HasEulerCircuit(g)
    ensures EulerCondition(g.adj)
  {
    var start := FirstWithEdges(g.adj, 0);
    if start != -1 {
      SearchFromIsReachable(g.adj, start);
      ValidUndirected(g);
      forall u, v | 0 <= u < |g.adj| && 0 <= v < |g.adj| && g.adj[u] != [] && g.adj[v] != []
        ensures Reachable(g.adj, u, v)
      {
        ReachableSymmetric(g.adj, start, u);
        ReachableTrans(g.adj, u, start, v);
      }
    }
  }

  /** A graph meeting the textbook condition passes the test. */
  lemma ConditionCircuit(g: Graph)
    requires Valid(g) && !g.directed && EulerCondition(g.adj)
    ensures HasEulerCircuit(g)
  {
    var start := FirstWithEdges(g.adj, 0);
    if start != -1 {
      SearchFromIsReachable(g.adj, start);
    }
  }

  /** A list of odd length rules the circuit out, on any graph. */
  lemma OddListNoCircuit(g: Graph, u: int)
    requires Indexable(g) && 0 <= u < |g.adj| && |g.adj[u]| % 2 == 1
    ensures !HasEulerCircuit(g)
  {
    assert FirstWithEdges(g.adj, 0) != -1 by {
      assert g.adj[u] != [];
    }
  }

  /** A vertex with edges that the search from the first such vertex cannot
      reach rules the circuit out, on any graph. */
  lemma UnreachableNoCircuit(g: Graph, u: int)
    requires Indexable(g) && 0 <= u < |g.adj| && g.adj[u] != []
    requires !Reachable(g.adj, FirstWithEdges(g.adj, 0), u)
    ensures !HasEulerCircuit(g)
  {
    var start := FirstWithEdges(g.adj, 0);
    SearchFromIsReachable(g.adj, start);
  }

  /** Hierholzer's loop: `t` is `tempAdj`, `path` the stack (top last),
      `result` the vertices in the order they were popped. */
  function Hierholzer(directed: bool, t: seq<seq<int>>, path: seq<int>, result: seq<int>): seq<int>
    requires WellFormed(t) && forall i :: 0 <= i < |path| ==> 0 <= path[i] < |t|
    decreases TotalLength(t), |path|
  {
    if |path| == 0 then result
    else
      var v := path[|path| - 1];
      if |t[v]| > 0 then
        var t2 := Advance(directed, t, v);
        Hierholzer(directed, t2, path + [t[v][|t[v]| - 1]], result)
      else
        Hierholzer(directed, t, path[..|path| - 1], result + [v])
  }

  /** One forward step from `v`: drop the last entry `u` of `t[v]` and, on an
      undirected graph, every `v` from `t[u]`. */
  function Advance(directed: bool, t: seq<seq<int>>, v: int): (r: seq<seq<int>>)
    requires WellFormed(t) && 0 <= v < |t| && |t[v]| > 0
    ensures WellFormed(r) && |r| == |t| && TotalLength(r) < TotalLength(t)
  {
    var u := t[v][|t[v]| - 1];
    var rest := t[v][..|t[v]| - 1];
    var t1 := t[v := rest];
    TotalLengthUpdate(t, v, rest);
    WellFormedUpdate(t, v, rest);
    if directed then t1
    else
      var kept := RemoveAll(t1[u], v);
      RemoveAllCount(t1[u], v);
      TotalLengthUpdate(t1, u, kept);
      KeptInRange(t1, u, v);
      WellFormedUpdate(t1, u, kept);
      t1[u := kept]
  }

  lemma KeptInRange(t: seq<seq<int>>, u: int, v: int)
    requires WellFormed(t) && 0 <= u < |t|
    ensures forall k :: 0 <= k < |RemoveAll(t[u], v)| ==> 0 <= RemoveAll(t[u], v)[k] < |t|
  {
    var kept := RemoveAll(t[u], v);
    RemoveAllCount(t[u], v);
    forall k | 0 <= k < |kept| ensures 0 <= kept[k] < |t| {
      assert multiset(kept)[kept[k]] > 0;
      assert kept[k] in t[u];
    }
  }

  /** `Graph::findEulerCircuit(start)`: the empty sequence when the test
      fails, otherwise the reversed pop order of Hierholzer's loop. */
  function FindEulerCircuit(g: Graph, start: int): (r: seq<int>)
    requires Indexable(g)
    requires HasEulerCircuit(g) ==> 0 <= start < |g.adj|
    ensures !HasEulerCircuit(g) ==> r == []
  {
    if !HasEulerCircuit(g) then []
    else Reverse(Hierholzer(g.directed, g.adj, [start], []))
  }

  // ---------------------------------------------------------------------
  // Correctness of the loop on a simple undirected graph.

  /** Lists of a simple graph: entries in range, none twice, no self-loop. */
  ghost predicate SimpleLists(adj: seq<seq<int>>) {
    && WellFormed(adj)
    && (forall x, y :: 0 <= x < |adj| ==> multiset(adj[x])[y] <= 1)
    && (forall x :: 0 <= x < |adj| ==> x !in adj[x])
  }

  /** `t` is what is left of `adj`: part of every list, and still symmetric. */
  ghost predicate Residual(adj: seq<seq<int>>, t: seq<seq<int>>) {
    && |t| == |adj|
    && (forall x :: 0 <= x < |adj| ==> multiset(t[x]) <= multiset(adj[x]))
    && (forall x, y :: 0 <= x < |adj| && 0 <= y < |adj| ==> multiset(t[x])[y] == multiset(t[y])[x])
  }

  /** Consecutive entries of `w` are joined by an edge, forwards. */
  ghost predicate Walk(adj: seq<seq<int>>, w: seq<int>) {
    forall i :: 0 <= i < |w| - 1 ==> 0 <= w[i] < |adj| && w[i + 1] in adj[w[i]]
  }

  /** Consecutive entries of `w` are joined by an edge, backwards. */
  ghost predicate BackWalk(adj: seq<seq<int>>, w: seq<int>) {
    forall i :: 0 < i < |w| ==> 0 <= w[i] < |adj| && w[i - 1] in adj[w[i]]
  }

  ghost predicate AllIn(w: seq<int>, n: int) {
    forall i :: 0 <= i < |w| ==> 0 <= w[i] < n
  }

  /** The stack is a walk from `start`; the popped vertices form a walk back
      to `start` whose far end touches the anchor `a` (the vertex below the
      last pop, or `start` before any pop). */
  ghost predicate Trail(adj: seq<seq<int>>, path: seq<int>, result: seq<int>, a: int, start: int) {
    && AllIn(path, |adj|) && AllIn(result, |adj|) && 0 <= a < |adj| && 0 <= start < |adj|
    && Walk(adj, path) && BackWalk(adj, result)
    && (|path| > 0 ==> path[0] == start)
    && (|result| == 0 ==> a == start && |path| > 0)
    && (|result| > 0 ==> result[0] == start)
    && (|result| > 0 && |path| > 0 ==> result[|result| - 1] in adj[a])
    && (|path| == 0 ==> result[|result| - 1] == start)
  }

  /** The odd residual lists are exactly those of the stack top and the anchor. */
  ghost predicate Parity(t: seq<seq<int>>, path: seq<int>, a: int) {
    |path| > 0 ==> forall x :: 0 <= x < |t| ==> (|t[x]| % 2 == 1 <==> ((x == path[|path| - 1]) != (x == a)))
  }

  /** Each step forward removed one edge, stored twice. */
  ghost predicate Counted(adj: seq<seq<int>>, t: seq<seq<int>>, path: seq<int>, result: seq<int>) {
    TotalLength(adj) - TotalLength(t) == 2 * (|path| + |result| - 1)
  }

  /** A list that lost entries belongs to a vertex already walked, and a
      popped vertex has nothing left. */
  ghost predicate Covered(adj: seq<seq<int>>, t: seq<seq<int>>, path: seq<int>, result: seq<int>) {
    && |t| == |adj|
    && (forall x :: 0 <= x < |adj| && t[x] != adj[x] ==> x in path || x in result)
    && (forall i :: 0 <= i < |result| ==> 0 <= result[i] < |t| && t[result[i]] == [])
  }

  ghost predicate Inv(adj: seq<seq<int>>, t: seq<seq<int>>, path: seq<int>, result: seq<int>, a: int, start: int) {
    && Residual(adj, t) && Trail(adj, path, result, a, start) && Parity(t, path, a)
    && Counted(adj, t, path, result) && Covered(adj, t, path, result)
  }

  lemma ResidualWellFormed(adj: seq<seq<int>>, t: seq<seq<int>>)
    requires WellFormed(adj) && Residual(adj, t)
    ensures WellFormed(t)
  {
    forall x, k | 0 <= x < |t| && 0 <= k < |t[x]|
      ensures 0 <= t[x][k] < |t|
    {
      assert multiset(t[x])[t[x][k]] > 0;
      assert t[x][k] in adj[x];
    }
  }

  /** The rows `Advance` rewrites on an undirected graph. */
  lemma AdvanceRows(t: seq<seq<int>>, v: int, x: int)
    requires WellFormed(t) && 0 <= v < |t| && |t[v]| > 0 && 0 <= x < |t|
    requires t[v][|t[v]| - 1] != v
    ensures var u := t[v][|t[v]| - 1];
      Advance(false, t, v)[x] ==
        if x == v then t[v][..|t[v]| - 1]
        else if x == u then RemoveAll(t[u], v)
        else t[x]
  {
  }

  /** The first facts about a forward step from `v` to `u`, the last entry of `t[v]`. */
  lemma PushFacts(adj: seq<seq<int>>, t: seq<seq<int>>, v: int)
    requires SimpleLists(adj) && Residual(adj, t) && 0 <= v < |t| && |t[v]| > 0
    ensures var u := t[v][|t[v]| - 1];
      && u != v && 0 <= u < |t| && u in adj[v]
      && multiset(t[u])[v] == 1 && multiset(t[v][..|t[v]| - 1])[u] == 0
  {
    var u := t[v][|t[v]| - 1];
    var rest := t[v][..|t[v]| - 1];
    assert t[v] == rest + [u];
    assert multiset(t[v]) == multiset(rest) + multiset{u};
    assert multiset(adj[v])[u] > 0;
    assert u in adj[v];
  }

  /** The residual lists after a forward step, row by row. */
  ghost predicate Stepped(t: seq<seq<int>>, r: seq<seq<int>>, v: int, u: int) {
    && |r| == |t| && 0 <= v < |t| && 0 <= u < |t| && u != v && |t[v]| > 0
    && r[v] == t[v][..|t[v]| - 1] && r[u] == RemoveAll(t[u], v)
    && (forall x :: 0 <= x < |t| && x != u && x != v ==> r[x] == t[x])
  }

  lemma AdvanceStepped(t: seq<seq<int>>, v: int)
    requires WellFormed(t) && 0 <= v < |t| && |t[v]| > 0 && t[v][|t[v]| - 1] != v
    ensures Stepped(t, Advance(false, t, v), v, t[v][|t[v]| - 1])
  {
    forall x | 0 <= x < |t| {
      AdvanceRows(t, v, x);
    }
  }

  /** Per entry, the step clears the pair `(v, u)` in both directions and nothing else. */
  lemma SteppedCounts(t: seq<seq<int>>, r: seq<seq<int>>, v: int, u: int, x: int, y: int)
    requires Stepped(t, r, v, u) && 0 <= x < |t|
    requires t[v][|t[v]| - 1] == u && multiset(t[v][..|t[v]| - 1])[u] == 0
    ensures multiset(r[x])[y] == if (x == v && y == u) || (x == u && y == v) then 0 else multiset(t[x])[y]
  {
    if x == v {
      assert t[v] == r[v] + [u];
      assert multiset(t[v]) == multiset(r[v]) + multiset{u};
    } else if x == u {
      RemoveAllCount(t[u], v);
    }
  }

  lemma PushResidual(adj: seq<seq<int>>, t: seq<seq<int>>, r: seq<seq<int>>, v: int, u: int)
    requires Residual(adj, t) && Stepped(t, r, v, u)
    requires t[v][|t[v]| - 1] == u && multiset(t[v][..|t[v]| - 1])[u] == 0
    requires multiset(t[u])[v] == 1
    ensures Residual(adj, r)
  {
    forall x, y | 0 <= x < |adj|
      ensures multiset(r[x])[y] == if (x == v && y == u) || (x == u && y == v) then 0 else multiset(t[x])[y]
    {
      SteppedCounts(t, r, v, u, x, y);
    }
  }

  lemma PushTrail(adj: seq<seq<int>>, path: seq<int>, result: seq<int>, a: int, start: int, u: int)
    requires Trail(adj, path, result, a, start) && |path| > 0
    requires 0 <= u < |adj| && u in adj[path[|path| - 1]]
    ensures Trail(adj, path + [u], result, a, start)
  {
  }

  lemma PushParity(t: seq<seq<int>>, r: seq<seq<int>>, path: seq<int>, a: int, u: int)
    requires Parity(t, path, a) && |path| > 0 && Stepped(t, r, path[|path| - 1], u)
    requires |r[u]| == |t[u]| - 1
    ensures Parity(r, path + [u], a)
  {
  }

  lemma PushCounted(adj: seq<seq<int>>, t: seq<seq<int>>, r: seq<seq<int>>, path: seq<int>, result: seq<int>, v: int, u: int)
    requires Counted(adj, t, path, result) && Stepped(t, r, v, u) && |r[u]| == |t[u]| - 1
    ensures Counted(adj, r, path + [u], result)
  {
    TotalLengthUpdate(t, v, r[v]);
    TotalLengthUpdate(t[v := r[v]], u, r[u]);
    assert r == t[v := r[v]][u := r[u]];
  }

  lemma PushCovered(adj: seq<seq<int>>, t: seq<seq<int>>, r: seq<seq<int>>, path: seq<int>, result: seq<int>, u: int)
    requires Covered(adj, t, path, result) && |path| > 0 && Stepped(t, r, path[|path| - 1], u)
    requires t[u] != []
    ensures Covered(adj, r, path + [u], result)
  {
    forall i | 0 <= i < |result| ensures 0 <= result[i] < |r| && r[result[i]] == [] {
      assert t[result[i]] == [];
    }
  }

  /** A forward step keeps the invariant, with the anchor unchanged. */
  lemma PushStep(adj: seq<seq<int>>, t: seq<seq<int>>, path: seq<int>, result: seq<int>, a: int, start: int)
    requires SimpleLists(adj) && Inv(adj, t, path, result, a, start)
    requires |path| > 0 && |t[path[|path| - 1]]| > 0
    ensures WellFormed(t)
    ensures var v := path[|path| - 1];
      Inv(adj, Advance(false, t, v), path + [t[v][|t[v]| - 1]], result, a, start)
  {
    var v := path[|path| - 1];
    ResidualWellFormed(adj, t);
    PushFacts(adj, t, v);
    var u := t[v][|t[v]| - 1];
    var r := Advance(false, t, v);
    AdvanceStepped(t, v);
    assert |r[u]| == |t[u]| - 1 by {
      RemoveAllCount(t[u], v);
    }
    PushResidual(adj, t, r, v, u);
    PushTrail(adj, path, result, a, start, u);
    PushParity(t, r, path, a, u);
    PushCounted(adj, t, r, path, result, v, u);
    assert t[u] != [] by {
      assert multiset(t[u])[v] == 1;
    }
    PushCovered(adj, t, r, path, result, u);
  }

  lemma PopTrail(adj: seq<seq<int>>, path: seq<int>, result: seq<int>, a: int, start: int)
    requires Trail(adj, path, result, a, start) && |path| > 0 && path[|path| - 1] == a
    ensures var k := |path|;
      Trail(adj, path[..k - 1], result + [a], if k > 1 then path[k - 2] else a, start)
  {
  }

  lemma PopCovered(adj: seq<seq<int>>, t: seq<seq<int>>, path: seq<int>, result: seq<int>)
    requires Covered(adj, t, path, result) && AllIn(path, |t|) && |path| > 0 && t[path[|path| - 1]] == []
    ensures Covered(adj, t, path[..|path| - 1], result + [path[|path| - 1]])
  {
    var k := |path|;
    var path' := path[..k - 1];
    var result' := result + [path[k - 1]];
    assert path == path' + [path[k - 1]];
    forall x | 0 <= x < |adj| && t[x] != adj[x] ensures x in path' || x in result' {
      assert x in path || x in result;
    }
  }

  /** A pop keeps the invariant, the new anchor being the new stack top. */
  lemma PopStep(adj: seq<seq<int>>, t: seq<seq<int>>, path: seq<int>, result: seq<int>, a: int, start: int)
    requires Inv(adj, t, path, result, a, start)
    requires |path| > 0 && t[path[|path| - 1]] == []
    ensures var k := |path|;
      Inv(adj, t, path[..k - 1], result + [path[k - 1]], if k > 1 then path[k - 2] else a, start)
  {
    var k := |path|;
    var v := path[k - 1];
    assert |t[v]| % 2 == 0;
    assert v == a;
    PopTrail(adj, path, result, a, start);
    PopCovered(adj, t, path, result);
  }

  /** The loop starts in the invariant, with the anchor at `start`. */
  lemma InitialInv(adj: seq<seq<int>>, start: int)
    requires Residual(adj, adj) && 0 <= start < |adj|
    requires forall x :: 0 <= x < |adj| ==> |adj[x]| % 2 == 0
    ensures Inv(adj, adj, [start], [], start, start)
  {
  }

  /** Once the stack is empty every edge has been walked: the popped vertices
      form a closed set holding `start`, hence every vertex with edges. */
  lemma FinishedAll(adj: seq<seq<int>>, t: seq<seq<int>>, result: seq<int>, a: int, start: int)
    requires WellFormed(adj) && Residual(adj, adj) && Inv(adj, t, [], result, a, start)
    requires ReachesAll(adj, start)
    ensures TotalLength(t) == 0
  {
    var c := set i | 0 <= i < |result| :: result[i];
    forall x, k | x in c && 0 <= x < |adj| && 0 <= k < |adj[x]|
      ensures adj[x][k] in c
    {
      var y := adj[x][k];
      var i :| 0 <= i < |result| && result[i] == x;
      assert t[x] == [];
      assert multiset(t[x]) == multiset{};
      assert multiset(adj[x])[y] > 0;
      assert multiset(t[y])[x] == 0;
      assert t[y] != adj[y];
      assert y in result;
    }
    assert Closed(adj, c);
    assert start in c;
    forall x | 0 <= x < |t| ensures t[x] == [] {
      if adj[x] != [] {
        assert x in c;
        var i :| 0 <= i < |result| && result[i] == x;
      } else {
        assert |multiset(t[x])| == 0;
      }
    }
    EmptyListsTotal(t);
  }

  /** Every vertex with edges is reachable from `start`. */
  ghost predicate ReachesAll(adj: seq<seq<int>>, start: int) {
    forall x :: 0 <= x < |adj| && adj[x] != [] ==> Reachable(adj, start, x)
  }

  /** A closed walk from `start` with one step per edge (two list entries),
      listed backwards. */
  ghost predicate BackCircuit(adj: seq<seq<int>>, r: seq<int>, start: int) {
    && |r| > 0 && r[0] == start && r[|r| - 1] == start && BackWalk(adj, r)
    && TotalLength(adj) == 2 * (|r| - 1)
  }

  /** The loop run from any state of the invariant pops every edge. */
  lemma {:induction false} HierholzerRun(adj: seq<seq<int>>, t: seq<seq<int>>, path: seq<int>, result: seq<int>, a: int, start: int)
    requires SimpleLists(adj) && Residual(adj, adj) && Inv(adj, t, path, result, a, start)
    requires ReachesAll(adj, start)
    ensures WellFormed(t)
    ensures BackCircuit(adj, Hierholzer(false, t, path, result), start)
    decreases TotalLength(t), |path|, 1
  {
    ResidualWellFormed(adj, t);
    if |path| == 0 {
      FinishedAll(adj, t, result, a, start);
    } else if |t[path[|path| - 1]]| > 0 {
      RunPush(adj, t, path, result, a, start);
    } else {
      RunPop(adj, t, path, result, a, start);
    }
  }

  /** One pass of the loop body when the top of the stack has edges left. */
  lemma PushUnfold(directed: bool, t: seq<seq<int>>, path: seq<int>, result: seq<int>)
    requires WellFormed(t) && forall i :: 0 <= i < |path| ==> 0 <= path[i] < |t|
    requires |path| > 0 && |t[path[|path| - 1]]| > 0
    ensures var v := path[|path| - 1];
      Hierholzer(directed, t, path, result)
        == Hierholzer(directed, Advance(directed, t, v), path + [t[v][|t[v]| - 1]], result)
  {
  }

  /** One pass of the loop body when the top of the stack has no edges left. */
  lemma PopUnfold(directed: bool, t: seq<seq<int>>, path: seq<int>, result: seq<int>)
    requires WellFormed(t) && forall i :: 0 <= i < |path| ==> 0 <= path[i] < |t|
    requires |path| > 0 && t[path[|path| - 1]] == []
    ensures Hierholzer(directed, t, path, result)
      == Hierholzer(directed, t, path[..|path| - 1], result + [path[|path| - 1]])
  {
  }

  lemma {:induction false} RunPush(adj: seq<seq<int>>, t: seq<seq<int>>, path: seq<int>, result: seq<int>, a: int, start: int)
    requires SimpleLists(adj) && Residual(adj, adj) && Inv(adj, t, path, result, a, start)
    requires ReachesAll(adj, start) && WellFormed(t)
    requires |path| > 0 && |t[path[|path| - 1]]| > 0
    ensures BackCircuit(adj, Hierholzer(false, t, path, result), start)
    decreases TotalLength(t), |path|, 0
  {
    var v := path[|path| - 1];
    var u := t[v][|t[v]| - 1];
    PushStep(adj, t, path, result, a, start);
    assert Hierholzer(false, t, path, result) == Hierholzer(false, Advance(false, t, v), path + [u], result);
    HierholzerRun(adj, Advance(false, t, v), path + [u], result, a, start);
  }

  lemma {:induction false} RunPop(adj: seq<seq<int>>, t: seq<seq<int>>, path: seq<int>, result: seq<int>, a: int, start: int)
    requires SimpleLists(adj) && Residual(adj, adj) && Inv(adj, t, path, result, a, start)
    requires ReachesAll(adj, start) && WellFormed(t)
    requires |path| > 0 && t[path[|path| - 1]] == []
    ensures BackCircuit(adj, Hierholzer(false, t, path, result), start)
    decreases TotalLength(t), |path|, 0
  {
    var k := |path|;
    var v := path[k - 1];
    PopStep(adj, t, path, result, a, start);
    assert Hierholzer(false, t, path, result) == Hierholzer(false, t, path[..k - 1], result + [v]);
    HierholzerRun(adj, t, path[..k - 1], result + [v], if k > 1 then path[k - 2] else a, start);
  }

  /** On a simple undirected graph that passes the test, a start vertex with
      edges yields an Euler circuit: a closed walk from `start` whose length
      is one more than the number of edges, each stored twice in the lists,
      and which steps between `x` and `y`, either way round, exactly as often
      as `y` occurs in the list of `x`. */
  lemma EulerCircuitFound(g: Graph, start: int)
    requires Valid(g) && Simple(g) && !g.directed && HasEulerCircuit(g)
    requires 0 <= start < |g.adj| && g.adj[start] != []
    ensures var c := FindEulerCircuit(g, start);
      && 2 * (|c| - 1) == TotalLength(g.adj) && c[0] == start && c[|c| - 1] == start
      && Walk(g.adj, c)
    ensures forall x, y :: 0 <= x < |g.adj| && 0 <= y < |g.adj| ==>
      Steps(FindEulerCircuit(g, start), x, y) == multiset(g.adj[x])[y]
  {
    CircuitTally(g, start);
    var adj := g.adj;
    var r := Hierholzer(false, adj, [start], []);
    assert BackCircuit(adj, r, start) by {
      HasEulerCircuitIff(g);
      assert Residual(adj, adj);
      assert SimpleLists(adj);
      assert ReachesAll(adj, start);
      InitialInv(adj, start);
      HierholzerRun(adj, adj, [start], [], start, start);
    }
    assert FindEulerCircuit(g, start) == Reverse(r);
    ReverseBackCircuit(adj, r, start);
  }

  /** A closed walk listed backwards, turned round, is a closed walk. */
  lemma ReverseBackCircuit(adj: seq<seq<int>>, r: seq<int>, start: int)
    requires BackCircuit(adj, r, start)
    ensures |Reverse(r)| == |r| && 2 * (|r| - 1) == TotalLength(adj)
    ensures Reverse(r)[0] == start && Reverse(r)[|r| - 1] == start
    ensures Walk(adj, Reverse(r))
  {
    var c := Reverse(r);
    forall i | 0 <= i < |c| - 1 ensures 0 <= c[i] < |adj| && c[i + 1] in adj[c[i]] {
      assert c[i] == r[|r| - 1 - i] && c[i + 1] == r[|r| - 1 - i - 1];
    }
  }

  // ---------------------------------------------------------------------
  // Every edge is walked exactly once.

  /** The step `p q` joins `x` and `y`, in either direction. */
  predicate Link(p: int, q: int, x: int, y: int) {
    (p == x && q == y) || (p == y && q == x)
  }

  /** `w` steps between every two vertices exactly as often as one lists the other. */
  ghost predicate Accounts(adj: seq<seq<int>>, w: seq<int>) {
    forall x, y :: 0 <= x < |adj| && 0 <= y < |adj| ==> Steps(w, x, y) == multiset(adj[x])[y]
  }

  /** How many consecutive pairs of `w` join `x` and `y`, either way round. */
  function Steps(w: seq<int>, x: int, y: int): nat
    decreases |w|
  {
    if |w| < 2 then 0
    else Steps(w[..|w| - 1], x, y) + (if Link(w[|w| - 2], w[|w| - 1], x, y) then 1 else 0)
  }

  lemma StepsAppend(w: seq<int>, u: int, x: int, y: int)
    requires |w| > 0
    ensures Steps(w + [u], x, y) == Steps(w, x, y) + (if Link(w[|w| - 1], u, x, y) then 1 else 0)
  {
    assert (w + [u])[..|w|] == w;
  }

  lemma {:induction false} StepsPrepend(u: int, w: seq<int>, x: int, y: int)
    ensures Steps([u] + w, x, y) == Steps(w, x, y) + (if |w| > 0 && Link(u, w[0], x, y) then 1 else 0)
    decreases |w|
  {
    if |w| >= 2 {
      var w' := w[..|w| - 1];
      assert ([u] + w)[..|w|] == [u] + w';
      StepsPrepend(u, w', x, y);
    }
  }

  /** Turning a walk round keeps the steps it takes between every pair. */
  lemma {:induction false} StepsReverse(w: seq<int>, x: int, y: int)
    ensures Steps(Reverse(w), x, y) == Steps(w, x, y)
    decreases |w|
  {
    if |w| > 0 {
      var rest := Reverse(w[1..]);
      assert Reverse(w) == rest + [w[0]];
      StepsReverse(w[1..], x, y);
      if |w| > 1 {
        StepsAppend(rest, w[0], x, y);
        assert rest[|rest| - 1] == w[1];
      }
      assert w == [w[0]] + w[1..];
      StepsPrepend(w[0], w[1..], x, y);
    }
  }

  /** The edges walked so far: along the stack, along the popped vertices,
      and from the last popped vertex to the anchor. */
  function Uses(path: seq<int>, result: seq<int>, a: int, x: int, y: int): nat {
    Steps(path, x, y) + Steps(result, x, y)
    + (if |path| > 0 && |result| > 0 && Link(result[|result| - 1], a, x, y) then 1 else 0)
  }

  /** Each edge is either still in the residual lists or walked, not both. */
  ghost predicate Tally(adj: seq<seq<int>>, t: seq<seq<int>>, path: seq<int>, result: seq<int>, a: int) {
    && |t| == |adj|
    && forall x, y :: 0 <= x < |adj| && 0 <= y < |adj| ==>
         multiset(t[x])[y] + Uses(path, result, a, x, y) == multiset(adj[x])[y]
  }

  /** A forward step takes one edge out of the lists and onto the stack. */
  lemma PushTally(adj: seq<seq<int>>, t: seq<seq<int>>, path: seq<int>, result: seq<int>, a: int, start: int)
    requires SimpleLists(adj) && Inv(adj, t, path, result, a, start) && Tally(adj, t, path, result, a)
    requires |path| > 0 && |t[path[|path| - 1]]| > 0
    ensures WellFormed(t)
    ensures var v := path[|path| - 1];
      Tally(adj, Advance(false, t, v), path + [t[v][|t[v]| - 1]], result, a)
  {
    var v := path[|path| - 1];
    ResidualWellFormed(adj, t);
    PushFacts(adj, t, v);
    var u := t[v][|t[v]| - 1];
    AdvanceStepped(t, v);
    CountLast(t[v]);
    StepTally(adj, t, Advance(false, t, v), path, result, a, u);
  }

  /** The last entry of a list occurs once more than in the rest of it. */
  lemma CountLast(s: seq<int>)
    requires |s| > 0
    ensures multiset(s)[s[|s| - 1]] == multiset(s[..|s| - 1])[s[|s| - 1]] + 1
  {
    assert s == s[..|s| - 1] + [s[|s| - 1]];
  }

  lemma StepTally(adj: seq<seq<int>>, t: seq<seq<int>>, r: seq<seq<int>>, path: seq<int>, result: seq<int>, a: int, u: int)
    requires Tally(adj, t, path, result, a) && |path| > 0
    requires var v := path[|path| - 1];
      && Stepped(t, r, v, u) && t[v][|t[v]| - 1] == u && multiset(t[v][..|t[v]| - 1])[u] == 0
      && multiset(t[v])[u] == 1 && multiset(t[u])[v] == 1
    ensures Tally(adj, r, path + [u], result, a)
  {
    var v := path[|path| - 1];
    forall x, y | 0 <= x < |adj| && 0 <= y < |adj|
      ensures multiset(r[x])[y] + Uses(path + [u], result, a, x, y) == multiset(adj[x])[y]
    {
      SteppedCounts(t, r, v, u, x, y);
      StepsAppend(path, u, x, y);
      assert multiset(t[x])[y] + Uses(path, result, a, x, y) == multiset(adj[x])[y];
    }
  }

  /** A pop moves the top edge from the stack to the popped vertices; the
      stuck vertex is the anchor, so the edge to the anchor stays counted. */
  lemma PopTally(adj: seq<seq<int>>, t: seq<seq<int>>, path: seq<int>, result: seq<int>, a: int, start: int)
    requires Inv(adj, t, path, result, a, start) && Tally(adj, t, path, result, a)
    requires |path| > 0 && t[path[|path| - 1]] == []
    ensures var k := |path|;
      Tally(adj, t, path[..k - 1], result + [path[k - 1]], if k > 1 then path[k - 2] else a)
  {
    var v := path[|path| - 1];
    assert |t[v]| % 2 == 0;
    assert v == a;
    UnstackTally(adj, t, path, result, a);
  }

  lemma UnstackTally(adj: seq<seq<int>>, t: seq<seq<int>>, path: seq<int>, result: seq<int>, a: int)
    requires Tally(adj, t, path, result, a) && |path| > 0 && path[|path| - 1] == a
    ensures var k := |path|;
      Tally(adj, t, path[..k - 1], result + [a], if k > 1 then path[k - 2] else a)
  {
    var k := |path|;
    var a' := if k > 1 then path[k - 2] else a;
    forall x, y | 0 <= x < |adj| && 0 <= y < |adj|
      ensures multiset(t[x])[y] + Uses(path[..k - 1], result + [a], a', x, y) == multiset(adj[x])[y]
    {
      assert multiset(t[x])[y] + Uses(path, result, a, x, y) == multiset(adj[x])[y];
      if |result| > 0 {
        StepsAppend(result, a, x, y);
      }
    }
  }

  /** The loop run from any state of both invariants walks every edge once. */
  lemma {:induction false} TallyRun(adj: seq<seq<int>>, t: seq<seq<int>>, path: seq<int>, result: seq<int>, a: int, start: int)
    requires SimpleLists(adj) && Residual(adj, adj) && Inv(adj, t, path, result, a, start)
    requires Tally(adj, t, path, result, a) && ReachesAll(adj, start)
    ensures WellFormed(t)
    ensures Accounts(adj, Hierholzer(false, t, path, result))
    decreases TotalLength(t), |path|, 1
  {
    ResidualWellFormed(adj, t);
    if |path| == 0 {
      FinishedAll(adj, t, result, a, start);
      TotalLengthZero(t);
      forall x, y | 0 <= x < |adj| && 0 <= y < |adj|
        ensures Steps(result, x, y) == multiset(adj[x])[y]
      {
        assert t[x] == [];
      }
    } else if |t[path[|path| - 1]]| > 0 {
      TallyPush(adj, t, path, result, a, start);
    } else {
      TallyPop(adj, t, path, result, a, start);
    }
  }

  lemma {:induction false} TallyPush(adj: seq<seq<int>>, t: seq<seq<int>>, path: seq<int>, result: seq<int>, a: int, start: int)
    requires SimpleLists(adj) && Residual(adj, adj) && Inv(adj, t, path, result, a, start)
    requires Tally(adj, t, path, result, a) && ReachesAll(adj, start) && WellFormed(t)
    requires |path| > 0 && |t[path[|path| - 1]]| > 0
    ensures Accounts(adj, Hierholzer(false, t, path, result))
    decreases TotalLength(t), |path|, 0
  {
    var v := path[|path| - 1];
    var u := t[v][|t[v]| - 1];
    PushStep(adj, t, path, result, a, start);
    PushTally(adj, t, path, result, a, start);
    PushUnfold(false, t, path, result);
    TallyRun(adj, Advance(false, t, v), path + [u], result, a, start);
  }

  lemma {:induction false} TallyPop(adj: seq<seq<int>>, t: seq<seq<int>>, path: seq<int>, result: seq<int>, a: int, start: int)
    requires SimpleLists(adj) && Residual(adj, adj) && Inv(adj, t, path, result, a, start)
    requires Tally(adj, t, path, result, a) && ReachesAll(adj, start) && WellFormed(t)
    requires |path| > 0 && t[path[|path| - 1]] == []
    ensures Accounts(adj, Hierholzer(false, t, path, result))
    decreases TotalLength(t), |path|, 0
  {
    var k := |path|;
    var v := path[k - 1];
    var a' := if k > 1 then path[k - 2] else a;
    assert Inv(adj, t, path[..k - 1], result + [v], a', start) by {
      PopStep(adj, t, path, result, a, start);
    }
    assert Tally(adj, t, path[..k - 1], result + [v], a') by {
      PopTally(adj, t, path, result, a, start);
    }
    PopUnfold(false, t, path, result);
    TallyRun(adj, t, path[..k - 1], result + [v], a', start);
  }

  /** The circuit found on a simple undirected graph takes each edge exactly
      once, in one direction or the other, and never steps off an edge. */
  lemma CircuitTally(g: Graph, start: int)
    requires Valid(g) && Simple(g) && !g.directed && HasEulerCircuit(g)
    requires 0 <= start < |g.adj| && g.adj[start] != []
    ensures forall x, y :: 0 <= x < |g.adj| && 0 <= y < |g.adj| ==>
      Steps(FindEulerCircuit(g, start), x, y) == multiset(g.adj[x])[y]
  {
    var adj := g.adj;
    var r := Hierholzer(false, adj, [start], []);
    LoopTally(g, start);
    FoundFromLoop(g, start, r);
    ReversedAccounts(adj, r);
  }

  /** Turning a sequence round keeps it accounting for every edge. */
  lemma ReversedAccounts(adj: seq<seq<int>>, w: seq<int>)
    requires Accounts(adj, w)
    ensures Accounts(adj, Reverse(w))
  {
    forall x, y | 0 <= x < |adj| && 0 <= y < |adj|
      ensures Steps(Reverse(w), x, y) == multiset(adj[x])[y]
    {
      StepsReverse(w, x, y);
    }
  }

  /** The pop order itself, before it is turned round, accounts for every edge. */
  lemma LoopTally(g: Graph, start: int)
    requires Valid(g) && Simple(g) && !g.directed && HasEulerCircuit(g)
    requires 0 <= start < |g.adj| && g.adj[start] != []
    ensures WellFormed(g.adj) && Accounts(g.adj, Hierholzer(false, g.adj, [start], []))
  {
    var adj := g.adj;
    HasEulerCircuitIff(g);
    assert Residual(adj, adj);
    assert SimpleLists(adj);
    assert ReachesAll(adj, start);
    InitialInv(adj, start);
    InitialTally(adj, start);
    TallyRun(adj, adj, [start], [], start, start);
  }

  /** Before the loop starts nothing has been walked. */
  lemma InitialTally(adj: seq<seq<int>>, start: int)
    ensures Tally(adj, adj, [start], [], start)
  {
    forall x, y | 0 <= x < |adj| && 0 <= y < |adj|
      ensures Uses([start], [], start, x, y) == 0
    {
    }
  }

  // ---------------------------------------------------------------------
  // Parallel edges.

  /** Two parallel edges between 0 and 1 pass the test, but the first step
      from 0 erases both copies of 0 from the list of 1, so the loop comes
      back through 1 twice and the result is not a walk. */
  lemma ParallelEdgesNoWalk()
    ensures var g := Graph(2, false, [[1, 1], [0, 0]]);
      && Valid(g) && !Simple(g) && HasEulerCircuit(g)
      && FindEulerCircuit(g, 0) == [0, 1, 1] && !Walk(g.adj, [0, 1, 1])
  {
    var g := Graph(2, false, [[1, 1], [0, 0]]);
    ParallelEdgesPass();
    ParallelEdgesLoop();
    ParallelEdgesReversed();
    FoundFromLoop(g, 0, [1, 1, 0]);
    ParallelEdgesStepOff();
  }

  /** The pop order of the doubled edge, turned round. */
  lemma ParallelEdgesReversed()
    ensures Reverse([1, 1, 0]) == [0, 1, 1]
  {
  }

  /** A graph that passes the test yields its loop's pop order, reversed. */
  lemma FoundFromLoop(g: Graph, start: int, h: seq<int>)
    requires Indexable(g) && HasEulerCircuit(g) && 0 <= start < |g.adj|
    requires Hierholzer(g.directed, g.adj, [start], []) == h
    ensures FindEulerCircuit(g, start) == Reverse(h)
  {
  }

  /** The second step of `[0, 1, 1]` stays at 1, which is no neighbour of itself. */
  lemma ParallelEdgesStepOff()
    ensures !Walk([[1, 1], [0, 0]], [0, 1, 1])
  {
    var adj: seq<seq<int>> := [[1, 1], [0, 0]];
    var w := [0, 1, 1];
    assert w[2] !in adj[w[1]];
  }

  /** The doubled edge passes the test. */
  lemma ParallelEdgesPass()
    ensures var g := Graph(2, false, [[1, 1], [0, 0]]);
      Valid(g) && !Simple(g) && HasEulerCircuit(g)
  {
    var g := Graph(2, false, [[1, 1], [0, 0]]);
    ParallelEdgesValid();
    ParallelEdgesCondition();
    HasEulerCircuitIff(g);
  }

  /** The doubled edge is a valid graph, but not a simple one. */
  lemma ParallelEdgesValid()
    ensures var g := Graph(2, false, [[1, 1], [0, 0]]);
      Valid(g) && !Simple(g)
  {
    var adj: seq<seq<int>> := [[1, 1], [0, 0]];
    assert multiset(adj[0]) == multiset{1, 1};
    assert multiset(adj[1]) == multiset{0, 0};
    assert adj[0][0] == adj[0][1];
  }

  /** Both ends of the doubled edge reach each other and have degree two. */
  lemma ParallelEdgesCondition()
    ensures EulerCondition([[1, 1], [0, 0]])
  {
    var adj: seq<seq<int>> := [[1, 1], [0, 0]];
    ReachableFromSelf(adj, 0);
    ReachableFromSelf(adj, 1);
    ReachableStep(adj, 0, 0, 0);
    ReachableStep(adj, 1, 1, 0);
  }

  /** The first step from 0 takes one copy of the edge and erases both
      copies of 0 from the list of 1; the second takes the other copy. */
  lemma ParallelEdgesSteps()
    ensures Advance(false, [[1, 1], [0, 0]], 0) == [[1], []]
    ensures Advance(false, [[1], []], 0) == [[], []]
  {
    assert RemoveAll([0], 0) == [];
    assert [0, 0][1..] == [0];
    assert RemoveAll([0, 0], 0) == [];
    assert [1, 1][..1] == [1];
    assert RemoveAll([], 0) == [];
  }

  /** The loop on the doubled edge pops 1, 1 and then 0. */
  lemma ParallelEdgesLoop()
    ensures Hierholzer(false, [[1, 1], [0, 0]], [0], []) == [1, 1, 0]
  {
    var adj: seq<seq<int>> := [[1, 1], [0, 0]];
    var a1: seq<seq<int>> := [[1], []];
    var a2: seq<seq<int>> := [[], []];
    ParallelEdgesSteps();
    PushUnfold(false, adj, [0], []);
    assert [0] + [adj[0][1]] == [0, 1];
    PopUnfold(false, a1, [0, 1], []);
    assert [0, 1][..1] == [0] && [] + [1] == [1];
    ParallelEdgesLoopEnd();
  }

  /** Back at 0 with one copy left: it is walked, then 1 and 0 are popped. */
  lemma ParallelEdgesLoopEnd()
    ensures Hierholzer(false, [[1], []], [0], [1]) == [1, 1, 0]
  {
    var a1: seq<seq<int>> := [[1], []];
    var a2: seq<seq<int>> := [[], []];
    ParallelEdgesSteps();
    PushUnfold(false, a1, [0], [1]);
    assert [0] + [a1[0][0]] == [0, 1];
    PopUnfold(false, a2, [0, 1], [1]);
    assert [1] + [1] == [1, 1];
    PopUnfold(false, a2, [0], [1, 1]);
    assert [0][..0] == [] && [1, 1] + [0] == [1, 1, 0];
  }
}
