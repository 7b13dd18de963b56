/** `Graph::maxFlow` and `bfsFlow` (part7): Edmonds-Karp on an `n x n`
    residual matrix in which every stored edge adds capacity 1. */
module MaxFlow {
  import opened Seqs
  import opened Graphs
  import opened Reach

  /** An `n x n` matrix. */
  predicate Square(r: seq<seq<int>>, n: int) {
    |r| == n && forall u :: 0 <= u < n ==> |r[u]| == n
  }

  predicate NonNegative(r: seq<seq<int>>) {
    forall u, v :: 0 <= u < |r| && 0 <= v < |r[u]| ==> r[u][v] >= 0
  }

  /** The matrix the `rGraph[u][v] += 1` loop leaves: entry `(u, v)` counts
      the copies of `v` in the list of `u`. */
  function Capacities(adj: seq<seq<int>>): (r: seq<seq<int>>)
    ensures Square(r, |adj|) && NonNegative(r)
  {
    seq(|adj|, u requires 0 <= u < |adj| => seq(|adj|, v => multiset(adj[u])[v]))
  }

  // ---------------------------------------------------------------------
  // Residual reachability.

  /** A vertex set that no positive residual entry leaves. */
  ghost predicate MatrixClosed(r: seq<seq<int>>, c: set<int>) {
    forall u, v :: u in c && 0 <= u < |r| && 0 <= v < |r[u]| && r[u][v] > 0 ==> v in c
  }

  /** `t` is reachable from `s` over positive residual entries. */
  ghost predicate MatrixReachable(r: seq<seq<int>>, s: int, t: int) {
    forall c :: MatrixClosed(r, c) && s in c ==> t in c
  }

  /** Over the initial matrix, residual reachability is reachability over
      the stored edges. */
  lemma CapacitiesReach(adj: seq<seq<int>>, s: int, t: int)
    requires WellFormed(adj)
    ensures MatrixReachable(Capacities(adj), s, t) <==> Reachable(adj, s, t)
  {
    var r := Capacities(adj);
    forall c ensures MatrixClosed(r, c) <==> Closed(adj, c) {
      if MatrixClosed(r, c) {
        forall u, k | u in c && 0 <= u < |adj| && 0 <= k < |adj[u]| ensures adj[u][k] in c {
          var v := adj[u][k];
          assert v in multiset(adj[u]);
          assert r[u][v] > 0;
        }
      }
      if Closed(adj, c) {
        forall u, v | u in c && 0 <= u < |r| && 0 <= v < |r[u]| && r[u][v] > 0 ensures v in c {
          assert v in multiset(adj[u]);
          var k :| 0 <= k < |adj[u]| && adj[u][k] == v;
        }
      }
    }
  }

  // ---------------------------------------------------------------------
  // bfsFlow.

  /** BFS state: the visited set, the parent array and every vertex ever
      queued, in queue order (the live queue is a suffix of `order`). */
  datatype Bfs = Bfs(visited: set<int>, parent: seq<int>, order: seq<int>)

  /** The queue bookkeeping: `order` starts at `s`, never repeats a vertex
      and holds exactly the visited vertices. */
  ghost predicate Shape(r: seq<seq<int>>, n: int, s: int, b: Bfs) {
    && Square(r, n) && |b.parent| == n && 0 <= s < n
    && |b.order| >= 1 && b.order[0] == s && Distinct(b.order)
    && (forall x :: x in b.visited <==> x in b.order)
    && (forall i :: 0 <= i < |b.order| ==> 0 <= b.order[i] < n)
  }

  /** The `i`-th queued vertex was reached from a parent queued before it,
      over a positive entry. */
  ghost predicate Link(r: seq<seq<int>>, b: Bfs, i: int)
    requires 0 <= i < |b.order|
  {
    var x := b.order[i];
    && 0 <= x < |b.parent| && b.parent[x] in b.order[..i]
    && 0 <= b.parent[x] < |r| && 0 <= x < |r[b.parent[x]]| && r[b.parent[x]][x] > 0
  }

  ghost predicate Tree(r: seq<seq<int>>, n: int, s: int, b: Bfs) {
    Shape(r, n, s, b) && forall i :: 0 < i < |b.order| ==> Link(r, b, i)
  }

  /** Every vertex dequeued so far has all its positive successors visited. */
  ghost predicate Done(r: seq<seq<int>>, n: int, b: Bfs, head: int) {
    forall i, w :: 0 <= i < head && i < |b.order| && 0 <= b.order[i] < |r| && 0 <= w < n && w < |r[b.order[i]]| && r[b.order[i]][w] > 0 ==>
      w in b.visited
  }

  /** The scan `for (v = from; v < n; ++v)` of dequeued vertex `u`. */
  function Scan(r: seq<seq<int>>, n: int, s: int, u: int, from: int, b: Bfs): (res: Bfs)
    requires Tree(r, n, s, b) && u in b.visited && 0 <= from <= n
    ensures Tree(r, n, s, res)
    ensures b.visited <= res.visited && b.order <= res.order
    ensures res.visited == b.visited ==> res.order == b.order
    ensures forall w :: from <= w < n && r[u][w] > 0 ==> w in res.visited
    ensures forall i :: 0 <= i < |b.order| ==> res.parent[b.order[i]] == b.parent[b.order[i]]
    decreases n - from
  {
    if from == n then b
    else if from !in b.visited && r[u][from] > 0 then
      var b1 := Bfs(b.visited + {from}, b.parent[from := u], b.order + [from]);
      assert Tree(r, n, s, b1) by {
        TreeAdd(r, n, s, u, from, b);
      }
      Scan(r, n, s, u, from + 1, b1)
    else
      Scan(r, n, s, u, from + 1, b)
  }

  lemma TreeAdd(r: seq<seq<int>>, n: int, s: int, u: int, v: int, b: Bfs)
    requires Tree(r, n, s, b) && u in b.visited && 0 <= v < n && v !in b.visited && r[u][v] > 0
    ensures Tree(r, n, s, Bfs(b.visited + {v}, b.parent[v := u], b.order + [v]))
  {
    var b1 := Bfs(b.visited + {v}, b.parent[v := u], b.order + [v]);
    ShapeAdd(r, n, s, v, b, b1);
    forall i | 0 < i < |b1.order| ensures Link(r, b1, i) {
      LinkAdd(r, n, s, u, v, b, b1, i);
    }
  }

  lemma ShapeAdd(r: seq<seq<int>>, n: int, s: int, v: int, b: Bfs, b1: Bfs)
    requires Shape(r, n, s, b) && 0 <= v < n && v !in b.visited
    requires b1.visited == b.visited + {v} && |b1.parent| == n && b1.order == b.order + [v]
    ensures Shape(r, n, s, b1)
  {
    DisjointConcat(b.order, [v]);
  }

  lemma LinkAdd(r: seq<seq<int>>, n: int, s: int, u: int, v: int, b: Bfs, b1: Bfs, i: int)
    requires Tree(r, n, s, b) && u in b.visited && 0 <= v < n && v !in b.visited && r[u][v] > 0
    requires b1 == Bfs(b.visited + {v}, b.parent[v := u], b.order + [v])
    requires 0 < i < |b1.order|
    ensures Link(r, b1, i)
  {
    var m := |b.order|;
    if i < m {
      assert Link(r, b, i);
      assert b1.order[i] == b.order[i] && b.order[i] != v;
      assert b1.order[..i] == b.order[..i];
    } else {
      assert b1.order[..m] == b.order;
    }
  }

  /** The loop `while (!q.empty())`, with the queue front at `head`. */
  function Loop(r: seq<seq<int>>, n: int, s: int, head: int, b: Bfs): (res: Bfs)
    requires Tree(r, n, s, b) && 0 <= head <= |b.order| && Done(r, n, b, head)
    ensures Tree(r, n, s, res) && b.visited <= res.visited
    ensures Done(r, n, res, |res.order|)
    decreases Range(n) - b.visited, |b.order| - head
  {
    if head == |b.order| then b
    else
      var u := b.order[head];
      var b1 := Scan(r, n, s, u, 0, b);
      assert Done(r, n, b1, head + 1) by {
        assert forall i :: 0 <= i < |b.order| ==> b1.order[i] == b.order[i];
      }
      assert b1.visited <= Range(n) by {
        forall x | x in b1.visited ensures 0 <= x < n {
          var i :| 0 <= i < |b1.order| && b1.order[i] == x;
        }
      }
      Loop(r, n, s, head + 1, b1)
  }

  /** `bfsFlow(rGraph, s, t, parent)`; the returned `visited[t]` is
      `t in Search(...).visited`. */
  function Search(r: seq<seq<int>>, n: int, s: int, parent: seq<int>): (res: Bfs)
    requires Square(r, n) && 0 <= s < n && |parent| == n
    ensures Tree(r, n, s, res)
  {
    var b := Bfs({s}, parent[s := -1], [s]);
    Loop(r, n, s, 0, b)
  }

  /** The search visits exactly the vertices reachable from `s` over
      positive residual entries. */
  lemma SearchReaches(r: seq<seq<int>>, n: int, s: int, parent: seq<int>)
    requires Square(r, n) && 0 <= s < n && |parent| == n
    ensures forall x :: x in Search(r, n, s, parent).visited <==> MatrixReachable(r, s, x)
  {
    var b0 := Bfs({s}, parent[s := -1], [s]);
    var res := Search(r, n, s, parent);
    forall c | MatrixClosed(r, c) && s in c ensures res.visited <= c {
      LoopSound(r, n, s, 0, b0, c);
    }
    assert MatrixClosed(r, res.visited) by {
      forall u, v | u in res.visited && 0 <= u < |r| && 0 <= v < |r[u]| && r[u][v] > 0
        ensures v in res.visited
      {
        var i :| 0 <= i < |res.order| && res.order[i] == u;
      }
    }
  }

  lemma {:induction false} ScanSound(r: seq<seq<int>>, n: int, s: int, u: int, from: int, b: Bfs, c: set<int>)
    requires Tree(r, n, s, b) && u in b.visited && 0 <= from <= n
    requires MatrixClosed(r, c) && b.visited <= c
    ensures Scan(r, n, s, u, from, b).visited <= c
    decreases n - from
  {
    if from < n {
      if from !in b.visited && r[u][from] > 0 {
        var b1 := Bfs(b.visited + {from}, b.parent[from := u], b.order + [from]);
        TreeAdd(r, n, s, u, from, b);
        ScanSound(r, n, s, u, from + 1, b1, c);
      } else {
        ScanSound(r, n, s, u, from + 1, b, c);
      }
    }
  }

  lemma {:induction false} LoopSound(r: seq<seq<int>>, n: int, s: int, head: int, b: Bfs, c: set<int>)
    requires Tree(r, n, s, b) && 0 <= head <= |b.order| && Done(r, n, b, head)
    requires MatrixClosed(r, c) && b.visited <= c
    ensures Loop(r, n, s, head, b).visited <= c
    decreases Range(n) - b.visited, |b.order| - head
  {
    if head < |b.order| {
      var u := b.order[head];
      var b1 := Scan(r, n, s, u, 0, b);
      ScanSound(r, n, s, u, 0, b, c);
      assert Done(r, n, b1, head + 1) by {
        assert forall i :: 0 <= i < |b.order| ==> b1.order[i] == b.order[i];
      }
      assert b1.visited <= Range(n) by {
        forall x | x in b1.visited ensures 0 <= x < n {
          var i :| 0 <= i < |b1.order| && b1.order[i] == x;
        }
      }
      LoopSound(r, n, s, head + 1, b1, c);
    }
  }

  // ---------------------------------------------------------------------
  // The augmenting path and the update of the residual matrix.

  /** The walk `for (v = t; v != s; v = parent[v])`, read from `s` to the
      `i`-th queued vertex. */
  function Trace(r: seq<seq<int>>, n: int, s: int, b: Bfs, i: int): (p: seq<int>)
    requires Tree(r, n, s, b) && 0 <= i < |b.order|
    ensures |p| >= 1 && p[0] == s && p[|p| - 1] == b.order[i]
    ensures forall k :: 0 <= k < |p| ==> p[k] in b.order[..i + 1]
    ensures Distinct(p)
    ensures forall k :: 0 <= k < |p| - 1 ==> b.parent[p[k + 1]] == p[k] && 0 <= p[k] < n && r[p[k]][p[k + 1]] > 0
    decreases i
  {
    if i == 0 then [s]
    else
      assert Link(r, b, i);
      var j := IndexOf(b.order[..i], b.parent[b.order[i]]);
      var q := Trace(r, n, s, b, j);
      var p := q + [b.order[i]];
      assert b.order[i] !in q by {
        forall k | 0 <= k < |q| ensures q[k] != b.order[i] {
          var m :| 0 <= m < j + 1 && b.order[m] == q[k];
        }
      }
      DisjointConcat(q, [b.order[i]]);
      assert forall k :: 0 <= k < |q| ==> p[k] == q[k];
      assert forall k :: 0 <= k < |q| ==> q[k] in b.order[..i + 1] by {
        assert b.order[..j + 1] <= b.order[..i + 1];
      }
      p
  }

  /** Every vertex of the path lies in `[0, n)`. */
  predicate OnMatrix(r: seq<seq<int>>, n: int, p: seq<int>) {
    Square(r, n) && forall k :: 0 <= k < |p| ==> 0 <= p[k] < n
  }

  /** The capacity loop: the least residual entry along `p`, starting from `acc`. */
  function Bottleneck(r: seq<seq<int>>, n: int, p: seq<int>, acc: int): (f: int)
    requires OnMatrix(r, n, p)
    ensures f <= acc && forall k :: 0 <= k < |p| - 1 ==> f <= r[p[k]][p[k + 1]]
    ensures f == acc || exists k :: 0 <= k < |p| - 1 && f == r[p[k]][p[k + 1]]
    decreases |p|
  {
    if |p| < 2 then acc
    else
      var q := p[..|p| - 1];
      assert forall k :: 0 <= k < |q| ==> q[k] == p[k];
      Bottleneck(r, n, q, Min(acc, r[p[|p| - 2]][p[|p| - 1]]))
  }

  /** `rGraph[u][v] -= f; rGraph[v][u] += f`. */
  function Push(r: seq<seq<int>>, n: int, u: int, v: int, f: int): (res: seq<seq<int>>)
    requires Square(r, n) && 0 <= u < n && 0 <= v < n
    ensures Square(res, n)
  {
    var r1 := r[u := r[u][v := r[u][v] - f]];
    r1[v := r1[v][u := r1[v][u] + f]]
  }

  /** The update loop, walking the path from `t` back to `s`. */
  function Augment(r: seq<seq<int>>, n: int, p: seq<int>, f: int): (res: seq<seq<int>>)
    requires OnMatrix(r, n, p)
    ensures Square(res, n)
    decreases |p|
  {
    if |p| < 2 then r
    else
      var q := p[..|p| - 1];
      assert forall k :: 0 <= k < |q| ==> q[k] == p[k];
      Augment(Push(r, n, p[|p| - 2], p[|p| - 1], f), n, q, f)
  }

  lemma PushFacts(r: seq<seq<int>>, n: int, u: int, v: int, f: int)
    requires Square(r, n) && NonNegative(r) && 0 <= u < n && 0 <= v < n && u != v && 0 <= f <= r[u][v]
    ensures NonNegative(Push(r, n, u, v, f))
    ensures Push(r, n, u, v, f)[u] == r[u][v := r[u][v] - f]
    ensures Push(r, n, u, v, f)[v] == r[v][u := r[v][u] + f]
    ensures forall x :: 0 <= x < n && x != u && x != v ==> Push(r, n, u, v, f)[x] == r[x]
  {
  }

  /** Along a path that repeats no vertex, with `f` no larger than any of
      its entries, the update keeps every entry non-negative and takes
      exactly `f` out of the row of the path's first vertex. */
  lemma {:induction false} AugmentFacts(r: seq<seq<int>>, n: int, p: seq<int>, f: int)
    requires OnMatrix(r, n, p) && NonNegative(r) && |p| >= 2 && Distinct(p) && f >= 0
    requires forall k :: 0 <= k < |p| - 1 ==> f <= r[p[k]][p[k + 1]]
    ensures NonNegative(Augment(r, n, p, f))
    ensures Sum(Augment(r, n, p, f)[p[0]]) == Sum(r[p[0]]) - f
    decreases |p|
  {
    var m := |p| - 1;
    var u := p[m - 1];
    var v := p[m];
    var q := p[..m];
    var r1 := Push(r, n, u, v, f);
    assert forall k :: 0 <= k < |q| ==> q[k] == p[k];
    assert Augment(r, n, p, f) == Augment(r1, n, q, f);
    PushFacts(r, n, u, v, f);
    if m == 1 {
      SumUpdate(r[u], v, r[u][v] - f);
    } else {
      assert p[0] != u && p[0] != v;
      forall k | 0 <= k < |q| - 1 ensures f <= r1[q[k]][q[k + 1]] {
        assert q[k] != u && q[k] != v;
      }
      assert Distinct(q);
      AugmentFacts(r1, n, q, f);
    }
  }

  /** The augmenting path `parent` spells out from `s` to `t`. */
  function PathTo(r: seq<seq<int>>, n: int, s: int, t: int, b: Bfs): (p: seq<int>)
    requires Tree(r, n, s, b) && t in b.visited
    ensures OnMatrix(r, n, p)
  {
    Trace(r, n, s, b, IndexOf(b.order, t))
  }

  /** One round finds a bottleneck of at least 1, keeps the matrix
      non-negative and takes the bottleneck out of the source row. */
  lemma RoundFacts(r: seq<seq<int>>, n: int, s: int, t: int, b: Bfs)
    requires Tree(r, n, s, b) && NonNegative(r) && t in b.visited && s != t
    ensures var f := Bottleneck(r, n, PathTo(r, n, s, t, b), IntMax);
      var r1 := Augment(r, n, PathTo(r, n, s, t, b), f);
      && f >= 1 && NonNegative(r1) && Sum(r1[s]) == Sum(r[s]) - f && Sum(r1[s]) >= 0
  {
    var p := PathTo(r, n, s, t, b);
    var f := Bottleneck(r, n, p, IntMax);
    assert f >= 1;
    AugmentFacts(r, n, p, f);
    var r1 := Augment(r, n, p, f);
    SumNonNegative(r1[s]);
  }

  /** The loop `while (bfsFlow(...))`, with the flow found so far. */
  function FlowLoop(r: seq<seq<int>>, n: int, s: int, t: int, parent: seq<int>, flow: int): (res: int)
    requires Square(r, n) && NonNegative(r) && 0 <= s < n && 0 <= t < n && s != t && |parent| == n
    ensures flow <= res <= flow + Sum(r[s])
    ensures res == flow <==> t !in Search(r, n, s, parent).visited
    decreases Sum(r[s])
  {
    var b := Search(r, n, s, parent);
    SumNonNegative(r[s]);
    if t !in b.visited then flow
    else
      var p := PathTo(r, n, s, t, b);
      var f := Bottleneck(r, n, p, IntMax);
      RoundFacts(r, n, s, t, b);
      FlowLoop(Augment(r, n, p, f), n, s, t, b.parent, flow + f)
  }

  /** `maxFlow(source, sink)`: the loop never ends when `source == sink`. */
  function MaxFlow(g: Graph, source: int, sink: int): int
    requires Shaped(g) && NeighboursInRange(g)
    requires InRange(g, source) && InRange(g, sink) && source != sink
  {
    FlowLoop(Capacities(g.adj), g.numVertices, source, sink, Zeros(g.numVertices), 0)
  }

  function Zeros(n: nat): (z: seq<int>)
    ensures |z| == n && forall i :: 0 <= i < n ==> z[i] == 0
  {
    if n == 0 then [] else Zeros(n - 1) + [0]
  }

  lemma {:induction false} ZeroSum(n: nat)
    ensures Sum(Zeros(n)) == 0
  {
    if n > 0 {
      SumAppend(Zeros(n - 1), [0]);
      ZeroSum(n - 1);
    }
  }

  /** The entries of a capacity row add up to the length of the list. */
  lemma {:induction false} CountsSum(l: seq<int>, n: nat)
    requires forall k :: 0 <= k < |l| ==> 0 <= l[k] < n
    ensures Sum(seq(n, v => multiset(l)[v])) == |l|
  {
    if |l| == 0 {
      ZeroSum(n);
      assert seq(n, v => multiset(l)[v]) == Zeros(n);
    } else {
      var l1 := l[..|l| - 1];
      var x := l[|l| - 1];
      assert l == l1 + [x];
      CountsSum(l1, n);
      var c1 := seq(n, v => multiset(l1)[v]);
      assert seq(n, v => multiset(l)[v]) == c1[x := c1[x] + 1];
      SumUpdate(c1, x, c1[x] + 1);
    }
  }

  /** The flow is at most the number of stored edges leaving the source:
      each one adds capacity 1, and parallel edges add up. */
  lemma MaxFlowBounds(g: Graph, source: int, sink: int)
    requires Shaped(g) && NeighboursInRange(g)
    requires InRange(g, source) && InRange(g, sink) && source != sink
    ensures 0 <= MaxFlow(g, source, sink) <= |g.adj[source]|
  {
    CountsSum(g.adj[source], g.numVertices);
    assert Capacities(g.adj)[source] == seq(g.numVertices, v => multiset(g.adj[source])[v]);
  }

  /** The flow is 0 exactly when the sink cannot be reached from the source. */
  lemma MaxFlowZeroIff(g: Graph, source: int, sink: int)
    requires Shaped(g) && NeighboursInRange(g)
    requires InRange(g, source) && InRange(g, sink) && source != sink
    ensures MaxFlow(g, source, sink) == 0 <==> !Reachable(g.adj, source, sink)
  {
    var parent := Zeros(g.numVertices);
    SearchReaches(Capacities(g.adj), g.numVertices, source, parent);
    CapacitiesReach(g.adj, source, sink);
  }
}
