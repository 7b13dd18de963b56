/** `Graph::findSCCs` (part7), Kosaraju's algorithm: a first search over
    every vertex records finishing order (`dfs1` pushing onto a stack), the
    lists are reversed, and a second search (`dfs2`) over the reversed lists
    from each unvisited vertex, popped from the stack, collects one
    component in discovery order. */
module Scc {
  import opened Seqs
  import opened Graphs
  import opened Reach

  /** `for (int v : list) revAdj[v].push_back(u)`. */
  function AppendTo(rev: seq<seq<int>>, list: seq<int>, u: int): (res: seq<seq<int>>)
    requires forall k :: 0 <= k < |list| ==> 0 <= list[k] < |rev|
    ensures |res| == |rev|
    ensures forall v, x :: 0 <= v < |rev| ==> (x in res[v] <==> x in rev[v] || (x == u && v in list))
    decreases |list|
  {
    if |list| == 0 then rev
    else
      var res := AppendTo(rev[list[0] := rev[list[0]] + [u]], list[1..], u);
      assert forall v :: v in list <==> v == list[0] || v in list[1..];
      res
  }

  /** The reversing loop from vertex `u` on. */
  function TransposeFrom(adj: seq<seq<int>>, u: int, rev: seq<seq<int>>): (res: seq<seq<int>>)
    requires WellFormed(adj) && |rev| == |adj| && 0 <= u <= |adj|
    ensures |res| == |adj|
    ensures forall v, x {:trigger x in res[v]} :: 0 <= v < |adj| ==> (x in res[v] <==> x in rev[v] || (u <= x < |adj| && v in adj[x]))
    decreases |adj| - u
  {
    if u == |adj| then rev
    else
      var rev1 := AppendTo(rev, adj[u], u);
      var res := TransposeFrom(adj, u + 1, rev1);
      res
  }

  /** `revAdj`: `x` is listed for `v` exactly when `v` is listed for `x`. */
  function Transpose(adj: seq<seq<int>>): (rev: seq<seq<int>>)
    requires WellFormed(adj)
    ensures |rev| == |adj| && WellFormed(rev)
    ensures forall v, x {:trigger x in rev[v]} :: 0 <= v < |adj| ==> (x in rev[v] <==> 0 <= x < |adj| && v in adj[x])
  {
    var empty := seq(|adj|, _ => []);
    var rev := TransposeFrom(adj, 0, empty);
    assert forall v, x :: 0 <= v < |adj| ==> x !in empty[v];
    assert WellFormed(rev) by {
      forall v, k | 0 <= v < |rev| && 0 <= k < |rev[v]| ensures 0 <= rev[v][k] < |rev| {
        assert rev[v][k] in rev[v];
      }
    }
    rev
  }

  /** The reversed lists are well formed and each reverses the other. */
  lemma TransposeConverse(adj: seq<seq<int>>)
    requires WellFormed(adj)
    ensures Converse(adj, Transpose(adj)) && Converse(Transpose(adj), adj)
  {
    var rev := Transpose(adj);
    forall v, k | 0 <= v < |rev| && 0 <= k < |rev[v]| ensures 0 <= rev[v][k] < |adj| && v in adj[rev[v][k]] {
      assert rev[v][k] in rev[v];
    }
    forall u, k | 0 <= u < |adj| && 0 <= k < |adj[u]| ensures u in rev[adj[u][k]] {
      assert adj[u][k] in adj[u];
    }
  }

  /** The components found so far and the second search's state. */
  datatype Pass = Pass(comps: seq<seq<int>>, st: Dfs)

  /** `while (!order.empty())`: pop `v`; if unvisited, `dfs2` from it
      collects a new component, in the order `dfs2` pushes vertices. */
  function Collect(rev: seq<seq<int>>, order: seq<int>, st: Dfs): (res: Pass)
    requires WellFormed(rev) && forall i :: 0 <= i < |order| ==> 0 <= order[i] < |rev|
    ensures Extends(st, res.st)
    ensures Flatten(res.comps) == res.st.pre[|st.pre|..]
    ensures forall i :: 0 <= i < |order| ==> order[i] in res.st.visited
    ensures forall i :: 0 <= i < |res.comps| ==> |res.comps[i]| > 0
    decreases |order|
  {
    if |order| == 0 then
      ExtendsRefl(st);
      Pass([], st)
    else
      assert forall i :: 1 <= i < |order| ==> order[i] == order[1..][i - 1];
      if order[0] in st.visited then
        Collect(rev, order[1..], st)
      else
        var r := Visit(rev, order[0], st);
        var rest := Collect(rev, order[1..], r);
        var d := r.pre[|st.pre|..];
        Chain(st, r, rest.st);
        FlattenCons(d, rest.comps);
        Pass([d] + rest.comps, rest.st)
  }

  lemma Chain(st: Dfs, r: Dfs, fin: Dfs)
    requires Extends(st, r) && Extends(r, fin)
    ensures Extends(st, fin)
    ensures fin.pre[|st.pre|..] == r.pre[|st.pre|..] + fin.pre[|r.pre|..]
  {
    ExtendsTrans(st, r, fin);
  }

  lemma FlattenCons<T>(d: seq<T>, rest: seq<seq<T>>)
    ensures Flatten([d] + rest) == d + Flatten(rest)
  {
    assert ([d] + rest)[1..] == rest;
  }

  /** `0, 1, ..., n - 1`: the first pass's loop over the vertices. */
  function Vertices(n: nat): (ids: seq<int>)
    ensures |ids| == n && forall i :: 0 <= i < n ==> ids[i] == i
  {
    seq(n, i => i)
  }

  /** The stack after the first pass, top first: every vertex in reverse
      finishing order. */
  function FinishOrder(g: Graph): (order: seq<int>)
    requires Shaped(g) && NeighboursInRange(g)
    ensures forall x :: x in order <==> 0 <= x < |g.adj|
    ensures forall i :: 0 <= i < |order| ==> 0 <= order[i] < |g.adj|
  {
    var first := VisitAll(g.adj, Vertices(|g.adj|), Start);
    FirstPassPost(g.adj, first);
    ReverseMembers(first.post);
    Reverse(first.post)
  }

  /** The first pass finishes every vertex. */
  lemma FirstPassPost(adj: seq<seq<int>>, first: Dfs)
    requires WellFormed(adj) && first == VisitAll(adj, Vertices(|adj|), Start)
    ensures forall x :: x in first.post <==> 0 <= x < |adj|
  {
    var ids := Vertices(|adj|);
    assert first.post[|Start.post|..] == first.post;
    assert Extends(Start, first);
    assert first.visited <= Range(|adj|);
    forall x ensures x in first.post <==> 0 <= x < |adj| {
      assert x in first.post <==> x in first.visited;
      if 0 <= x < |adj| {
        assert ids[x] == x;
      }
    }
  }

  /** Turning a sequence round keeps its members. */
  lemma ReverseMembers(s: seq<int>)
    ensures forall x :: x in Reverse(s) <==> x in s
    ensures forall i :: 0 <= i < |s| ==> Reverse(s)[i] in s
  {
    forall x ensures x in Reverse(s) <==> x in s {
      assert x in multiset(Reverse(s)) <==> x in multiset(s);
    }
  }

  /** `findSCCs()`. */
  function FindSccs(g: Graph): (comps: seq<seq<int>>)
    requires Shaped(g) && NeighboursInRange(g)
  {
    Collect(Transpose(g.adj), FinishOrder(g), Start).comps
  }

  // ---------------------------------------------------------------------
  // What the components are.

  /** `findSCCs` lists every vertex once: no component is empty, no vertex
      appears twice, and the vertices listed are exactly the graph's. */
  lemma SccPartition(g: Graph)
    requires Shaped(g) && NeighboursInRange(g)
    ensures forall i :: 0 <= i < |FindSccs(g)| ==> |FindSccs(g)[i]| > 0
    ensures Distinct(Flatten(FindSccs(g)))
    ensures forall x :: x in Flatten(FindSccs(g)) <==> InRange(g, x)
  {
    var order := FinishOrder(g);
    var rev := Transpose(g.adj);
    CollectPartition(rev, order, Collect(rev, order, Start));
  }

  /** Every vertex lies in exactly one component. */
  lemma SccDisjoint(g: Graph)
    requires Shaped(g) && NeighboursInRange(g)
    ensures forall x :: InRange(g, x) ==> exists i :: 0 <= i < |FindSccs(g)| && x in FindSccs(g)[i]
    ensures forall i, j, x :: 0 <= i < |FindSccs(g)| && 0 <= j < |FindSccs(g)| && x in FindSccs(g)[i] && x in FindSccs(g)[j] ==> i == j
  {
    var order := FinishOrder(g);
    var rev := Transpose(g.adj);
    var comps := FindSccs(g);
    CollectPartition(rev, order, Collect(rev, order, Start));
    forall x | InRange(g, x) ensures exists i :: 0 <= i < |comps| && x in comps[i] {
      assert x in Flatten(comps);
    }
  }

  /** The second pass over an order holding every vertex splits the
      vertices into non-empty, disjoint components. */
  lemma CollectPartition(rev: seq<seq<int>>, order: seq<int>, p: Pass)
    requires WellFormed(rev) && forall i :: 0 <= i < |order| ==> 0 <= order[i] < |rev|
    requires forall x :: x in order <==> 0 <= x < |rev|
    requires p == Collect(rev, order, Start)
    ensures forall i :: 0 <= i < |p.comps| ==> |p.comps[i]| > 0
    ensures Distinct(Flatten(p.comps))
    ensures forall x :: x in Flatten(p.comps) <==> 0 <= x < |rev|
    ensures forall x :: x in Flatten(p.comps) ==> exists i :: 0 <= i < |p.comps| && x in p.comps[i]
    ensures forall i, j, x :: 0 <= i < |p.comps| && 0 <= j < |p.comps| && x in p.comps[i] && x in p.comps[j] ==> i == j
  {
    CollectVisitedBound(rev, order, Start);
    assert p.st.pre[0..] == p.st.pre;
    forall x ensures x in Flatten(p.comps) <==> 0 <= x < |rev| {
      if 0 <= x < |rev| {
        var i := IndexOf(order, x);
      }
    }
    FlattenDisjoint(p.comps);
    forall x | x in Flatten(p.comps) ensures exists i :: 0 <= i < |p.comps| && x in p.comps[i] {
      FlattenMember(p.comps, x);
    }
  }

  /** The vertices listed in `s`. */
  ghost function Elems(s: seq<int>): set<int> {
    set x | x in s
  }

  /** A visit from `v` marks only vertices reachable from `v`. */
  lemma VisitReaches(adj: seq<seq<int>>, v: int, st: Dfs)
    requires WellFormed(adj) && 0 <= v < |adj| && v !in st.visited
    ensures forall x :: x in Visit(adj, v, st).visited && x !in st.visited ==> Reachable(adj, v, x)
  {
    forall x | x in Visit(adj, v, st).visited && x !in st.visited ensures Reachable(adj, v, x) {
      forall c | Closed(adj, c) && v in c ensures x in c {
        VisitSound(adj, v, st, c);
      }
    }
  }

  /** Each component's vertices are reachable from its first vertex. */
  ghost predicate RootsReach(adj: seq<seq<int>>, comps: seq<seq<int>>) {
    forall i, x :: 0 <= i < |comps| && x in comps[i] ==> Reachable(adj, comps[i][0], x)
  }

  /** Adding each component in turn to `base` keeps the set closed. */
  ghost predicate PrefixesClosed(adj: seq<seq<int>>, base: set<int>, comps: seq<seq<int>>) {
    forall i :: 0 <= i <= |comps| ==> Closed(adj, base + Elems(Flatten(comps[..i])))
  }

  lemma RootsReachCons(adj: seq<seq<int>>, d: seq<int>, rest: seq<seq<int>>)
    requires |d| > 0 && forall x :: x in d ==> Reachable(adj, d[0], x)
    requires RootsReach(adj, rest)
    ensures RootsReach(adj, [d] + rest)
  {
    var comps := [d] + rest;
    forall i, x | 0 <= i < |comps| && x in comps[i] ensures Reachable(adj, comps[i][0], x) {
      if i > 0 {
        assert comps[i] == rest[i - 1];
      }
    }
  }

  lemma PrefixesClosedCons(adj: seq<seq<int>>, base: set<int>, d: seq<int>, rest: seq<seq<int>>)
    requires Closed(adj, base) && PrefixesClosed(adj, base + Elems(d), rest)
    ensures PrefixesClosed(adj, base, [d] + rest)
  {
    var comps := [d] + rest;
    assert comps[..0] == [];
    forall i | 1 <= i <= |comps| ensures Closed(adj, base + Elems(Flatten(comps[..i]))) {
      assert comps[..i] == [d] + rest[..i - 1];
      FlattenCons(d, rest[..i - 1]);
      assert Elems(Flatten(comps[..i])) == Elems(d) + Elems(Flatten(rest[..i - 1]));
      assert Closed(adj, base + Elems(d) + Elems(Flatten(rest[..i - 1])));
    }
  }

  /** Every vertex of a component is reachable, over the reversed lists,
      from the component's first vertex. */
  lemma {:induction false} CollectReaches(rev: seq<seq<int>>, order: seq<int>, st: Dfs)
    requires WellFormed(rev) && forall i :: 0 <= i < |order| ==> 0 <= order[i] < |rev|
    ensures RootsReach(rev, Collect(rev, order, st).comps)
    decreases |order|, 1
  {
    if |order| > 0 {
      assert forall i :: 1 <= i < |order| ==> order[i] == order[1..][i - 1];
      if order[0] in st.visited {
        CollectSkip(rev, order, st);
        CollectReaches(rev, order[1..], st);
      } else {
        var r := Visit(rev, order[0], st);
        CollectVisit(rev, order, st, r);
        CollectReachesNext(rev, order, st, r);
      }
    }
  }

  lemma {:induction false} CollectReachesNext(rev: seq<seq<int>>, order: seq<int>, st: Dfs, r: Dfs)
    requires WellFormed(rev) && forall i :: 0 <= i < |order| ==> 0 <= order[i] < |rev|
    requires |order| > 0 && order[0] !in st.visited && r == Visit(rev, order[0], st)
    ensures RootsReach(rev, [r.pre[|st.pre|..]] + Collect(rev, order[1..], r).comps)
    decreases |order|, 0
  {
    var d := r.pre[|st.pre|..];
    assert forall i :: 1 <= i < |order| ==> order[i] == order[1..][i - 1];
    CollectReaches(rev, order[1..], r);
    VisitReaches(rev, order[0], st);
    assert forall x :: x in d ==> x in r.visited && x !in st.visited;
    RootsReachCons(rev, d, Collect(rev, order[1..], r).comps);
  }

  /** The second pass marks only vertices of the graph. */
  lemma {:induction false} CollectVisitedBound(rev: seq<seq<int>>, order: seq<int>, st: Dfs)
    requires WellFormed(rev) && forall i :: 0 <= i < |order| ==> 0 <= order[i] < |rev|
    ensures Collect(rev, order, st).st.visited <= st.visited + Range(|rev|)
    decreases |order|
  {
    if |order| > 0 {
      if order[0] in st.visited {
        CollectSkip(rev, order, st);
        CollectVisitedBound(rev, order[1..], st);
      } else {
        var r := Visit(rev, order[0], st);
        CollectVisit(rev, order, st, r);
        CollectVisitedBound(rev, order[1..], r);
      }
    }
  }

  /** A vertex already marked is popped and skipped. */
  lemma CollectSkip(rev: seq<seq<int>>, order: seq<int>, st: Dfs)
    requires WellFormed(rev) && forall i :: 0 <= i < |order| ==> 0 <= order[i] < |rev|
    requires |order| > 0 && order[0] in st.visited
    ensures forall i :: 0 <= i < |order| - 1 ==> 0 <= order[1..][i] < |rev|
    ensures Collect(rev, order, st) == Collect(rev, order[1..], st)
  {
  }

  /** An unmarked vertex starts the next component. */
  lemma CollectVisit(rev: seq<seq<int>>, order: seq<int>, st: Dfs, r: Dfs)
    requires WellFormed(rev) && forall i :: 0 <= i < |order| ==> 0 <= order[i] < |rev|
    requires |order| > 0 && order[0] !in st.visited && r == Visit(rev, order[0], st)
    ensures forall i :: 0 <= i < |order| - 1 ==> 0 <= order[1..][i] < |rev|
    ensures Collect(rev, order, st).comps == [r.pre[|st.pre|..]] + Collect(rev, order[1..], r).comps
    ensures Collect(rev, order, st).st == Collect(rev, order[1..], r).st
  {
    assert forall i :: 1 <= i < |order| ==> order[i] == order[1..][i - 1];
  }

  lemma VisitedElems(st: Dfs, r: Dfs)
    requires Extends(st, r)
    ensures r.visited == st.visited + Elems(r.pre[|st.pre|..])
  {
    var d := r.pre[|st.pre|..];
    forall x ensures x in r.visited <==> x in st.visited + Elems(d) {
      assert x in Elems(d) <==> x in d;
    }
  }

  lemma FinishedIsClosed(adj: seq<seq<int>>, st: Dfs)
    requires FinishedClosed(adj, st, {})
    ensures Closed(adj, st.visited)
  {
  }

  /** After each component the marked set is closed over the reversed
      lists, given that it was closed at the start. */
  lemma {:induction false} CollectClosed(rev: seq<seq<int>>, order: seq<int>, st: Dfs)
    requires WellFormed(rev) && forall i :: 0 <= i < |order| ==> 0 <= order[i] < |rev|
    requires FinishedClosed(rev, st, {})
    ensures PrefixesClosed(rev, st.visited, Collect(rev, order, st).comps)
    decreases |order|
  {
    if |order| == 0 {
      FinishedIsClosed(rev, st);
      assert Elems(Flatten([])) == {};
      assert st.visited + Elems(Flatten(Collect(rev, order, st).comps[..0])) == st.visited;
    } else {
      assert forall i :: 1 <= i < |order| ==> order[i] == order[1..][i - 1];
      if order[0] in st.visited {
        CollectSkip(rev, order, st);
        CollectClosed(rev, order[1..], st);
      } else {
        var r := Visit(rev, order[0], st);
        var d := r.pre[|st.pre|..];
        var rest := Collect(rev, order[1..], r).comps;
        CollectVisit(rev, order, st, r);
        VisitComplete(rev, order[0], st, {});
        CollectClosed(rev, order[1..], r);
        VisitedElems(st, r);
        FinishedIsClosed(rev, st);
        PrefixesClosedCons(rev, st.visited, d, rest);
      }
    }
  }

  /** Every vertex of a component reaches the component's first vertex. */
  lemma SccMembersReachRoot(g: Graph)
    requires Shaped(g) && NeighboursInRange(g)
    ensures var comps := FindSccs(g);
      forall i, x :: 0 <= i < |comps| && x in comps[i] ==> Reachable(g.adj, x, comps[i][0])
  {
    var rev := Transpose(g.adj);
    var comps := FindSccs(g);
    CollectReaches(rev, FinishOrder(g), Start);
    TransposeConverse(g.adj);
    SccPartition(g);
    forall i, x | 0 <= i < |comps| && x in comps[i] ensures Reachable(g.adj, x, comps[i][0]) {
      assert Reachable(rev, comps[i][0], x);
      assert 0 <= comps[i][0] < |rev| by {
        assert comps[i][0] in comps[i];
        FlattenMember(comps, comps[i][0]);
      }
      ReachableConverse(g.adj, rev, comps[i][0], x);
    }
  }

  /** Vertices that reach each other end up in the same component. */
  lemma SccKeepsCyclesTogether(g: Graph, u: int, v: int, i: int, j: int)
    requires Shaped(g) && NeighboursInRange(g)
    requires 0 <= i < |FindSccs(g)| && 0 <= j < |FindSccs(g)|
    requires u in FindSccs(g)[i] && v in FindSccs(g)[j]
    requires Reachable(g.adj, u, v) && Reachable(g.adj, v, u)
    ensures i == j
  {
    LaterReachesEarlier(g, u, v, i, j);
    LaterReachesEarlier(g, v, u, j, i);
  }

  /** A vertex of the first `j + 1` components lies in one of them. */
  lemma InPrefix(comps: seq<seq<int>>, j: int, u: int) returns (k: int)
    requires 0 <= j < |comps| && u in Elems(Flatten(comps[..j + 1]))
    ensures 0 <= k <= j && u in comps[k]
  {
    FlattenMember(comps[..j + 1], u);
    k :| 0 <= k < j + 1 && u in comps[..j + 1][k];
  }

  /** The first `j + 1` components, as a set, are closed over the reversed lists. */
  lemma PrefixClosed(g: Graph, j: int)
    requires Shaped(g) && NeighboursInRange(g) && 0 <= j < |FindSccs(g)|
    ensures Closed(Transpose(g.adj), Elems(Flatten(FindSccs(g)[..j + 1])))
  {
    var rev := Transpose(g.adj);
    var order := FinishOrder(g);
    CollectPrefixClosed(rev, order, Collect(rev, order, Start), j);
  }

  lemma CollectPrefixClosed(rev: seq<seq<int>>, order: seq<int>, p: Pass, j: int)
    requires WellFormed(rev) && forall i :: 0 <= i < |order| ==> 0 <= order[i] < |rev|
    requires p == Collect(rev, order, Start) && 0 <= j < |p.comps|
    ensures Closed(rev, Elems(Flatten(p.comps[..j + 1])))
  {
    var s := Elems(Flatten(p.comps[..j + 1]));
    assert Start.visited + s == s;
    CollectClosed(rev, order, Start);
  }

  /** If `u` reaches `v`, the component of `u` comes no later than the
      component of `v`: the marked set stays closed over the reversed lists. */
  lemma LaterReachesEarlier(g: Graph, u: int, v: int, i: int, j: int)
    requires Shaped(g) && NeighboursInRange(g)
    requires 0 <= i < |FindSccs(g)| && 0 <= j < |FindSccs(g)|
    requires u in FindSccs(g)[i] && v in FindSccs(g)[j]
    requires Reachable(g.adj, u, v)
    ensures i <= j
  {
    var rev := Transpose(g.adj);
    var comps := FindSccs(g);
    var s := Elems(Flatten(comps[..j + 1]));
    PrefixClosed(g, j);
    assert v in s by {
      assert comps[..j + 1][j] == comps[j];
      FlattenMember(comps[..j + 1], v);
    }
    assert 0 <= u < |g.adj| by {
      SccPartition(g);
      FlattenMember(comps, u);
    }
    assert Reachable(rev, v, u) by {
      TransposeConverse(g.adj);
      ReachableConverse(rev, g.adj, u, v);
    }
    var k := InPrefix(comps, j, u);
    SccDisjoint(g);
  }

  /** A graph whose vertices all reach each other has one component,
      holding every vertex. */
  lemma OneComponent(g: Graph)
    requires Shaped(g) && NeighboursInRange(g)
    requires forall u, v :: InRange(g, u) && InRange(g, v) ==> Reachable(g.adj, u, v)
    requires g.numVertices > 0
    ensures |FindSccs(g)| == 1
    ensures forall v :: v in FindSccs(g)[0] <==> InRange(g, v)
  {
    var comps := FindSccs(g);
    SccPartition(g);
    assert 0 in Flatten(comps);
    assert |comps| > 0;
    assert Flatten(comps) == comps[0] + Flatten(comps[1..]);
    if |comps| > 1 {
      var u := comps[0][0];
      var v := comps[1][0];
      assert v in Flatten(comps) by {
        assert Flatten(comps[1..]) == comps[1] + Flatten(comps[2..]) by {
          assert comps[1..][1..] == comps[2..];
        }
      }
      SccKeepsCyclesTogether(g, u, v, 0, 1);
      assert false;
    }
    assert comps[1..] == [];
  }
}
