/** Depth-first search over adjacency lists, and reachability. The one
    traversal here models `Graph::dfs` (part3), `dfs1` and `dfs2` (part7):
    they differ only in which of the visited set, preorder and postorder
    they keep. */
module Reach {
  import opened Seqs

  /** Every entry of every list indexes a list. */
  predicate WellFormed(adj: seq<seq<int>>) {
    forall u, k :: 0 <= u < |adj| && 0 <= k < |adj[u]| ==> 0 <= adj[u][k] < |adj|
  }

  /** Replacing one list by a list of in-range entries keeps the lists well formed. */
  lemma WellFormedUpdate(adj: seq<seq<int>>, u: int, s: seq<int>)
    requires WellFormed(adj) && 0 <= u < |adj| && forall k :: 0 <= k < |s| ==> 0 <= s[k] < |adj|
    ensures WellFormed(adj[u := s])
  {
  }

  /** A vertex set that no stored edge leaves. */
  ghost predicate Closed(adj: seq<seq<int>>, c: set<int>) {
    forall u, k :: u in c && 0 <= u < |adj| && 0 <= k < |adj[u]| ==> adj[u][k] in c
  }

  /** `t` is reachable from `s`: it lies in every closed set that holds `s`
      (the least such set is the set of endpoints of paths from `s`). */
  ghost predicate Reachable(adj: seq<seq<int>>, s: int, t: int) {
    forall c :: Closed(adj, c) && s in c ==> t in c
  }

  lemma ReachableFromSelf(adj: seq<seq<int>>, s: int)
    ensures Reachable(adj, s, s)
  {
  }

  /** Following one stored edge keeps a vertex reachable. */
  lemma ReachableStep(adj: seq<seq<int>>, s: int, u: int, k: int)
    requires Reachable(adj, s, u) && 0 <= u < |adj| && 0 <= k < |adj[u]|
    ensures Reachable(adj, s, adj[u][k])
  {
    forall c | Closed(adj, c) && s in c
      ensures adj[u][k] in c
    {
      assert u in c;
    }
  }

  lemma ReachableTrans(adj: seq<seq<int>>, s: int, u: int, t: int)
    requires Reachable(adj, s, u) && Reachable(adj, u, t)
    ensures Reachable(adj, s, t)
  {
  }

  /** Every edge stored in `b` is stored reversed in `a`. */
  ghost predicate Converse(a: seq<seq<int>>, b: seq<seq<int>>) {
    forall u, k :: 0 <= u < |b| && 0 <= k < |b[u]| ==> 0 <= b[u][k] < |a| && u in a[b[u][k]]
  }

  /** Every stored edge is stored in both directions. */
  ghost predicate Undirected(adj: seq<seq<int>>) {
    Converse(adj, adj)
  }

  /** When every edge of `b` is an edge of `a` reversed, the vertices
      outside a set closed in `a` form a set closed in `b`. */
  lemma ComplementClosed(a: seq<seq<int>>, b: seq<seq<int>>, c: set<int>)
    requires Converse(a, b) && Closed(a, c) && |a| == |b|
    ensures Closed(b, Range(|b|) - c)
  {
    var d := Range(|b|) - c;
    forall u, k | u in d && 0 <= u < |b| && 0 <= k < |b[u]|
      ensures b[u][k] in d
    {
      var w := b[u][k];
      var j :| 0 <= j < |a[w]| && a[w][j] == u;
      assert w in c ==> u in c;
    }
  }

  /** A path in `b` is a path in `a` walked backwards. */
  lemma ReachableConverse(a: seq<seq<int>>, b: seq<seq<int>>, s: int, t: int)
    requires Converse(a, b) && |a| == |b| && 0 <= s < |b| && Reachable(b, s, t)
    ensures Reachable(a, t, s)
  {
    forall c | Closed(a, c) && t in c
      ensures s in c
    {
      ComplementClosed(a, b, c);
      assert s in Range(|b|) - c ==> t in Range(|b|) - c;
    }
  }

  /** Over edges stored both ways, reachability is symmetric. */
  lemma ReachableSymmetric(adj: seq<seq<int>>, s: int, t: int)
    requires Undirected(adj) && 0 <= s < |adj| && Reachable(adj, s, t)
    ensures Reachable(adj, t, s)
  {
    ReachableConverse(adj, adj, s, t);
  }

  /** Traversal state: the visited set, vertices in discovery order and
      vertices in finishing order. */
  datatype Dfs = Dfs(visited: set<int>, pre: seq<int>, post: seq<int>)

  const Start := Dfs({}, [], [])

  /** `r` continues traversal `st`: the visited set only grows, and the
      vertices `r` added to `pre` and to `post` are exactly the newly visited
      ones, each once. */
  ghost predicate Extends(st: Dfs, r: Dfs) {
    && st.visited <= r.visited && st.pre <= r.pre && st.post <= r.post
    && Distinct(r.pre[|st.pre|..]) && Distinct(r.post[|st.post|..])
    && (forall x :: x in r.pre[|st.pre|..] <==> x in r.visited && x !in st.visited)
    && (forall x :: x in r.post[|st.post|..] <==> x in r.visited && x !in st.visited)
  }

  lemma ExtendsRefl(st: Dfs)
    ensures Extends(st, st)
  {
  }

  lemma ExtendsTrans(a: Dfs, b: Dfs, c: Dfs)
    requires Extends(a, b) && Extends(b, c)
    ensures Extends(a, c)
  {
    assert c.pre[|a.pre|..] == b.pre[|a.pre|..] + c.pre[|b.pre|..];
    assert c.post[|a.post|..] == b.post[|a.post|..] + c.post[|b.post|..];
    DisjointConcat(b.pre[|a.pre|..], c.pre[|b.pre|..]);
    DisjointConcat(b.post[|a.post|..], c.post[|b.post|..]);
  }

  lemma DisjointConcat(a: seq<int>, b: seq<int>)
    requires Distinct(a) && Distinct(b) && forall x :: x in a ==> x !in b
    ensures Distinct(a + b)
  {
    forall i, j | 0 <= i < j < |a + b|
      ensures (a + b)[i] != (a + b)[j]
    {
      if i < |a| && j >= |a| {
        assert (a + b)[i] in a && (a + b)[j] in b;
      }
    }
  }

  /** The recursive visit of `v`: mark it, visit its unvisited neighbours in
      stored order, then record it as finished. */
  function Visit(adj: seq<seq<int>>, v: int, st: Dfs): (r: Dfs)
    requires WellFormed(adj) && 0 <= v < |adj| && v !in st.visited
    ensures v in r.visited && r.visited <= st.visited + Range(|adj|)
    ensures Extends(st, r)
    ensures |r.pre| > |st.pre| && r.pre[|st.pre|] == v
    decreases Range(|adj|) - st.visited, 0
  {
    var st1 := Dfs(st.visited + {v}, st.pre + [v], st.post);
    assert Range(|adj|) - st1.visited < Range(|adj|) - st.visited by {
      assert v in Range(|adj|) - st.visited;
    }
    var st2 := VisitAll(adj, adj[v], st1);
    var r := Dfs(st2.visited, st2.pre, st2.post + [v]);
    assert Extends(st, r) by {
      assert r.pre[|st.pre|..] == [v] + st2.pre[|st1.pre|..];
      assert r.post[|st.post|..] == st2.post[|st1.post|..] + [v];
      DisjointConcat([v], st2.pre[|st1.pre|..]);
      DisjointConcat(st2.post[|st1.post|..], [v]);
    }
    r
  }

  /** The loop `for (u : list) if (!visited[u]) visit(u)`. */
  function VisitAll(adj: seq<seq<int>>, list: seq<int>, st: Dfs): (r: Dfs)
    requires WellFormed(adj) && forall i :: 0 <= i < |list| ==> 0 <= list[i] < |adj|
    ensures r.visited <= st.visited + Range(|adj|)
    ensures forall i :: 0 <= i < |list| ==> list[i] in r.visited
    ensures Extends(st, r)
    decreases Range(|adj|) - st.visited, |list|
  {
    if |list| == 0 then
      ExtendsRefl(st);
      st
    else
      var st1 := if list[0] in st.visited then st else Visit(adj, list[0], st);
      assert Extends(st, st1) by {
        ExtendsRefl(st);
      }
      var r := VisitAll(adj, list[1..], st1);
      ExtendsTrans(st, st1, r);
      assert forall i :: 1 <= i < |list| ==> list[i] == list[1..][i - 1];
      r
  }

  /** A visit from `v` only reaches vertices that every closed set holding
      `v` holds. */
  lemma {:induction false} VisitSound(adj: seq<seq<int>>, v: int, st: Dfs, c: set<int>)
    requires WellFormed(adj) && 0 <= v < |adj| && v !in st.visited
    requires Closed(adj, c) && v in c
    ensures Visit(adj, v, st).visited <= st.visited + c
    decreases Range(|adj|) - st.visited, 0
  {
    var st1 := Dfs(st.visited + {v}, st.pre + [v], st.post);
    assert Range(|adj|) - st1.visited < Range(|adj|) - st.visited by {
      assert v in Range(|adj|) - st.visited;
    }
    VisitAllSound(adj, adj[v], st1, c);
  }

  lemma {:induction false} VisitAllSound(adj: seq<seq<int>>, list: seq<int>, st: Dfs, c: set<int>)
    requires WellFormed(adj) && forall i :: 0 <= i < |list| ==> 0 <= list[i] < |adj|
    requires Closed(adj, c) && forall i :: 0 <= i < |list| ==> list[i] in c
    ensures VisitAll(adj, list, st).visited <= st.visited + c
    decreases Range(|adj|) - st.visited, |list|
  {
    if |list| > 0 {
      var st1 := if list[0] in st.visited then st else Visit(adj, list[0], st);
      if list[0] !in st.visited {
        VisitSound(adj, list[0], st, c);
      }
      assert forall i :: 1 <= i < |list| ==> list[i] == list[1..][i - 1];
      VisitAllSound(adj, list[1..], st1, c);
    }
  }

  /** Every visited vertex outside `anc` (the visits still in progress) has
      all its neighbours visited. */
  ghost predicate FinishedClosed(adj: seq<seq<int>>, st: Dfs, anc: set<int>) {
    forall x, k :: x in st.visited && x !in anc && 0 <= x < |adj| && 0 <= k < |adj[x]| ==>
      adj[x][k] in st.visited
  }

  lemma {:induction false} VisitComplete(adj: seq<seq<int>>, v: int, st: Dfs, anc: set<int>)
    requires WellFormed(adj) && 0 <= v < |adj| && v !in st.visited
    requires FinishedClosed(adj, st, anc)
    ensures FinishedClosed(adj, Visit(adj, v, st), anc)
    decreases Range(|adj|) - st.visited, 0
  {
    var st1 := Dfs(st.visited + {v}, st.pre + [v], st.post);
    assert Range(|adj|) - st1.visited < Range(|adj|) - st.visited by {
      assert v in Range(|adj|) - st.visited;
    }
    VisitAllComplete(adj, adj[v], st1, anc + {v});
  }

  lemma {:induction false} VisitAllComplete(adj: seq<seq<int>>, list: seq<int>, st: Dfs, anc: set<int>)
    requires WellFormed(adj) && forall i :: 0 <= i < |list| ==> 0 <= list[i] < |adj|
    requires FinishedClosed(adj, st, anc)
    ensures FinishedClosed(adj, VisitAll(adj, list, st), anc)
    decreases Range(|adj|) - st.visited, |list|
  {
    if |list| > 0 {
      var st1 := if list[0] in st.visited then st else Visit(adj, list[0], st);
      if list[0] !in st.visited {
        VisitComplete(adj, list[0], st, anc);
      }
      assert forall i :: 1 <= i < |list| ==> list[i] == list[1..][i - 1];
      assert VisitAll(adj, list, st) == VisitAll(adj, list[1..], st1);
      VisitAllComplete(adj, list[1..], st1, anc);
    }
  }

  /** The vertices a search from `s` marks, as `Graph::dfs(s, visited, adj)`
      leaves them in `visited`. */
  function SearchFrom(adj: seq<seq<int>>, s: int): set<int>
    requires WellFormed(adj) && 0 <= s < |adj|
  {
    Visit(adj, s, Start).visited
  }

  /** The search marks exactly the vertices reachable from `s`. */
  lemma SearchFromIsReachable(adj: seq<seq<int>>, s: int)
    requires WellFormed(adj) && 0 <= s < |adj|
    ensures forall x :: x in SearchFrom(adj, s) <==> Reachable(adj, s, x)
  {
    var vis := SearchFrom(adj, s);
    forall c | Closed(adj, c) && s in c
      ensures vis <= c
    {
      VisitSound(adj, s, Start, c);
    }
    VisitComplete(adj, s, Start, {});
    assert Closed(adj, vis);
  }
}
