/** The request protocol between part9/client.cpp and the servers
    (part9/server.cpp, part8/server.cpp), one `int` at a time: the client's
    `send_request` turns what the user types into `int`s on the socket, and
    the servers' `my_handler` reads them back. A stream that ends early is
    a short read (`read_exact` returning false). */
module Codec {
  import opened Wrappers
  import opened Graphs

  /** What one request asks for. */
  datatype Request =
    | Quit
    | EdgeList(vertices: int, edges: seq<(int, int)>)
    | RandomGraph(size: int, edgeCount: int, seed: int)

  /** The pair `-1 -1` that ends an edge list. */
  predicate IsEnd(e: (int, int)) {
    e.0 == -1 && e.1 == -1
  }

  /** A request the protocol can carry: an edge list cannot hold the pair
      that ends it. */
  predicate Sendable(r: Request) {
    r.EdgeList? ==> forall i :: 0 <= i < |r.edges| ==> !IsEnd(r.edges[i])
  }

  function Pairs(es: seq<(int, int)>): (w: seq<int>)
    ensures |w| == 2 * |es|
    ensures forall i :: 0 <= i < |es| ==> w[2 * i] == es[i].0 && w[2 * i + 1] == es[i].1
  {
    if |es| == 0 then [] else [es[0].0, es[0].1] + Pairs(es[1..])
  }

  /** The `int`s a request puts on the socket: the selector, then for an
      edge list the vertex count and every pair up to and including
      `-1 -1`, for a random graph the vertex count, edge count and seed. */
  function Encode(r: Request): seq<int> {
    match r
    case Quit => [0]
    case EdgeList(v, es) => [1, v] + Pairs(es) + [-1, -1]
    case RandomGraph(v, e, s) => [2, v, e, s]
  }

  /** Several requests one after another on the same connection. */
  function EncodeAll(rs: seq<Request>): seq<int> {
    if |rs| == 0 then [] else Encode(rs[0]) + EncodeAll(rs[1..])
  }

  /** The first request's `int`s come first. */
  lemma EncodeAllCons(rs: seq<Request>, after: seq<int>)
    requires |rs| > 0
    ensures EncodeAll(rs) + after == Encode(rs[0]) + (EncodeAll(rs[1..]) + after)
  {
  }

  // ---------------------------------------------------------------------
  // The client.

  /** What `send_request` did: the `int`s it wrote, what it returned, and
      the console input left. */
  datatype Sent = Sent(wire: seq<int>, more: bool, rest: seq<int>)

  /** The `for (;;)` loop of `send_request` reading pairs from the console
      and writing each, up to and including `-1 -1`. `None` when the
      console input runs out first. */
  function SendPairs(input: seq<int>): (r: Option<(seq<int>, seq<int>)>)
    ensures r.Some? ==> |r.value.1| <= |input| - 2 && r.value.0 + r.value.1 == input
    decreases |input|
  {
    if |input| < 2 then None
    else if input[0] == -1 && input[1] == -1 then Some(([-1, -1], input[2..]))
    else
      match SendPairs(input[2..])
      case None => None
      case Some((w, rest)) =>
        assert input == input[..2] + input[2..];
        Some(([input[0], input[1]] + w, rest))
  }

  /** `send_request` over the numbers typed on the console: read a
      selector, read again while it lies outside [0, 2], write it, then
      read and write what it asks for. `None` when the input runs out. */
  function SendRequest(input: seq<int>): (r: Option<Sent>)
    ensures r.Some? ==> |r.value.wire| > 0 && 0 <= r.value.wire[0] <= 2
    ensures r.Some? ==> (r.value.more <==> r.value.wire[0] != 0)
    ensures r.Some? ==> |r.value.rest| < |input| && r.value.rest == input[|input| - |r.value.rest|..]
    decreases |input|
  {
    if |input| == 0 then None
    else if input[0] < 0 || input[0] > 2 then SendRequest(input[1..])
    else if input[0] == 0 then Some(Sent([0], false, input[1..]))
    else if input[0] == 1 then
      if |input| < 2 then None
      else
        match SendPairs(input[2..])
        case None => None
        case Some((w, rest)) => Some(Sent([1, input[1]] + w, true, rest))
    else if |input| < 4 then None
    else Some(Sent(input[..4], true, input[4..]))
  }

  /** What the user types for a request is, after any rejected selectors,
      exactly what the client writes. */
  lemma {:induction false} SendRequestWrites(junk: seq<int>, r: Request, rest: seq<int>)
    requires forall i :: 0 <= i < |junk| ==> junk[i] < 0 || junk[i] > 2
    requires Sendable(r)
    ensures SendRequest(junk + Encode(r) + rest) == Some(Sent(Encode(r), !r.Quit?, rest))
    decreases |junk|
  {
    if |junk| > 0 {
      var input := junk + Encode(r) + rest;
      assert input[1..] == junk[1..] + Encode(r) + rest;
      SkipRejected(input);
      SendRequestWrites(junk[1..], r, rest);
    } else {
      assert junk + Encode(r) + rest == Encode(r) + rest;
      SendRequestEncoded(r, rest);
    }
  }

  /** A selector outside [0, 2] is read past. */
  lemma SkipRejected(input: seq<int>)
    requires |input| > 0 && (input[0] < 0 || input[0] > 2)
    ensures SendRequest(input) == SendRequest(input[1..])
  {
  }

  lemma SendRequestEncoded(r: Request, rest: seq<int>)
    requires Sendable(r)
    ensures SendRequest(Encode(r) + rest) == Some(Sent(Encode(r), !r.Quit?, rest))
  {
    var input := Encode(r) + rest;
    match r
    case Quit =>
      assert input[1..] == rest;
    case EdgeList(v, es) =>
      assert input[2..] == Pairs(es) + [-1, -1] + rest;
      SendPairsEdges(es, rest);
      assert Encode(r) == [1, v] + (Pairs(es) + [-1, -1]);
    case RandomGraph(v, e, s) =>
      assert input[..4] == [2, v, e, s];
      assert input[4..] == rest;
  }

  lemma {:induction false} SendPairsEdges(es: seq<(int, int)>, rest: seq<int>)
    requires forall i :: 0 <= i < |es| ==> !IsEnd(es[i])
    ensures SendPairs(Pairs(es) + [-1, -1] + rest) == Some((Pairs(es) + [-1, -1], rest))
    decreases |es|
  {
    var input := Pairs(es) + [-1, -1] + rest;
    if |es| == 0 {
      assert input == [-1, -1] + rest;
      assert input[2..] == rest;
    } else {
      assert !IsEnd(es[0]);
      assert input[..2] == [es[0].0, es[0].1];
      assert input[2..] == Pairs(es[1..]) + [-1, -1] + rest;
      SendPairsEdges(es[1..], rest);
      assert Pairs(es) + [-1, -1] == [es[0].0, es[0].1] + (Pairs(es[1..]) + [-1, -1]);
    }
  }

  // ---------------------------------------------------------------------
  // The servers.

  /** What `my_handler` makes of the front of the stream: a short read, a
      request and the `int`s after it, a selector it does not know, or an
      edge list whose vertex count the `Graph` constructor rejects (a
      negative size for its `vector`), which happens as soon as that count
      has been read. */
  datatype Decoded =
    | Short
    | Got(request: Request, rest: seq<int>)
    | Unknown(selector: int)
    | NegativeVertices(vertices: int)

  /** The edge loop of `my_handler`: read two `int`s, stop on `-1 -1`,
      otherwise keep the pair. `None` on a short read. */
  function ReadPairs(ws: seq<int>): (r: Option<(seq<(int, int)>, seq<int>)>)
    ensures r.Some? ==> forall i :: 0 <= i < |r.value.0| ==> !IsEnd(r.value.0[i])
    ensures r.Some? ==> |r.value.1| <= |ws| - 2 && Pairs(r.value.0) + [-1, -1] + r.value.1 == ws
    decreases |ws|
  {
    if |ws| < 2 then None
    else if ws[0] == -1 && ws[1] == -1 then
      assert ws == [-1, -1] + ws[2..];
      Some(([], ws[2..]))
    else
      match ReadPairs(ws[2..])
      case None => None
      case Some((es, rest)) =>
        assert ws == [ws[0], ws[1]] + ws[2..];
        Some(([(ws[0], ws[1])] + es, rest))
  }

  /** The reads `my_handler` makes for one request. */
  function Decode(ws: seq<int>): (r: Decoded)
    ensures r.Got? ==> Sendable(r.request) && |r.rest| < |ws| && Encode(r.request) + r.rest == ws
    ensures r.Got? ==> r.rest == ws[|ws| - |r.rest|..]
    ensures r.Got? && r.request.EdgeList? ==> r.request.vertices >= 0
    ensures r.Unknown? ==> |ws| > 0 && ws[0] == r.selector && !(0 <= ws[0] <= 2)
  {
    if |ws| == 0 then Short
    else if ws[0] == 1 then DecodeEdges(ws)
    else if ws[0] == 2 then
      if |ws| < 4 then Short
      else
        assert ws == ws[..4] + ws[4..];
        Got(RandomGraph(ws[1], ws[2], ws[3]), ws[4..])
    else if ws[0] == 0 then
      assert ws == [0] + ws[1..];
      Got(Quit, ws[1..])
    else Unknown(ws[0])
  }

  /** Selector 1: the vertex count, then the edge loop. */
  function DecodeEdges(ws: seq<int>): (r: Decoded)
    requires |ws| > 0 && ws[0] == 1
    ensures r.Got? ==> r.request.EdgeList? && r.request.vertices >= 0
    ensures r.Got? ==> Sendable(r.request) && |r.rest| < |ws| && Encode(r.request) + r.rest == ws
    ensures r.Got? ==> r.rest == ws[|ws| - |r.rest|..]
    ensures !r.Unknown?
  {
    if |ws| < 2 then Short
    else if ws[1] < 0 then NegativeVertices(ws[1])
    else
      match ReadPairs(ws[2..])
      case None => Short
      case Some((es, rest)) =>
        assert ws == [1, ws[1]] + ws[2..];
        assert Encode(EdgeList(ws[1], es)) == [1, ws[1]] + Pairs(es) + [-1, -1];
        Got(EdgeList(ws[1], es), rest)
  }

  /** The headline round trip: what the client writes for a request is
      read back by the server as the same request, vertex count and edge
      list included, leaving whatever follows untouched. */
  lemma DecodeEncode(r: Request, rest: seq<int>)
    requires Sendable(r) && (r.EdgeList? ==> r.vertices >= 0)
    ensures Decode(Encode(r) + rest) == Got(r, rest)
  {
    match r
    case Quit =>
      assert (Encode(r) + rest)[1..] == rest;
    case EdgeList(v, es) =>
      DecodeEncodeEdges(v, es, rest);
    case RandomGraph(v, e, s) =>
      assert (Encode(r) + rest)[4..] == rest;
  }

  lemma DecodeEncodeEdges(v: int, es: seq<(int, int)>, rest: seq<int>)
    requires Sendable(EdgeList(v, es)) && v >= 0
    ensures Decode(Encode(EdgeList(v, es)) + rest) == Got(EdgeList(v, es), rest)
  {
    var ws := [1, v] + Pairs(es) + [-1, -1] + rest;
    assert Encode(EdgeList(v, es)) + rest == ws;
    assert ws[2..] == Pairs(es) + [-1, -1] + rest;
    ReadPairsEdges(es, rest);
  }

  lemma {:induction false} ReadPairsEdges(es: seq<(int, int)>, rest: seq<int>)
    requires forall i :: 0 <= i < |es| ==> !IsEnd(es[i])
    ensures ReadPairs(Pairs(es) + [-1, -1] + rest) == Some((es, rest))
    decreases |es|
  {
    var ws := Pairs(es) + [-1, -1] + rest;
    if |es| == 0 {
      assert ws == [-1, -1] + rest;
      assert ws[2..] == rest;
    } else {
      assert !IsEnd(es[0]);
      assert ws[..2] == [es[0].0, es[0].1];
      assert ws[2..] == Pairs(es[1..]) + [-1, -1] + rest;
      ReadPairsEdges(es[1..], rest);
      assert [es[0]] + es[1..] == es;
    }
  }

  /** A stream cut anywhere inside a request is a short read: the server
      never acts on part of a request. */
  lemma DecodeCut(r: Request, k: int)
    requires Sendable(r) && (r.EdgeList? ==> r.vertices >= 0)
    requires 0 <= k < |Encode(r)|
    ensures Decode(Encode(r)[..k]) == Short
  {
    var ws := Encode(r)[..k];
    if k > 0 && r.EdgeList? && k > 2 {
      ReadPairsCut(r.edges, k - 2);
      assert ws[2..] == (Pairs(r.edges) + [-1, -1])[..k - 2];
    }
  }

  lemma {:induction false} ReadPairsCut(es: seq<(int, int)>, k: int)
    requires forall i :: 0 <= i < |es| ==> !IsEnd(es[i])
    requires 0 <= k < |Pairs(es) + [-1, -1]|
    ensures ReadPairs((Pairs(es) + [-1, -1])[..k]) == None
    decreases |es|
  {
    var ws := (Pairs(es) + [-1, -1])[..k];
    if k >= 2 && |es| > 0 {
      assert !IsEnd(es[0]);
      assert ws[2..] == (Pairs(es[1..]) + [-1, -1])[..k - 2];
      ReadPairsCut(es[1..], k - 2);
    }
  }

  /** The graph `my_handler` builds for an edge list: directed, with the
      given number of vertices, each pair added in turn; `addEdge` skips
      pairs out of range. */
  function BuildGraph(n: nat, es: seq<(int, int)>): (g: Graph)
    ensures Valid(g) && g.directed && g.numVertices == n
    decreases |es|
  {
    if |es| == 0 then New(n, true)
    else
      var h := BuildGraph(n, es[..|es| - 1]);
      AddEdgeKeepsValid(h, es[|es| - 1].0, es[|es| - 1].1);
      AddEdge(h, es[|es| - 1].0, es[|es| - 1].1)
  }

  /** The heads of the pairs leaving `u` whose ends are both in range, in
      list order. */
  function Heads(es: seq<(int, int)>, u: int, n: int): seq<int>
    decreases |es|
  {
    if |es| == 0 then []
    else
      var e := es[|es| - 1];
      Heads(es[..|es| - 1], u, n) + (if e.0 == u && 0 <= e.0 < n && 0 <= e.1 < n then [e.1] else [])
  }

  /** The graph built from an edge list stores, for each vertex, the heads
      of its in-range pairs in the order they were sent. */
  lemma {:induction false} BuildGraphLists(n: nat, es: seq<(int, int)>, u: int)
    requires 0 <= u < n
    ensures BuildGraph(n, es).adj[u] == Heads(es, u, n)
    decreases |es|
  {
    if |es| > 0 {
      var pre := es[..|es| - 1];
      BuildGraphLists(n, pre, u);
    }
  }
}
