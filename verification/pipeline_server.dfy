/** `my_handler` in part9/server.cpp: read one request, run the graph it
    asks for through a fresh pipeline (`start`, `submit`, `get`, `stop`)
    and write `to_string` of the result. The socket is the sequence of
    `int`s the client wrote; `Wire.ReadIntWritten` relates it to the bytes. */
module PipelineServer {
  import opened Wrappers
  import opened Graphs
  import opened Codec
  import opened Handling
  import Pipeline
  import Text
  import Client
  import Wire
  import RandGraph

  /** A fresh pipeline's answer for one graph, as the handler asks for it. */
  function RunPipeline(g: Graph): Option<Pipeline.Result>
    requires Pipeline.Supported(g)
  {
    var p := Pipeline.Submit(Pipeline.Started(), g);
    var got := Pipeline.Get(p);
    var stopped := Pipeline.Stop(got.1);
    got.0
  }

  /** The handler after a graph was built. `get()` never returns without a
      job, which the `None` case stands for. */
  function Serve(g: Graph, rest: seq<int>): (h: Handled)
    requires Pipeline.Supported(g)
    ensures h.Replied? ==> h.rest == rest && Text.Delimited(h.text)
  {
    match RunPipeline(g)
    case None => OutsideModel
    case Some(res) =>
      Text.ToStringDelimited(res);
      Replied(Text.ToString(res), rest)
  }

  /** The handler replies with every algorithm's result on the graph. */
  lemma ServeFull(g: Graph, rest: seq<int>)
    requires Pipeline.Supported(g)
    ensures Serve(g, rest) == Replied(Text.ToString(Pipeline.Full(g)), rest)
  {
    Pipeline.ServeOne(g);
  }

  /** `my_handler(fd)` on the `int`s still to come. A reply is one text
      ending in its only brace, and the request it answers is taken off the
      front of the stream. */
  function Handle(ws: seq<int>, rand: int -> seq<nat>): (h: Handled)
    ensures h.Replied? ==> |h.rest| < |ws| && h.rest == ws[|ws| - |h.rest|..]
    ensures h.Replied? ==> Text.Delimited(h.text)
    ensures h.Stopped? ==> |ws| > 0 && ws[0] == 0
  {
    match Decode(ws)
    case Short => ShortRead
    case Unknown(c) => Thrown(UnknownCommand(c))
    case NegativeVertices(_) => Thrown(NegativeSize)
    case Got(r, rest) =>
      if r.Quit? then Stopped(rest)
      else
        assert ws[|ws| - |rest|..] == rest;
        match TargetOf(r, rand)
        case Throws(e) => Thrown(e)
        case NoGraph => OutsideModel
        case Target(g) =>
          if !Pipeline.Supported(g) then OutsideModel
          else Serve(g, rest)
  }

  /** Selector 0 ends the connection with no output. */
  lemma HandleQuit(rest: seq<int>, rand: int -> seq<nat>)
    ensures Handle(Encode(Quit) + rest, rand) == Stopped(rest)
  {
    DecodeEncode(Quit, rest);
  }

  /** A selector other than 0, 1 and 2 throws before anything is read or
      written. */
  lemma HandleUnknown(ws: seq<int>, rand: int -> seq<nat>)
    requires |ws| > 0 && !(0 <= ws[0] <= 2)
    ensures Handle(ws, rand) == Thrown(UnknownCommand(ws[0]))
  {
  }

  /** A stream that ends inside a request is a short read: no reply. */
  lemma HandleTruncated(r: Request, k: int, rand: int -> seq<nat>)
    requires Sendable(r) && (r.EdgeList? ==> r.vertices >= 0)
    requires 0 <= k < |Encode(r)|
    ensures Handle(Encode(r)[..k], rand) == ShortRead
  {
    DecodeCut(r, k);
  }

  /** An edge list is answered with every algorithm's result on the
      directed graph it describes. */
  lemma HandleEdgeList(v: int, es: seq<(int, int)>, rest: seq<int>, rand: int -> seq<nat>)
    requires Sendable(EdgeList(v, es)) && v >= 0
    requires Pipeline.Supported(BuildGraph(v, es))
    ensures Handle(Encode(EdgeList(v, es)) + rest, rand) == Replied(Text.ToString(Pipeline.Full(BuildGraph(v, es))), rest)
  {
    DecodeEncode(EdgeList(v, es), rest);
    ServeFull(BuildGraph(v, es), rest);
  }

  /** A random-graph request reads vertices, edges and seed, in that
      order; more edges than vertex pairs throw. */
  lemma HandleTooManyEdges(v: int, e: int, s: int, rest: seq<int>, rand: int -> seq<nat>)
    requires e > v * (v - 1) / 2
    ensures Handle(Encode(RandomGraph(v, e, s)) + rest, rand) == Thrown(TooManyEdges)
  {
    DecodeEncode(RandomGraph(v, e, s), rest);
  }

  /** A request for a graph the servers' algorithms are defined on is
      served on that graph. */
  lemma HandleTarget(r: Request, rest: seq<int>, rand: int -> seq<nat>, g: Graph)
    requires Sendable(r) && !r.Quit? && (r.EdgeList? ==> r.vertices >= 0)
    requires TargetOf(r, rand) == Target(g) && Pipeline.Supported(g)
    ensures Handle(Encode(r) + rest, rand) == Serve(g, rest)
  {
    DecodeEncode(r, rest);
  }

  /** A random-graph request is answered on the graph `buildRandGraph`
      draws with the request's seed. */
  lemma HandleRandomGraph(v: int, e: int, s: int, rest: seq<int>, rand: int -> seq<nat>)
    requires RandGraph.BuildRandGraph(e, v, rand(s)).Built?
    requires Pipeline.Supported(RandGraph.BuildRandGraph(e, v, rand(s)).graph)
    ensures Handle(Encode(RandomGraph(v, e, s)) + rest, rand)
      == Replied(Text.ToString(Pipeline.Full(RandGraph.BuildRandGraph(e, v, rand(s)).graph)), rest)
  {
    var g := RandGraph.BuildRandGraph(e, v, rand(s)).graph;
    assert TargetOf(RandomGraph(v, e, s), rand) == Target(g);
    HandleTarget(RandomGraph(v, e, s), rest, rand, g);
    ServeFull(g, rest);
  }

  /** Client and server together: what the user types for a graph is sent
      as is, the server answers with every algorithm's result, and however
      the reply is cut into reads the client's text shows the MST weight,
      the number of cliques, each component and the maximum flow. */
  lemma EndToEnd(junk: seq<int>, v: int, es: seq<(int, int)>, more: seq<int>, later: seq<int>,
                 rand: int -> seq<nat>, rs: seq<Wire.Read<char>>, after: seq<char>)
    requires forall i :: 0 <= i < |junk| ==> junk[i] < 0 || junk[i] > 2
    requires Sendable(EdgeList(v, es)) && v >= 0
    requires Pipeline.Supported(BuildGraph(v, es))
    requires Wire.Delivered(rs) == Text.ToString(Pipeline.Full(BuildGraph(v, es))) + after
    ensures SendRequest(junk + Encode(EdgeList(v, es)) + more) == Some(Sent(Encode(EdgeList(v, es)), true, more))
    ensures Handle(Encode(EdgeList(v, es)) + later, rand) == Replied(Text.ToString(Pipeline.Full(BuildGraph(v, es))), later)
    ensures var res := Pipeline.Full(BuildGraph(v, es));
      var c := Client.RecvUntilDelim(rs, '}', [], []);
      var ls := Text.Split(c.out, '\n');
      && c.ok && |ls| == 8 + |res.sccs|
      && Text.ParseInt(ls[2]) == Some(res.mstWeight)
      && Text.ParseInt(ls[4]) == Some(res.numCliques)
      && (forall i :: 0 <= i < |res.sccs| ==> Text.ParseComponent(ls[6 + i]) == Some(res.sccs[i]))
      && Text.ParseInt(ls[|ls| - 1]) == Some(res.maxFlow)
  {
    var g := BuildGraph(v, es);
    SendRequestWrites(junk, EdgeList(v, es), more);
    HandleEdgeList(v, es, later, rand);
    Client.ReceiveReply(rs, Pipeline.Full(g), after, []);
    Text.ReplyReadBack(Pipeline.Full(g));
  }
}
