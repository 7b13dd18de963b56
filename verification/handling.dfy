/** What the two servers' `my_handler` functions (part9/server.cpp,
    part8/server.cpp) have in common: the graph a request asks for and the
    ways a request can end. */
module Handling {
  import opened Graphs
  import opened Codec
  import RandGraph

  /** The exceptions a request can raise: `invalid_argument` for a selector
      the server does not know or for more edges than vertex pairs, and the
      `Graph` constructor's rejection of a negative size. */
  datatype Error = UnknownCommand(selector: int) | TooManyEdges | NegativeSize

  /** How one request ends: the stream ended early (`read_exact` failed),
      selector 0, an exception, a graph outside what the model's
      algorithms are defined on, or a reply written. */
  datatype Handled =
    | ShortRead
    | Stopped(rest: seq<int>)
    | Thrown(error: Error)
    | OutsideModel
    | Replied(text: seq<char>, rest: seq<int>)

  /** The graph a request asks for: built from its edge list, or by
      `buildRandGraph(edges, vertices, seed)` with `rand(seed)` the numbers
      `rand()` returns after `srand(seed)`. `NoGraph` when those numbers run
      out before every edge is drawn. */
  datatype Target = Target(graph: Graph) | Throws(error: Error) | NoGraph

  function TargetOf(r: Request, rand: int -> seq<nat>): (t: Target)
    requires !r.Quit? && (r.EdgeList? ==> r.vertices >= 0)
    ensures r.EdgeList? ==> t.Target? && Valid(t.graph) && t.graph.directed && t.graph.numVertices == r.vertices
    ensures t.Target? && r.RandomGraph? ==> Valid(t.graph) && !t.graph.directed && t.graph.numVertices == r.size
    ensures t.Throws? ==> r.RandomGraph? && (t.error == TooManyEdges <==> r.edgeCount > r.size * (r.size - 1) / 2)
  {
    match r
    case EdgeList(v, es) => Target(BuildGraph(v, es))
    case RandomGraph(v, e, s) =>
      match RandGraph.BuildRandGraph(e, v, rand(s))
      case TooManyEdges => Throws(TooManyEdges)
      case NegativeSize => Throws(NegativeSize)
      case Exhausted => NoGraph
      case Built(g, chosen) =>
        RandGraph.BuiltGraph(e, v, rand(s));
        Target(g)
  }
}
