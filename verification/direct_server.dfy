/** `my_handler` in part8/server.cpp: serve requests on one connection
    until selector 0 or a short read, answering each graph with
    `run_all_algorithms`, which runs the four algorithms directly (maximum
    flow from vertex 0 to vertex `n - 1`). */
module DirectServer {
  import opened Graphs
  import opened Codec
  import opened Handling
  import Pipeline
  import Text

  /** `run_all_algorithms(g)`: the adjacency lists and the four results. */
  function Answer(g: Graph): (t: seq<char>)
    requires Pipeline.Supported(g)
    ensures Text.Delimited(t)
  {
    Text.AllTextDelimited(g, Pipeline.Full(g));
    Text.AllText(g, Pipeline.Full(g))
  }

  /** One pass of the loop body: read a request and answer it. */
  function Handle(ws: seq<int>, rand: int -> seq<nat>): (h: Handled)
    ensures h.Replied? ==> |h.rest| < |ws| && h.rest == ws[|ws| - |h.rest|..]
    ensures h.Replied? ==> Text.Delimited(h.text)
    ensures h.Stopped? ==> |ws| > 0 && ws[0] == 0
  {
    match Decode(ws)
    case Short => ShortRead
    case Unknown(c) => Thrown(UnknownCommand(c))
    case NegativeVertices(_) => Thrown(NegativeSize)
    case Got(r, rest) =>
      if r.Quit? then Stopped(rest)
      else Respond(TargetOf(r, rand), rest)
  }

  /** The answer to a graph request, or the reason there is none. */
  function Respond(t: Target, rest: seq<int>): (h: Handled)
    ensures h.Replied? ==> h.rest == rest && Text.Delimited(h.text)
    ensures h.Replied? <==> t.Target? && Pipeline.Supported(t.graph)
    ensures t.Throws? ==> h == Thrown(t.error)
  {
    match t
    case Throws(e) => Thrown(e)
    case NoGraph => OutsideModel
    case Target(g) => if Pipeline.Supported(g) then Replied(Answer(g), rest) else OutsideModel
  }

  /** The replies written on a connection and how the handler ended. */
  datatype Session = Session(replies: seq<seq<char>>, end: Handled)

  /** The `while (true)` loop of `my_handler`: answer requests until one
      does not end in a reply. */
  function Run(ws: seq<int>, rand: int -> seq<nat>): (s: Session)
    ensures !s.end.Replied?
    decreases |ws|
  {
    var h := Handle(ws, rand);
    if h.Replied? then
      var t := Run(h.rest, rand);
      Session([h.text] + t.replies, t.end)
    else Session([], h)
  }

  /** Every reply the loop writes ends in its only brace, so the client
      can cut the stream into replies. */
  lemma {:induction false} RunDelimited(ws: seq<int>, rand: int -> seq<nat>)
    ensures forall i :: 0 <= i < |Run(ws, rand).replies| ==> Text.Delimited(Run(ws, rand).replies[i])
    decreases |ws|
  {
    var h := Handle(ws, rand);
    if h.Replied? {
      assert Text.Delimited(h.text);
      var t := Run(h.rest, rand);
      assert Run(ws, rand).replies == [h.text] + t.replies;
      RunDelimited(h.rest, rand);
      ConsDelimited(h.text, t.replies);
    }
  }

  lemma ConsDelimited(x: seq<char>, ts: seq<seq<char>>)
    requires Text.Delimited(x) && forall i :: 0 <= i < |ts| ==> Text.Delimited(ts[i])
    ensures forall i :: 0 <= i < |[x] + ts| ==> Text.Delimited(([x] + ts)[i])
  {
    forall i | 0 <= i < |[x] + ts|
      ensures Text.Delimited(([x] + ts)[i])
    {
      if i > 0 {
        assert ([x] + ts)[i] == ts[i - 1];
      }
    }
  }

  /** A request the handler answers: well formed, not a stop, and asking
      for a graph the algorithms are defined on. */
  predicate Served(r: Request, rand: int -> seq<nat>) {
    && Sendable(r) && !r.Quit? && (r.EdgeList? ==> r.vertices >= 0)
    && TargetOf(r, rand).Target? && Pipeline.Supported(TargetOf(r, rand).graph)
  }

  /** The answers to answered requests, in order. */
  function Answers(reqs: seq<Request>, rand: int -> seq<nat>): (ts: seq<seq<char>>)
    requires forall i :: 0 <= i < |reqs| ==> Served(reqs[i], rand)
    ensures |ts| == |reqs|
  {
    if |reqs| == 0 then []
    else
      assert Served(reqs[0], rand);
      [Answer(TargetOf(reqs[0], rand).graph)] + Answers(reqs[1..], rand)
  }

  /** An answered request is answered on the graph it asks for, and the
      loop goes on with what follows it. */
  lemma HandleServed(r: Request, rest: seq<int>, rand: int -> seq<nat>)
    requires Served(r, rand)
    ensures Handle(Encode(r) + rest, rand) == Replied(Answer(TargetOf(r, rand).graph), rest)
  {
    DecodeEncode(r, rest);
  }

  /** The loop answers an answered request and goes on with the rest. */
  lemma RunStep(r: Request, rest: seq<int>, rand: int -> seq<nat>)
    requires Served(r, rand)
    ensures Run(Encode(r) + rest, rand).replies == [Answer(TargetOf(r, rand).graph)] + Run(rest, rand).replies
    ensures Run(Encode(r) + rest, rand).end == Run(rest, rand).end
  {
    HandleServed(r, rest, rand);
  }

  lemma AnswersCons(reqs: seq<Request>, rand: int -> seq<nat>)
    requires |reqs| > 0 && forall i :: 0 <= i < |reqs| ==> Served(reqs[i], rand)
    ensures Served(reqs[0], rand)
    ensures Answers(reqs, rand) == [Answer(TargetOf(reqs[0], rand).graph)] + Answers(reqs[1..], rand)
  {
    assert Served(reqs[0], rand);
  }

  /** The loop answers the first of several answered requests and goes on
      with the others. */
  lemma RunCons(reqs: seq<Request>, after: seq<int>, rand: int -> seq<nat>)
    requires |reqs| > 0 && forall i :: 0 <= i < |reqs| ==> Served(reqs[i], rand)
    ensures Served(reqs[0], rand)
    ensures Run(EncodeAll(reqs) + after, rand).replies
      == [Answer(TargetOf(reqs[0], rand).graph)] + Run(EncodeAll(reqs[1..]) + after, rand).replies
    ensures Run(EncodeAll(reqs) + after, rand).end == Run(EncodeAll(reqs[1..]) + after, rand).end
  {
    EncodeAllCons(reqs, after);
    assert Served(reqs[0], rand);
    RunStep(reqs[0], EncodeAll(reqs[1..]) + after, rand);
  }

  /** Selector 0 stops the loop without a reply. */
  lemma RunQuit(tail: seq<int>, rand: int -> seq<nat>)
    ensures Run(Encode(Quit) + tail, rand) == Session([], Stopped(tail))
  {
    DecodeEncode(Quit, tail);
  }

  /** Answered requests followed by selector 0: one reply per request, in
      request order, then the loop stops without writing. */
  lemma {:induction false} RunServes(reqs: seq<Request>, tail: seq<int>, rand: int -> seq<nat>)
    requires forall i :: 0 <= i < |reqs| ==> Served(reqs[i], rand)
    ensures Run(EncodeAll(reqs) + (Encode(Quit) + tail), rand) == Session(Answers(reqs, rand), Stopped(tail))
    decreases |reqs|
  {
    var after := Encode(Quit) + tail;
    if |reqs| == 0 {
      assert EncodeAll(reqs) + after == after;
      RunQuit(tail, rand);
    } else {
      assert Run(EncodeAll(reqs[1..]) + after, rand) == Session(Answers(reqs[1..], rand), Stopped(tail)) by {
        ServedTail(reqs, rand);
        RunServes(reqs[1..], tail, rand);
      }
      AnswersCons(reqs, rand);
      RunCons(reqs, after, rand);
    }
  }

  lemma ServedTail(reqs: seq<Request>, rand: int -> seq<nat>)
    requires |reqs| > 0 && forall i :: 0 <= i < |reqs| ==> Served(reqs[i], rand)
    ensures forall i :: 0 <= i < |reqs[1..]| ==> Served(reqs[1..][i], rand)
  {
    forall i | 0 <= i < |reqs[1..]|
      ensures Served(reqs[1..][i], rand)
    {
      assert reqs[1..][i] == reqs[i + 1];
    }
  }

  /** Answered requests and then a stream that ends inside the next one:
      the replies to the whole requests, then a short read with nothing
      more written. */
  lemma {:induction false} RunTruncated(reqs: seq<Request>, r: Request, k: int, rand: int -> seq<nat>)
    requires forall i :: 0 <= i < |reqs| ==> Served(reqs[i], rand)
    requires Sendable(r) && (r.EdgeList? ==> r.vertices >= 0) && 0 <= k < |Encode(r)|
    ensures Run(EncodeAll(reqs) + Encode(r)[..k], rand) == Session(Answers(reqs, rand), ShortRead)
    decreases |reqs|
  {
    if |reqs| == 0 {
      assert EncodeAll(reqs) + Encode(r)[..k] == Encode(r)[..k];
      DecodeCut(r, k);
    } else {
      assert Run(EncodeAll(reqs[1..]) + Encode(r)[..k], rand) == Session(Answers(reqs[1..], rand), ShortRead) by {
        ServedTail(reqs, rand);
        RunTruncated(reqs[1..], r, k, rand);
      }
      AnswersCons(reqs, rand);
      RunCons(reqs, Encode(r)[..k], rand);
    }
  }

  /** Answered requests and then an unknown selector: the replies so far,
      then the exception. */
  lemma {:induction false} RunUnknown(reqs: seq<Request>, ws: seq<int>, rand: int -> seq<nat>)
    requires forall i :: 0 <= i < |reqs| ==> Served(reqs[i], rand)
    requires |ws| > 0 && !(0 <= ws[0] <= 2)
    ensures Run(EncodeAll(reqs) + ws, rand) == Session(Answers(reqs, rand), Thrown(UnknownCommand(ws[0])))
    decreases |reqs|
  {
    if |reqs| == 0 {
      assert EncodeAll(reqs) + ws == ws;
    } else {
      assert Run(EncodeAll(reqs[1..]) + ws, rand) == Session(Answers(reqs[1..], rand), Thrown(UnknownCommand(ws[0]))) by {
        ServedTail(reqs, rand);
        RunUnknown(reqs[1..], ws, rand);
      }
      AnswersCons(reqs, rand);
      RunCons(reqs, ws, rand);
    }
  }
}
