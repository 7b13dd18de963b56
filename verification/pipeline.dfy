/** `Pipling` (part9/pipling.hpp, pipling.cpp) with its threads replaced by
    explicit steps: five FIFO queues `q1`..`q4`, `qout` (indices 0 to 4),
    and four stages; stage `k` pops from queue `k`, fills one field of the
    job's result and pushes the job to queue `k + 1`. A `nullptr` job is
    `None`, the sentinel that shuts the stages down. Jobs are values, so the
    copy a job keeps of the submitted graph cannot change afterwards. */
module Pipeline {
  import opened Wrappers
  import opened Seqs
  import opened Graphs
  import Mst
  import Cliques
  import Scc
  import MaxFlow

  /** `Pipling::Result`. */
  datatype Result = Result(mstWeight: int, numCliques: int, sccs: seq<seq<int>>, maxFlow: int)

  /** A fresh result: every number is -1 and there are no components yet. */
  const Fresh := Result(-1, -1, [], -1)

  /** `Pipling::Job`: the graph and the result accumulated so far. */
  datatype Job = Job(graph: Graph, result: Result)

  type Queue = seq<Option<Job>>

  // ---------------------------------------------------------------------
  // The queue.

  /** `QueueT::push`. */
  function Push(q: Queue, x: Option<Job>): Queue {
    q + [x]
  }

  /** `QueueT::pop` once the queue is non-empty (the source waits until then). */
  function Pop(q: Queue): (r: (Option<Job>, Queue))
    requires |q| > 0
  {
    (q[0], q[1..])
  }

  /** Pushing and then popping everything gives the items back in push
      order: a push is seen by the pop only after everything before it. */
  lemma PushPop(q: Queue, x: Option<Job>)
    ensures Pop(Push(q, x)) == if |q| == 0 then (x, []) else (q[0], Push(q[1..], x))
  {
    if |q| > 0 {
      assert Push(q, x)[0] == q[0];
      assert Push(q, x)[1..] == Push(q[1..], x);
    } else {
      assert Push(q, x) == [x];
      assert [x][1..] == [];
    }
  }

  // ---------------------------------------------------------------------
  // The stages.

  /** Graphs every stage is defined on: `maxFlow(0, n - 1)` needs two
      distinct vertices, and `countCliques` needs `1 << n` to fit. */
  predicate Supported(g: Graph) {
    Shaped(g) && NeighboursInRange(g) && 2 <= g.numVertices <= 30
  }

  /** The result the pipeline is for: every algorithm run on the graph,
      maximum flow from vertex 0 to vertex `n - 1`. */
  function Full(g: Graph): Result
    requires Supported(g)
  {
    Result(Mst.MstWeight(g), Cliques.CountCliques(g), Scc.FindSccs(g), MaxFlow.MaxFlow(g, 0, g.numVertices - 1))
  }

  /** What stage `k` does to the result of a job on `g`: `stage1` sets
      `mst_weight`, `stage2` `num_cliques`, `stage3` `sccs`, `stage4`
      `max_flow`. */
  function Stage(k: int, g: Graph, res: Result): Result
    requires 0 <= k < 4 && Supported(g)
  {
    if k == 0 then res.(mstWeight := Mst.MstWeight(g))
    else if k == 1 then res.(numCliques := Cliques.CountCliques(g))
    else if k == 2 then res.(sccs := Scc.FindSccs(g))
    else res.(maxFlow := MaxFlow.MaxFlow(g, 0, g.numVertices - 1))
  }

  /** The result of a job that went through the first `k` stages. */
  function Expected(g: Graph, k: int): Result
    requires Supported(g) && 0 <= k <= 4
  {
    if k == 0 then Fresh else Stage(k - 1, g, Expected(g, k - 1))
  }

  /** Through all four stages, a fresh result becomes the full one. */
  lemma ExpectedFull(g: Graph)
    requires Supported(g)
    ensures Expected(g, 4) == Full(g)
  {
    var e3 := Expected(g, 3);
    assert e3 == Result(Mst.MstWeight(g), Cliques.CountCliques(g), Scc.FindSccs(g), -1) by {
      assert Expected(g, 1) == Fresh.(mstWeight := Mst.MstWeight(g));
      assert Expected(g, 2) == Expected(g, 1).(numCliques := Cliques.CountCliques(g));
    }
    assert Expected(g, 4) == Stage(3, g, e3);
  }

  /** Stage `k` changes one field of the result and no other. */
  lemma StageChangesOneField(k: int, g: Graph, res: Result)
    requires 0 <= k < 4 && Supported(g)
    ensures var r := Stage(k, g, res);
      && (k != 0 ==> r.mstWeight == res.mstWeight)
      && (k != 1 ==> r.numCliques == res.numCliques)
      && (k != 2 ==> r.sccs == res.sccs)
      && (k != 3 ==> r.maxFlow == res.maxFlow)
  {
  }

  // ---------------------------------------------------------------------
  // The state machine.

  /** The queues and whether each stage's loop is still running. */
  datatype Pipe = Pipe(queues: seq<Queue>, running: seq<bool>)

  predicate Wired(p: Pipe) {
    |p.queues| == 5 && |p.running| == 4
  }

  /** Every job in `q` can be processed. */
  predicate Jobs(q: Queue) {
    forall i :: 0 <= i < |q| && q[i].Some? ==> Supported(q[i].value.graph)
  }

  /** Every queued job can be processed. */
  predicate Ready(p: Pipe) {
    Wired(p) && forall k :: 0 <= k < 5 ==> Jobs(p.queues[k])
  }

  /** After the constructor and `start()`: empty queues, four running stages. */
  function Started(): (p: Pipe)
    ensures Ready(p)
  {
    Pipe(seq(5, _ => []), seq(4, _ => true))
  }

  /** What stage `k` forwards for one item it pops. */
  function Move(k: int, x: Option<Job>): Option<Job>
    requires 0 <= k < 4 && (x.Some? ==> Supported(x.value.graph))
  {
    match x
    case None => None
    case Some(j) => Some(Job(j.graph, Stage(k, j.graph, j.result)))
  }

  /** One iteration of stage `k`'s loop: pop; forward the sentinel and stop,
      or fill the field and forward the job. */
  function Step(p: Pipe, k: int): (r: Pipe)
    requires Ready(p) && 0 <= k < 4 && p.running[k] && |p.queues[k]| > 0
    ensures Ready(r)
  {
    var (x, rest) := Pop(p.queues[k]);
    assert x.Some? ==> Supported(x.value.graph) by {
      assert Jobs(p.queues[k]);
    }
    var r := Pipe(p.queues[k := rest][k + 1 := Push(p.queues[k + 1], Move(k, x))], p.running[k := x.Some?]);
    assert Jobs(r.queues[k + 1]) by {
      assert Jobs(p.queues[k + 1]);
    }
    assert forall m :: 0 <= m < 5 && m != k && m != k + 1 ==> r.queues[m] == p.queues[m];
    r
  }

  /** A step moves the front of queue `k` to the back of queue `k + 1`,
      touches no other queue, and stops the stage exactly when the front was
      the sentinel. */
  lemma StepMoves(p: Pipe, k: int)
    requires Ready(p) && 0 <= k < 4 && p.running[k] && |p.queues[k]| > 0
    ensures var r := Step(p, k);
      && r.queues[k] == p.queues[k][1..]
      && |r.queues[k + 1]| == |p.queues[k + 1]| + 1 && p.queues[k + 1] <= r.queues[k + 1]
      && (r.queues[k + 1][|p.queues[k + 1]|] == None <==> p.queues[k][0] == None)
      && (forall m :: 0 <= m < 5 && m != k && m != k + 1 ==> r.queues[m] == p.queues[m])
      && r.running == p.running[k := p.queues[k][0] != None]
  {
  }

  /** `submit(g)`: one new job with a fresh result at the back of `q1`. */
  function Submit(p: Pipe, g: Graph): (r: Pipe)
    requires Ready(p) && Supported(g)
    ensures Ready(r)
  {
    Pipe(p.queues[0 := Push(p.queues[0], Some(Job(g, Fresh)))], p.running)
  }

  /** Stage `k`'s loop run until it stops or its queue is empty (where the
      thread would wait). */
  function Run(p: Pipe, k: int): (r: Pipe)
    requires Ready(p) && 0 <= k < 4
    ensures Ready(r)
    decreases |p.queues[k]|
  {
    if !p.running[k] || |p.queues[k]| == 0 then p else Run(Step(p, k), k)
  }

  /** Every stage run in turn: what the threads leave once each is waiting
      or finished. */
  function Settle(p: Pipe): (r: Pipe)
    requires Ready(p)
    ensures Ready(r)
  {
    Run(Run(Run(Run(p, 0), 1), 2), 3)
  }

  /** `q1.push(nullptr)`: the sentinel at the back of `q1`, after every job
      submitted so far. */
  function Close(p: Pipe): (r: Pipe)
    requires Ready(p)
    ensures Ready(r)
    ensures r.queues[0] == p.queues[0] + [None] && r.running == p.running
    ensures forall k :: 1 <= k < 5 ==> r.queues[k] == p.queues[k]
  {
    var r := Pipe(p.queues[0 := Push(p.queues[0], None)], p.running);
    assert Jobs(r.queues[0]) by {
      assert Jobs(p.queues[0]);
    }
    r
  }

  /** `stop()`: push the sentinel, then wait for every stage. */
  function Stop(p: Pipe): (r: Pipe)
    requires Ready(p)
    ensures Ready(r)
  {
    Settle(Close(p))
  }

  /** The loop in `get()`: discard sentinels up to the first job and return
      it with what is left; `None` when the queue holds no job (the source
      waits forever), after every sentinel has been discarded. */
  function Take(q: Queue): (r: (Option<Job>, Queue))
    ensures |r.1| <= |q| && r.1 == q[|q| - |r.1|..]
    ensures r.0.None? <==> forall i :: 0 <= i < |q| ==> q[i].None?
    ensures r.0.None? ==> r.1 == []
    ensures r.0.Some? ==> |r.1| < |q| && q[|q| - |r.1| - 1] == r.0
    ensures r.0.Some? ==> forall i :: 0 <= i < |q| - |r.1| - 1 ==> q[i].None?
  {
    if |q| == 0 then (None, [])
    else if q[0].None? then
      assert forall i :: 1 <= i < |q| ==> q[i] == q[1..][i - 1];
      Take(q[1..])
    else (q[0], q[1..])
  }

  /** `get()`: the result of the first job to reach `qout`. */
  function Get(p: Pipe): (r: (Option<Result>, Pipe))
    requires Ready(p)
    ensures Ready(r.1)
  {
    var s := Settle(p);
    var t := Take(s.queues[4]);
    JobsSuffix(s.queues[4], |s.queues[4]| - |t.1|);
    (ResultOf(t.0), Pipe(s.queues[4 := t.1], s.running))
  }

  function ResultOf(x: Option<Job>): Option<Result> {
    if x.Some? then Some(x.value.result) else None
  }

  lemma JobsSuffix(q: Queue, n: int)
    requires Jobs(q) && 0 <= n <= |q|
    ensures Jobs(q[n..])
  {
    assert forall i :: 0 <= i < |q| - n ==> q[n..][i] == q[n + i];
  }

  // ---------------------------------------------------------------------
  // What a stage's loop does to a whole queue.

  /** Stage `k` applied to every item of `q`, in order. */
  function Advance(k: int, q: Queue): (r: Queue)
    requires 0 <= k < 4 && Jobs(q)
    ensures |r| == |q| && Jobs(r)
    ensures forall i :: 0 <= i < |q| ==> (r[i].Some? <==> q[i].Some?)
    ensures forall i :: 0 <= i < |q| && q[i].Some? ==> r[i].value.graph == q[i].value.graph
  {
    if |q| == 0 then []
    else
      JobsSuffix(q, 1);
      var r1 := Advance(k, q[1..]);
      var r := [Move(k, q[0])] + r1;
      assert forall i :: 1 <= i < |q| ==> r[i] == r1[i - 1] && q[i] == q[1..][i - 1];
      r
  }

  lemma AdvanceCons(k: int, x: Option<Job>, q: Queue)
    requires 0 <= k < 4 && (x.Some? ==> Supported(x.value.graph)) && Jobs(q)
    ensures Jobs([x] + q) && Advance(k, [x] + q) == [Move(k, x)] + Advance(k, q)
  {
    assert ([x] + q)[1..] == q;
    assert forall i :: 1 <= i < |q| + 1 ==> ([x] + q)[i] == q[i - 1];
  }

  /** The position of the first sentinel in `q`, or `|q|` when there is none. */
  function FirstNone(q: Queue): (i: nat)
    ensures i <= |q|
    ensures i < |q| ==> q[i].None?
    ensures forall m :: 0 <= m < i ==> q[m].Some?
  {
    if |q| == 0 || q[0].None? then 0 else 1 + FirstNone(q[1..])
  }

  /** How much of `q` a running stage consumes: everything up to and
      including the first sentinel. */
  function Cut(q: Queue): nat {
    if FirstNone(q) < |q| then FirstNone(q) + 1 else |q|
  }

  /** A running stage's loop forwards, through its stage, everything up to
      and including the first sentinel, and stops exactly when it met one;
      the other queues stay as they were. */
  lemma {:induction false} RunMoves(p: Pipe, k: int)
    requires Ready(p) && 0 <= k < 4 && p.running[k]
    ensures var q := p.queues[k];
      var r := Run(p, k);
      && Cut(q) <= |q|
      && r.queues[k] == q[Cut(q)..]
      && r.queues[k + 1] == p.queues[k + 1] + Advance(k, q[..Cut(q)])
      && (forall m :: 0 <= m < 5 && m != k && m != k + 1 ==> r.queues[m] == p.queues[m])
      && r.running == p.running[k := FirstNone(q) == |q|]
    decreases |p.queues[k]|
  {
    var q := p.queues[k];
    if |q| == 0 {
      assert q[..0] == [];
      assert p.running[k := true] == p.running;
    } else if q[0].None? {
      FrontSentinel(p, k);
    } else {
      FrontStep(p, k);
      AdvanceFront(k, q);
      RunMoves(Step(p, k), k);
    }
  }

  /** A sentinel at the front: one step, and the stage stops. */
  lemma FrontSentinel(p: Pipe, k: int)
    requires Ready(p) && 0 <= k < 4 && p.running[k] && |p.queues[k]| > 0 && p.queues[k][0].None?
    ensures var q := p.queues[k];
      var r := Run(p, k);
      && Cut(q) == 1
      && r.queues[k] == q[1..]
      && r.queues[k + 1] == p.queues[k + 1] + Advance(k, q[..1])
      && (forall m :: 0 <= m < 5 && m != k && m != k + 1 ==> r.queues[m] == p.queues[m])
      && r.running == p.running[k := false]
  {
    var q := p.queues[k];
    StepMoves(p, k);
    assert q[..1] == [None] + [];
    AdvanceCons(k, None, []);
  }

  /** A job at the front: one step, after which the stage still runs. */
  lemma FrontStep(p: Pipe, k: int)
    requires Ready(p) && 0 <= k < 4 && p.running[k] && |p.queues[k]| > 0 && p.queues[k][0].Some?
    ensures var s := Step(p, k);
      && Run(p, k) == Run(s, k)
      && s.queues[k] == p.queues[k][1..] && s.running == p.running
      && Jobs(p.queues[k]) && s.queues[k + 1] == p.queues[k + 1] + [Move(k, p.queues[k][0])]
      && (forall m :: 0 <= m < 5 && m != k && m != k + 1 ==> s.queues[m] == p.queues[m])
  {
    StepMoves(p, k);
    assert Jobs(p.queues[k]);
  }

  /** Consuming a queue that starts with a job: the job, then the rest. */
  lemma AdvanceFront(k: int, q: Queue)
    requires 0 <= k < 4 && Jobs(q) && |q| > 0 && q[0].Some?
    ensures var q1 := q[1..];
      && Cut(q1) == Cut(q) - 1 && (FirstNone(q1) == |q1| <==> FirstNone(q) == |q|)
      && Jobs(q[..Cut(q)]) && Jobs(q1[..Cut(q1)])
      && Advance(k, q[..Cut(q)]) == [Move(k, q[0])] + Advance(k, q1[..Cut(q1)])
  {
    var q1 := q[1..];
    assert FirstNone(q1) == FirstNone(q) - 1;
    assert Jobs(q[..Cut(q)]) by {
      assert forall i :: 0 <= i < Cut(q) ==> q[..Cut(q)][i] == q[i];
    }
    assert q[..Cut(q)] == [q[0]] + q1[..Cut(q1)];
    assert Jobs(q1[..Cut(q1)]) by {
      assert forall i :: 0 <= i < Cut(q1) ==> q1[..Cut(q1)][i] == q[i + 1];
    }
    AdvanceCons(k, q[0], q1[..Cut(q1)]);
  }

  // ---------------------------------------------------------------------
  // The invariant: a job in queue `k` has been through stages 1 to `k`.

  /** Every job in `q` went through exactly the first `k` stages. */
  predicate AtStage(q: Queue, k: int)
    requires 0 <= k <= 4 && Jobs(q)
  {
    forall i :: 0 <= i < |q| && q[i].Some? ==> q[i].value.result == Expected(q[i].value.graph, k)
  }

  /** Queue `k` holds jobs that went through the first `k` stages. */
  predicate Staged(p: Pipe) {
    Ready(p) && forall k :: 0 <= k < 5 ==> AtStage(p.queues[k], k)
  }

  lemma AtStageAppend(a: Queue, b: Queue, k: int)
    requires 0 <= k <= 4 && Jobs(a) && Jobs(b) && AtStage(a, k) && AtStage(b, k)
    ensures Jobs(a + b) && AtStage(a + b, k)
  {
    assert forall i :: |a| <= i < |a| + |b| ==> (a + b)[i] == b[i - |a|];
  }

  lemma AtStageSlice(q: Queue, lo: int, hi: int, k: int)
    requires 0 <= k <= 4 && Jobs(q) && AtStage(q, k) && 0 <= lo <= hi <= |q|
    ensures Jobs(q[lo..hi]) && AtStage(q[lo..hi], k)
  {
    assert forall i :: 0 <= i < hi - lo ==> q[lo..hi][i] == q[lo + i];
  }

  /** Stage `k` takes a job that went through the first `k` stages to one
      that went through the first `k + 1`. */
  lemma {:induction false} AdvanceAtStage(k: int, q: Queue)
    requires 0 <= k < 4 && Jobs(q) && AtStage(q, k)
    ensures AtStage(Advance(k, q), k + 1)
    decreases |q|
  {
    if |q| > 0 {
      AtStageSlice(q, 1, |q|, k);
      AdvanceAtStage(k, q[1..]);
      AdvanceCons(k, q[0], q[1..]);
      assert [q[0]] + q[1..] == q;
      var r := Advance(k, q);
      var r1 := Advance(k, q[1..]);
      assert r == [Move(k, q[0])] + r1;
      forall i | 0 <= i < |r| && r[i].Some?
        ensures r[i].value.result == Expected(r[i].value.graph, k + 1)
      {
        if i == 0 {
          MoveAtStage(k, q[0]);
        } else {
          assert r[i] == r1[i - 1];
        }
      }
    }
  }

  lemma MoveAtStage(k: int, x: Option<Job>)
    requires 0 <= k < 4 && (x.Some? ==> Supported(x.value.graph) && x.value.result == Expected(x.value.graph, k))
    ensures x.Some? ==> Move(k, x).Some? && Move(k, x).value.result == Expected(x.value.graph, k + 1)
  {
  }

  /** Running one stage keeps the invariant. */
  lemma RunStaged(p: Pipe, k: int)
    requires Staged(p) && 0 <= k < 4
    ensures Staged(Run(p, k))
  {
    if p.running[k] {
      var q := p.queues[k];
      var r := Run(p, k);
      RunMoves(p, k);
      assert Jobs(q) && AtStage(q, k);
      AtStageSlice(q, Cut(q), |q|, k);
      AtStageSlice(q, 0, Cut(q), k);
      AdvanceAtStage(k, q[..Cut(q)]);
      assert Jobs(p.queues[k + 1]) && AtStage(p.queues[k + 1], k + 1);
      AtStageAppend(p.queues[k + 1], Advance(k, q[..Cut(q)]), k + 1);
      forall m | 0 <= m < 5
        ensures AtStage(r.queues[m], m)
      {
        if m != k && m != k + 1 {
          assert r.queues[m] == p.queues[m];
        }
      }
    }
  }

  /** Letting every stage run keeps the invariant. */
  lemma SettleStaged(p: Pipe)
    requires Staged(p)
    ensures Staged(Settle(p))
  {
    RunStaged(p, 0);
    RunStaged(Run(p, 0), 1);
    RunStaged(Run(Run(p, 0), 1), 2);
    RunStaged(Run(Run(Run(p, 0), 1), 2), 3);
  }

  // ---------------------------------------------------------------------
  // Order: jobs leave in the order they were submitted.

  /** The graphs of the jobs in `q`, front first. */
  function InFlight(q: Queue): seq<Graph> {
    if |q| == 0 then [] else (if q[0].Some? then [q[0].value.graph] else []) + InFlight(q[1..])
  }

  lemma {:induction false} InFlightAppend(a: Queue, b: Queue)
    ensures InFlight(a + b) == InFlight(a) + InFlight(b)
    decreases |a|
  {
    if |a| == 0 {
      assert a + b == b;
    } else {
      var h := if a[0].Some? then [a[0].value.graph] else [];
      assert (a + b)[0] == a[0] && (a + b)[1..] == a[1..] + b;
      assert InFlight(a + b) == h + InFlight(a[1..] + b);
      InFlightAppend(a[1..], b);
      assert h + (InFlight(a[1..]) + InFlight(b)) == (h + InFlight(a[1..])) + InFlight(b);
    }
  }

  /** A stage keeps every item's graph and position. */
  lemma {:induction false} InFlightAdvance(k: int, q: Queue)
    requires 0 <= k < 4 && Jobs(q)
    ensures InFlight(Advance(k, q)) == InFlight(q)
    decreases |q|
  {
    if |q| > 0 {
      JobsSuffix(q, 1);
      InFlightAdvance(k, q[1..]);
      var r := Advance(k, q);
      assert r[1..] == Advance(k, q[1..]) by {
        AdvanceCons(k, q[0], q[1..]);
        assert [q[0]] + q[1..] == q;
      }
    }
  }

  /** The graphs of every job in flight, oldest first: `qout` holds the
      oldest jobs and `q1` the newest. */
  function Order(p: Pipe): seq<Graph>
    requires Wired(p)
  {
    InFlight(p.queues[4]) + InFlight(p.queues[3]) + InFlight(p.queues[2]) + InFlight(p.queues[1]) + InFlight(p.queues[0])
  }

  lemma JobsSlice(q: Queue, lo: int, hi: int)
    requires Jobs(q) && 0 <= lo <= hi <= |q|
    ensures Jobs(q[lo..hi])
  {
    assert forall i :: 0 <= i < hi - lo ==> q[lo..hi][i] == q[lo + i];
  }

  /** What a running stage moves from queue `k` to queue `k + 1` keeps
      its place in the order. */
  lemma RunInFlight(p: Pipe, k: int)
    requires Ready(p) && 0 <= k < 4
    ensures var r := Run(p, k);
      && InFlight(r.queues[k + 1]) + InFlight(r.queues[k]) == InFlight(p.queues[k + 1]) + InFlight(p.queues[k])
      && forall m :: 0 <= m < 5 && m != k && m != k + 1 ==> r.queues[m] == p.queues[m]
  {
    if p.running[k] {
      var q := p.queues[k];
      var r := Run(p, k);
      RunMoves(p, k);
      var c := Cut(q);
      assert Jobs(q);
      JobsSlice(q, 0, c);
      InFlightAdvance(k, q[..c]);
      InFlightAppend(p.queues[k + 1], Advance(k, q[..c]));
      assert q == q[..c] + q[c..];
      InFlightAppend(q[..c], q[c..]);
    }
  }

  /** Running a stage never reorders jobs. */
  lemma RunKeepsOrder(p: Pipe, k: int)
    requires Ready(p) && 0 <= k < 4
    ensures Order(Run(p, k)) == Order(p)
  {
    var r := Run(p, k);
    RunInFlight(p, k);
    var a := seq(5, m requires 0 <= m < 5 => InFlight(p.queues[m]));
    var b := seq(5, m requires 0 <= m < 5 => InFlight(r.queues[m]));
    assert forall m :: 0 <= m < 5 && m != k && m != k + 1 ==> b[m] == a[m];
    Regroup(a, b, k);
  }

  /** Five pieces joined oldest first, two neighbouring ones exchanging
      items across their border. */
  lemma Regroup(a: seq<seq<Graph>>, b: seq<seq<Graph>>, k: int)
    requires |a| == 5 && |b| == 5 && 0 <= k < 4
    requires b[k + 1] + b[k] == a[k + 1] + a[k]
    requires forall m :: 0 <= m < 5 && m != k && m != k + 1 ==> b[m] == a[m]
    ensures b[4] + b[3] + b[2] + b[1] + b[0] == a[4] + a[3] + a[2] + a[1] + a[0]
  {
    if k == 1 {
      assert b[4] + b[3] + b[2] + b[1] + b[0] == b[4] + b[3] + (b[2] + b[1]) + b[0];
      assert a[4] + a[3] + a[2] + a[1] + a[0] == a[4] + a[3] + (a[2] + a[1]) + a[0];
    } else if k == 2 {
      assert b[4] + b[3] + b[2] + b[1] + b[0] == b[4] + (b[3] + b[2]) + b[1] + b[0];
      assert a[4] + a[3] + a[2] + a[1] + a[0] == a[4] + (a[3] + a[2]) + a[1] + a[0];
    } else if k == 3 {
      assert b[4] + b[3] + b[2] + b[1] + b[0] == (b[4] + b[3]) + (b[2] + b[1] + b[0]);
      assert a[4] + a[3] + a[2] + a[1] + a[0] == (a[4] + a[3]) + (a[2] + a[1] + a[0]);
    } else {
      assert b[4] + b[3] + b[2] + b[1] + b[0] == (b[4] + b[3] + b[2]) + (b[1] + b[0]);
      assert a[4] + a[3] + a[2] + a[1] + a[0] == (a[4] + a[3] + a[2]) + (a[1] + a[0]);
    }
  }

  lemma SettleKeepsOrder(p: Pipe)
    requires Ready(p)
    ensures Order(Settle(p)) == Order(p)
  {
    RunKeepsOrder(p, 0);
    RunKeepsOrder(Run(p, 0), 1);
    RunKeepsOrder(Run(Run(p, 0), 1), 2);
    RunKeepsOrder(Run(Run(Run(p, 0), 1), 2), 3);
  }

  // ---------------------------------------------------------------------
  // Between `start()` and `stop()`.

  predicate NoSentinel(q: Queue) {
    forall i :: 0 <= i < |q| ==> q[i].Some?
  }

  /** Every stage runs and no sentinel waits in front of one: the state
      between `start()` and `stop()`. */
  predicate Open(p: Pipe) {
    Wired(p) && forall k :: 0 <= k < 4 ==> p.running[k] && NoSentinel(p.queues[k])
  }

  /** A running stage with no sentinel to meet forwards its whole queue and
      keeps running. */
  lemma RunDrains(p: Pipe, k: int)
    requires Ready(p) && 0 <= k < 4 && p.running[k] && NoSentinel(p.queues[k])
    ensures var r := Run(p, k);
      && r.queues[k] == [] && r.running == p.running
      && Jobs(p.queues[k]) && r.queues[k + 1] == p.queues[k + 1] + Advance(k, p.queues[k])
      && (forall m :: 0 <= m < 5 && m != k && m != k + 1 ==> r.queues[m] == p.queues[m])
  {
    var q := p.queues[k];
    RunMoves(p, k);
    assert FirstNone(q) == |q|;
    assert q[..|q|] == q;
    assert p.running[k := true] == p.running;
  }

  lemma NoSentinelAppend(a: Queue, b: Queue)
    requires NoSentinel(a) && NoSentinel(b)
    ensures NoSentinel(a + b)
  {
    assert forall i :: |a| <= i < |a| + |b| ==> (a + b)[i] == b[i - |a|];
  }

  /** One stage run on an open pipeline. */
  lemma RunOpen(p: Pipe, k: int)
    requires Ready(p) && Open(p) && 0 <= k < 4
    ensures Open(Run(p, k)) && Run(p, k).queues[k] == []
    ensures forall m :: 0 <= m < 5 && m != k && m != k + 1 ==> Run(p, k).queues[m] == p.queues[m]
  {
    var r := Run(p, k);
    RunDrains(p, k);
    if k < 3 {
      NoSentinelAppend(p.queues[k + 1], Advance(k, p.queues[k]));
    }
    assert forall m :: 0 <= m < 4 ==> NoSentinel(r.queues[m]) by {
      forall m | 0 <= m < 4 ensures NoSentinel(r.queues[m]) {
        if m != k && m != k + 1 {
          assert r.queues[m] == p.queues[m];
        }
      }
    }
  }

  /** The first three stages run on an open pipeline. */
  lemma SettleFirstThree(p: Pipe)
    requires Ready(p) && Open(p)
    ensures Open(Run(Run(Run(p, 0), 1), 2))
    ensures forall k :: 0 <= k < 3 ==> Run(Run(Run(p, 0), 1), 2).queues[k] == []
  {
    var p1 := Run(p, 0);
    var p2 := Run(p1, 1);
    RunOpen(p, 0);
    RunOpen(p1, 1);
    RunOpen(p2, 2);
  }

  /** On an open pipeline every job reaches `qout`: the four stage queues
      end up empty, in the order jobs were submitted. */
  lemma SettleDrains(p: Pipe)
    requires Ready(p) && Open(p)
    ensures Open(Settle(p)) && (forall k :: 0 <= k < 4 ==> Settle(p).queues[k] == [])
    ensures InFlight(Settle(p).queues[4]) == Order(p)
  {
    var p3 := Run(Run(Run(p, 0), 1), 2);
    SettleFirstThree(p);
    RunOpen(p3, 3);
    var r := Run(p3, 3);
    assert forall k :: 0 <= k < 4 ==> r.queues[k] == [] by {
      assert forall k :: 0 <= k < 3 ==> r.queues[k] == p3.queues[k];
    }
    SettleKeepsOrder(p);
    assert Order(r) == InFlight(r.queues[4]);
  }

  /** Discarding sentinels and taking the first job reads the queue's graphs
      front first. */
  lemma {:induction false} TakeInFlight(q: Queue)
    ensures var t := Take(q);
      && (t.0.None? ==> InFlight(q) == [])
      && (t.0.Some? ==> InFlight(q) == [t.0.value.graph] + InFlight(t.1))
    decreases |q|
  {
    if |q| > 0 {
      TakeInFlight(q[1..]);
    }
  }

  lemma StagedSlice(p: Pipe, lo: int)
    requires Staged(p) && 0 <= lo <= |p.queues[4]|
    ensures Jobs(p.queues[4][lo..]) && Staged(Pipe(p.queues[4 := p.queues[4][lo..]], p.running))
  {
    var q := p.queues[4];
    assert Jobs(q) && AtStage(q, 4);
    AtStageSlice(q, lo, |q|, 4);
    assert q[lo..|q|] == q[lo..];
    var r := Pipe(p.queues[4 := q[lo..]], p.running);
    forall m | 0 <= m < 5 ensures Jobs(r.queues[m]) && AtStage(r.queues[m], m) {
      if m < 4 {
        assert r.queues[m] == p.queues[m];
      }
    }
  }

  /** What `get()` leaves of an open pipeline: the settled queues with the
      front of `qout`, up to its first job, consumed. */
  lemma GetShape(p: Pipe)
    requires Ready(p) && Open(p)
    ensures var s := Settle(p);
      var t := Take(s.queues[4]);
      var p1 := Get(p).1;
      && Get(p).0 == ResultOf(t.0)
      && p1 == Pipe(s.queues[4 := t.1], s.running)
      && Open(p1) && Order(p1) == InFlight(t.1)
      && InFlight(s.queues[4]) == Order(p)
  {
    var s := Settle(p);
    SettleDrains(p);
    var t := Take(s.queues[4]);
    assert Get(p) == (ResultOf(t.0), Pipe(s.queues[4 := t.1], s.running));
    ReplaceOut(s, t.1);
  }

  /** A drained open pipeline with a different `qout`. */
  lemma ReplaceOut(s: Pipe, q: Queue)
    requires Open(s) && forall k :: 0 <= k < 4 ==> s.queues[k] == []
    ensures Open(Pipe(s.queues[4 := q], s.running)) && Order(Pipe(s.queues[4 := q], s.running)) == InFlight(q)
  {
    var r := Pipe(s.queues[4 := q], s.running);
    assert forall k :: 0 <= k < 4 ==> r.queues[k] == [];
  }

  /** `get()` on an open pipeline returns the full result for the oldest
      graph in flight, and that graph leaves the order; with nothing in
      flight it finds no job. */
  lemma GetOldest(p: Pipe)
    requires Staged(p) && Open(p)
    ensures var r := Get(p).0;
      && (r.Some? <==> |Order(p)| > 0)
      && (r.Some? ==> Supported(Order(p)[0]) && r.value == Full(Order(p)[0]) && Order(Get(p).1) == Order(p)[1..])
  {
    var s := Settle(p);
    GetShape(p);
    var q := s.queues[4];
    var t := Take(q);
    TakeInFlight(q);
    if t.0.Some? {
      SettleStaged(p);
      assert Jobs(q) && AtStage(q, 4);
      TakeFull(q);
      assert JobDone(t.0.value);
      assert Order(p)[0] == t.0.value.graph;
    }
  }

  /** The first job `get()` finds in a queue of finished jobs holds the
      full result for its graph. */
  lemma TakeFull(q: Queue)
    requires Jobs(q) && AtStage(q, 4)
    ensures Take(q).0.Some? ==> JobDone(Take(q).0.value)
  {
    var t := Take(q);
    if t.0.Some? {
      var lo := |q| - |t.1|;
      assert q[lo - 1] == t.0;
      var j := t.0.value;
      assert Supported(j.graph) && j.result == Expected(j.graph, 4);
      ExpectedFull(j.graph);
    }
  }

  /** A job that went through every stage. */
  predicate JobDone(j: Job) {
    Supported(j.graph) && j.result == Full(j.graph)
  }

  /** `get()` keeps the invariant. */
  lemma GetStaged(p: Pipe)
    requires Staged(p) && Open(p)
    ensures Staged(Get(p).1) && Open(Get(p).1)
  {
    var s := Settle(p);
    var t := Take(s.queues[4]);
    var lo := |s.queues[4]| - |t.1|;
    assert Get(p).1 == Pipe(s.queues[4 := s.queues[4][lo..]], s.running);
    assert Open(Get(p).1) by {
      SettleDrains(p);
      ReplaceOut(s, t.1);
    }
    assert Staged(s) by {
      SettleStaged(p);
    }
    StagedSlice(s, lo);
  }

  /** `submit(g)` puts `g` last in the order. */
  lemma SubmitLast(p: Pipe, g: Graph)
    requires Ready(p) && Open(p) && Supported(g)
    ensures Open(Submit(p, g)) && Order(Submit(p, g)) == Order(p) + [g]
  {
    var r := Submit(p, g);
    var x := Some(Job(g, Fresh));
    NoSentinelAppend(p.queues[0], [x]);
    InFlightAppend(p.queues[0], [x]);
    assert InFlight([x]) == [g];
    assert r.queues[1] == p.queues[1] && r.queues[2] == p.queues[2] && r.queues[3] == p.queues[3] && r.queues[4] == p.queues[4];
  }

  /** `submit(g)` keeps the invariant: a new job has been through no stage. */
  lemma SubmitStaged(p: Pipe, g: Graph)
    requires Staged(p) && Supported(g)
    ensures Staged(Submit(p, g))
  {
    var r := Submit(p, g);
    var x := Some(Job(g, Fresh));
    assert Expected(g, 0) == Fresh;
    assert AtStage([x], 0);
    assert Jobs(p.queues[0]) && AtStage(p.queues[0], 0);
    AtStageAppend(p.queues[0], [x], 0);
    forall m | 0 <= m < 5 ensures AtStage(r.queues[m], m) {
      if m > 0 {
        assert r.queues[m] == p.queues[m];
      }
    }
  }

  /** The pipeline right after `start()`. */
  lemma StartedOpen()
    ensures Staged(Started()) && Open(Started()) && Order(Started()) == []
  {
  }

  // ---------------------------------------------------------------------
  // `stop()`.

  /** Jobs only, then one sentinel at the back. */
  predicate EndsInSentinel(q: Queue) {
    |q| > 0 && q[|q| - 1].None? && NoSentinel(q[..|q| - 1])
  }

  lemma EndsInSentinelAppend(a: Queue, b: Queue)
    requires NoSentinel(a) && EndsInSentinel(b)
    ensures EndsInSentinel(a + b)
  {
    assert (a + b)[..|a + b| - 1] == a + b[..|b| - 1];
    NoSentinelAppend(a, b[..|b| - 1]);
  }

  lemma AdvanceEndsInSentinel(k: int, q: Queue)
    requires 0 <= k < 4 && Jobs(q) && EndsInSentinel(q)
    ensures EndsInSentinel(Advance(k, q))
  {
    SameShapeEndsInSentinel(q, Advance(k, q));
  }

  lemma SameShapeEndsInSentinel(q: Queue, r: Queue)
    requires |r| == |q| && forall i :: 0 <= i < |q| ==> (r[i].Some? <==> q[i].Some?)
    requires EndsInSentinel(q)
    ensures EndsInSentinel(r)
  {
    assert forall i :: 0 <= i < |q| - 1 ==> r[..|r| - 1][i] == r[i] && q[..|q| - 1][i] == q[i];
  }

  /** A running stage whose queue ends in the sentinel forwards all of it
      and stops. */
  lemma RunToSentinel(p: Pipe, k: int)
    requires Ready(p) && 0 <= k < 4 && p.running[k] && EndsInSentinel(p.queues[k])
    ensures var r := Run(p, k);
      && r.queues[k] == [] && r.running == p.running[k := false]
      && Jobs(p.queues[k]) && r.queues[k + 1] == p.queues[k + 1] + Advance(k, p.queues[k])
      && (forall m :: 0 <= m < 5 && m != k && m != k + 1 ==> r.queues[m] == p.queues[m])
  {
    var q := p.queues[k];
    RunMoves(p, k);
    assert forall i :: 0 <= i < |q| - 1 ==> q[i] == q[..|q| - 1][i];
    assert FirstNone(q) == |q| - 1;
    assert q[..|q|] == q;
  }

  /** Stage `k` of a pipeline being stopped: the sentinel has reached its
      queue, stages before it have stopped, stages after it still run. */
  predicate Stopping(p: Pipe, k: int) {
    && Ready(p) && 0 <= k < 4
    && (forall m :: 0 <= m < k ==> !p.running[m] && p.queues[m] == [])
    && (forall m :: k <= m < 4 ==> p.running[m])
    && EndsInSentinel(p.queues[k])
    && (forall m :: k < m < 4 ==> NoSentinel(p.queues[m]))
  }

  lemma RunStopping(p: Pipe, k: int)
    requires Stopping(p, k)
    ensures var r := Run(p, k);
      && (k < 3 ==> Stopping(r, k + 1))
      && (k == 3 ==> (forall m :: 0 <= m < 4 ==> !r.running[m] && r.queues[m] == []) && |r.queues[4]| > 0 && r.queues[4][|r.queues[4]| - 1].None?)
  {
    var r := Run(p, k);
    RunToSentinel(p, k);
    AdvanceEndsInSentinel(k, p.queues[k]);
    if k < 3 {
      EndsInSentinelAppend(p.queues[k + 1], Advance(k, p.queues[k]));
    }
    assert forall m :: 0 <= m < 5 && m != k && m != k + 1 ==> r.queues[m] == p.queues[m];
  }

  /** `stop()` on an open pipeline: every stage stops, every job reaches
      `qout` in order, and the sentinel is the last item there. */
  lemma StopHalts(p: Pipe)
    requires Ready(p) && Open(p)
    ensures var r := Stop(p);
      && (forall k :: 0 <= k < 4 ==> !r.running[k] && r.queues[k] == [])
      && |r.queues[4]| > 0 && r.queues[4][|r.queues[4]| - 1].None?
      && InFlight(r.queues[4]) == Order(p)
  {
    var r := Stop(p);
    StopEnds(p);
    StopKeepsOrder(p);
    assert Order(r) == InFlight(r.queues[4]);
  }

  lemma StopEnds(p: Pipe)
    requires Ready(p) && Open(p)
    ensures var r := Stop(p);
      && (forall k :: 0 <= k < 4 ==> !r.running[k] && r.queues[k] == [])
      && |r.queues[4]| > 0 && r.queues[4][|r.queues[4]| - 1].None?
  {
    var p0 := Close(p);
    EndsInSentinelAppend(p.queues[0], [None]);
    assert Stopping(p0, 0);
    var p1 := Run(p0, 0);
    var p2 := Run(p1, 1);
    var p3 := Run(p2, 2);
    RunStopping(p0, 0);
    RunStopping(p1, 1);
    RunStopping(p2, 2);
    RunStopping(p3, 3);
  }

  lemma StopKeepsOrder(p: Pipe)
    requires Ready(p)
    ensures Order(Stop(p)) == Order(p)
  {
    var p0 := Close(p);
    assert Order(p0) == Order(p) by {
      InFlightAppend(p.queues[0], [None]);
      assert InFlight([None]) == [];
    }
    SettleKeepsOrder(p0);
  }

  /** `stop()` keeps the invariant. */
  lemma StopStaged(p: Pipe)
    requires Staged(p)
    ensures Staged(Stop(p))
  {
    var p0 := Close(p);
    assert Jobs(p.queues[0]) && AtStage(p.queues[0], 0);
    AtStageAppend(p.queues[0], [None], 0);
    forall m | 0 <= m < 5 ensures AtStage(p0.queues[m], m) {
      if m > 0 {
        assert p0.queues[m] == p.queues[m];
      }
    }
    SettleStaged(p0);
  }

  /** `stop()` once every stage has stopped (the destructor after an
      explicit `stop()`): the sentinel stays in `q1` and nothing else moves. */
  lemma StopAgain(p: Pipe)
    requires Ready(p) && forall k :: 0 <= k < 4 ==> !p.running[k]
    ensures Stop(p) == Pipe(p.queues[0 := p.queues[0] + [None]], p.running)
  {
  }

  /** The server's use of the pipeline: start, submit one graph, get, stop.
      `get()` returns every algorithm's result on the graph, and `stop()`
      then ends every stage with no job left over. */
  lemma ServeOne(g: Graph)
    requires Supported(g)
    ensures var p := Submit(Started(), g);
      && Get(p).0 == Some(Full(g))
      && var r := Stop(Get(p).1);
      && (forall k :: 0 <= k < 4 ==> !r.running[k] && r.queues[k] == [])
      && InFlight(r.queues[4]) == []
  {
    StartedOpen();
    var p := Submit(Started(), g);
    SubmitLast(Started(), g);
    SubmitStaged(Started(), g);
    assert Order(p) == [g];
    GetOldest(p);
    GetStaged(p);
    StopHalts(Get(p).1);
  }
}
