# Graph algorithms service: a Dafny model

This project models the sequential core of a small C++ graph service. The
service has five parts:

- **Graph engine.** An adjacency-list graph over the vertices `[0, n)` with
  `addEdge`, `removeEdge` and `removeAllEdges`. It has Euler-circuit
  detection and Hierholzer construction, unit-weight Prim, brute-force
  clique counting, Kosaraju's strongly connected components and
  Edmonds–Karp maximum flow.
- **Random-graph builder.** `buildRandGraph` validates the edge count,
  lists the candidate pairs `u < v` and draws distinct indices with `rand()`.
- **Four-stage pipeline.** Each stage fills one field of a job's result and
  hands the job on through a FIFO queue. A null job is the shutdown sentinel.
- **Wire protocol.** The client encodes a request as 4-byte `int`s. Two
  servers decode it, run the algorithms and write a text reply that ends in
  `}`. The client frames that reply with a stash.
- **Algorithm factory.** It maps a selector to a strategy.

Everything is a value. A graph is `Graph(numVertices, directed, adj)`,
with `adj: seq<seq<int>>`. The algorithms are functions on graphs. A
socket is the sequence of results its `read` calls return. The pipeline's
threads are replaced by explicit steps. A stage's loop runs until its
queue is empty or it meets the sentinel, and `stop()` is "push the
sentinel, then let every stage run".

Modules and files:

- `wrappers.dfy` (module `Wrappers`): `Option`
- `seqs.dfy` (module `Seqs`): the sequence helpers: erase-remove, sums, flattening
- `graph.dfy` (module `Graphs`): constructor, `addEdge`, `removeEdge`, `getNeighbors`, `getNumVertices`, `removeAllEdges`
- `reach.dfy` (module `Reach`): reachability, and the recursive DFS behind `dfs`, `dfs1` and `dfs2`
- `euler.dfy` (module `Euler`): `hasEulerCircuit`, `findEulerCircuit`
- `mst.dfy` (module `Mst`): `mstWeight`
- `cliques.dfy` (module `Cliques`): `isClique`, `countCliques`
- `scc.dfy` (module `Scc`): `dfs1`, `dfs2`, `findSCCs`
- `maxflow.dfy` (module `MaxFlow`): `bfsFlow`, `maxFlow`
- `randgraph.dfy` (module `RandGraph`): `buildRandGraph`
- `factory.dfy` (module `Factory`): `GraphAlgorithmFactory::create`
- `pipeline.dfy` (module `Pipeline`): `Pipling`: `Result`, `Job`, `QueueT`, `start`, `submit`, `get`, `stop`, the four stages
- `wire.dfy` (module `Wire`): `read` results, `read_exact`, the bytes of an `int`
- `codec.dfy` (module `Codec`): `send_request` and the request-reading half of both `my_handler`s
- `text.dfy` (module `Text`): `to_string(Result)` and the text of `run_all_algorithms`
- `client.dfy` (module `Client`): `recv_until_delim`
- `handling.dfy` (module `Handling`): what both servers do with a decoded request
- `pipeline_server.dfy` (module `PipelineServer`): the part9 `my_handler`: one request, answered through the pipeline
- `direct_server.dfy` (module `DirectServer`): the part8 `my_handler`: a loop of requests, answered by `run_all_algorithms`
- `scenarios.dfy` (module `Scenarios`): the path graph 0-1-2-3 from the pipeline's first test case

### What the model follows

The model follows the code wherever the code and its comments or tests disagree:

- `isClique`'s comment says each pair must be connected both ways. The code
  only looks for the later vertex in the earlier vertex's list. The model
  counts exactly the non-empty subsets that pass this one-way check. The
  mask starts at 1, so the empty set is never counted.
- `addEdge` and `removeEdge` print a message and return on an out-of-range
  vertex; they do not throw. Self-loops are accepted.
- `hasEulerCircuit` returns true on a graph without edges.
- `getNeighbors` has no bounds check. The model makes `0 <= v < |adj|` a precondition.
- `removeAllEdges` empties every list and then the outer list, so no lists
  remain while `numVertices` is unchanged. Afterwards the vertex count no
  longer matches the number of lists.
- The part9 server calls `Graph::buildRandGraph`, which is not part of this
  model. The model uses the free function in part4/main.cpp instead.

### Model limits

- A graph with fewer than 2 or more than 30 vertices is outside what the
  model's algorithms are defined on. The servers report it as `OutsideModel`.
  For a graph with fewer than 2 vertices:
  - with one vertex, `maxFlow(0, n - 1)` has source equal to sink, and its
    loop never ends;
  - with no vertices, `bfsFlow` writes `visited[s]` and `parent[s]` into
    empty vectors, and for an undirected graph (a random-graph request with
    no vertices) `mstWeight` writes `minEdge[0]`; a directed graph returns
    -1 from `mstWeight` before that write.

  With more than 30 vertices, `1 << n` overflows.
- A request whose vertex count is negative makes the `Graph` constructor
  throw. The model gives that request its own outcome.
- `rand()` after `srand(seed)` is a parameter `rand: int -> seq<nat>`: the
  numbers drawn for each seed. The redraw loop may never end. The model
  therefore reports `Exhausted` when the drawn numbers run out before every
  edge is chosen.

## Model

| member | source | states |
|---|---|---|
| Graphs.New | part1/graph.cpp:6-9 | the constructor gives `n` lists, all empty, with the directedness flag stored and the graph invariant holding |
| Graphs.AddEdge | part1/graph.cpp:12-21 | an out-of-range endpoint leaves the graph as it was; otherwise `v` is appended to the end of `u`'s list, `u` to the end of `v`'s when undirected, and no other list changes; self-loops are accepted |
| Graphs.AddEdgeKeepsValid | part7/graph.cpp:15-24 | `addEdge` keeps every neighbour in `[0, n)` and keeps the undirected count symmetry (`v` occurs in `u`'s list as often as `u` in `v`'s) |
| Graphs.AddedPair | part7/graph.cpp:15-24 | `addEdge(u, v)` raises the count of `v` in `u`'s list by one, and, when undirected, the count of `u` in `v`'s list; every other count is unchanged |
| Graphs.RemoveEdge | part1/graph.cpp:24-41 | an out-of-range endpoint changes nothing; otherwise `v` no longer occurs in `u`'s list, nor `u` in `v`'s when undirected, and every other list is unchanged |
| Graphs.RemovedRow | part1/graph.cpp:24-41 | each touched list is exactly the old list with every copy of the removed vertex dropped, in the same order |
| Graphs.RemovedCounts | part7/graph.cpp:26-44 | removal only lowers counts; for an undirected graph exactly the counts of the removed pair drop to 0 |
| Graphs.RemoveEdgeKeepsValid | part7/graph.cpp:26-44 | `removeEdge` keeps the range invariant and the undirected symmetry |
| Graphs.AddThenRemove | part1/graph.cpp:12-41 | removing an edge that was absent and has just been added gives back the original graph |
| Graphs.Neighbours | part1/graph.cpp:55-57 | `getNeighbors(v)` needs `v` to index a list, and every neighbour it returns from a valid graph is a vertex |
| Graphs.EdgeOpsKeepVertexCount | part1/graph.cpp:12-62 | after any sequence of `addEdge` and `removeEdge` calls, in range or not, `getNumVertices` returns what it returned before, the direction flag is unchanged, and a graph whose lists are in range and symmetric stays so |
| Graphs.AddEdgeLinksBothEnds | part7/graph.cpp:15-24 | after an undirected `addEdge(u, v)`, each endpoint is a neighbour of the other |
| Graphs.RemoveAllEdges | part3/graph.cpp:144-149 | the outer list is emptied, the vertex count and flag stay, and a graph with vertices no longer has one list per vertex |
| Seqs.RemoveAllCount | part1/graph.cpp:29-30 | the erase-remove idiom drops every copy of the value and nothing else: the multiset loses exactly that value |
| Seqs.RemoveAllAppend | part1/graph.cpp:29-30 | erase-remove on a concatenation is erase-remove on each part, concatenated, so the surviving elements keep their relative order |
| Reach.SearchFromIsReachable | part7/graph.cpp:68-78 | the depth-first search marks exactly the vertices reachable from its start |
| Euler.FirstWithEdges | part3/graph.cpp:84-89 | the scan finds the least vertex with a non-empty list, or -1 exactly when every list is empty |
| Euler.NoEdgesCircuit | part3/graph.cpp:90-91 | a graph with no edges passes the check |
| Euler.OddListNoCircuit | part3/graph.cpp:101-105 | a list of odd length makes the check fail, directed or not |
| Euler.UnreachableNoCircuit | part3/graph.cpp:93-99 | a vertex with edges that the search from the first such vertex cannot reach makes the check fail |
| Euler.HasEulerCircuitIff | part3/graph.cpp:79-107 | on an undirected graph the check holds exactly when all vertices with edges reach each other and every degree is even |
| Euler.FindEulerCircuit | part3/graph.cpp:110-116 | without a circuit the result is empty |
| Euler.EulerCircuitFound | part3/graph.cpp:116-141 | on a simple undirected graph with a circuit, from a start on an edge, the result is a walk along edges that starts and ends at `start`, and for every pair `x`, `y` it steps between them, either way round, exactly as often as `y` occurs in the list of `x`: each edge is walked exactly once |
| Euler.CircuitTally | part3/graph.cpp:116-141 | the reversed pop order steps between `x` and `y` exactly as often as `y` occurs in the list of `x` |
| Euler.TallyRun | part3/graph.cpp:122-138 | from any state where the remaining lists plus the steps already taken account for every list entry, the loop's pop order accounts for every entry exactly |
| Euler.StepsReverse | part3/graph.cpp:140 | reversing a sequence keeps how often it steps between any two vertices |
| Euler.ParallelEdgesNoWalk | part3/graph.cpp:124-133 | two parallel edges between 0 and 1 pass the check, but erasing every copy of 0 from the list of 1 at the first step makes the result `[0, 1, 1]`, which steps from 1 to itself and is no walk |
| Mst.Pick | part7/graph.cpp:159-166 | the scan picks no vertex exactly when all are visited, and otherwise an unvisited vertex of least key |
| Mst.MstWeightDirected | part7/graph.cpp:150-151 | the weight is -1 exactly when the graph is directed |
| Mst.MstWeightConnected | part7/graph.cpp:150-180 | for an undirected graph with at least one vertex, the weight is at least `n - 1`, equals `n - 1` exactly when every vertex is reachable from 0, and otherwise includes an `INT_MAX` |
| Cliques.MembersOrdered | part7/graph.cpp:201-204 | the subset a mask names lists exactly its set bits below `n`, increasing |
| Cliques.IsCliqueOneWay | part7/graph.cpp:183-193 | the pair check holds exactly when each later member is in each earlier member's list (one direction only) |
| Cliques.CountCliquesCounts | part7/graph.cpp:195-209 | the count is the number of non-empty vertex subsets that pass the one-way check |
| Cliques.CliqueCountBounds | part7/graph.cpp:195-209 | with at most 30 vertices, `n <= count <= 2^n - 1`: every singleton counts and the empty set never does |
| Scc.Transpose | part7/graph.cpp:237-241 | `x` is in the reversed list of `v` exactly when `v` is in the list of `x` |
| Scc.FinishOrder | part7/graph.cpp:213-235 | the finishing order of the first pass holds every vertex |
| Scc.SccPartition | part7/graph.cpp:229-257 | the components are non-empty, no vertex is listed twice, and together they hold exactly the vertices |
| Scc.SccDisjoint | part7/graph.cpp:229-257 | every vertex lies in exactly one component |
| Scc.SccMembersReachRoot | part7/graph.cpp:244-254 | every member of a component reaches the vertex the component was started from |
| Scc.SccKeepsCyclesTogether | part7/graph.cpp:229-257 | two vertices that reach each other are in the same component |
| Scc.LaterReachesEarlier | part7/graph.cpp:246-254 | if `u` reaches `v`, `u`'s component is listed no later than `v`'s |
| Scc.OneComponent | part7/graph.cpp:229-257 | when all vertices reach each other there is one component, holding all of them |
| MaxFlow.Capacities | part7/graph.cpp:287-290 | the residual matrix is square and non-negative |
| MaxFlow.CapacitiesReach | part7/graph.cpp:287-290 | over the initial matrix, positive entries lead exactly where the stored edges lead |
| MaxFlow.SearchReaches | part7/graph.cpp:262-283 | `bfsFlow` visits exactly the vertices reachable over positive residual entries |
| MaxFlow.Trace | part7/graph.cpp:300-308 | following `parent` back from a visited vertex gives a repetition-free path from the source over positive entries |
| MaxFlow.AugmentFacts | part7/graph.cpp:303-308 | pushing at most the path's least capacity keeps every entry non-negative and lowers the source's total by the amount pushed |
| MaxFlow.FlowLoop | part7/graph.cpp:295-313 | each round adds at least 1 and at most what leaves the source; the loop adds nothing exactly when the sink is not reached |
| MaxFlow.MaxFlowBounds | part7/graph.cpp:285-314 | with `source != sink`, `0 <= maxFlow <= ` the number of stored edges leaving the source |
| MaxFlow.MaxFlowZeroIff | part7/graph.cpp:285-314 | the flow is 0 exactly when the sink cannot be reached from the source |
| RandGraph.Candidates | part4/main.cpp:35-39 | the candidate list holds exactly the pairs `u < v < n`, in lexicographic order, `n(n-1)/2` of them |
| RandGraph.CandidatesDistinct | part4/main.cpp:35-39 | no candidate pair is listed twice |
| RandGraph.Draw | part4/main.cpp:42-46 | the redraw loop takes the first drawn index not yet chosen, and finds none exactly when every remaining draw is a chosen index |
| RandGraph.Select | part4/main.cpp:41-51 | the outer loop adds the requested number of indices, all distinct and in range, after those already chosen |
| RandGraph.BuildRandGraph | part4/main.cpp:21-54 | too many edges is reported exactly when `E > V(V-1)/2`; a built graph comes with `E` distinct candidate indices |
| RandGraph.BuiltHolds | part4/main.cpp:41-51 | each list holds each neighbour at most once, exactly for the chosen pairs, and the lists total twice the number chosen |
| RandGraph.BuiltGraph | part4/main.cpp:21-54 | the result is a valid, simple, undirected graph on `V` vertices whose lists total `2E` |
| RandGraph.PickedPairs | part4/main.cpp:35-48 | every chosen pair joins two different vertices of the graph |
| Factory.Code | part7/factory.hpp:8-13 | the enum values run from `MST = 1` to `MAX_FLOW = 4` |
| Factory.Create | part7/factory.cpp:4-12 | `create(k)` gives a strategy exactly for `1 <= k <= 4`, the one whose enum value is `k`, and null otherwise |
| Factory.CreateCode | part7/factory.cpp:4-12 | every strategy is created from its own enum value |
| Pipeline.PushPop | part9/pipling.hpp:46-60 | `pop` after `push` returns the front, or the pushed item when the queue was empty: FIFO |
| Pipeline.ExpectedFull | part9/pipling.cpp:40-82 | a fresh result that passes the four stages in order holds all four algorithms' answers |
| Pipeline.StageChangesOneField | part9/pipling.cpp:46-80 | each stage sets its own field of the result and leaves the other three as they were |
| Pipeline.StepMoves | part9/pipling.cpp:40-82 | one stage iteration pops its queue's front, pushes one item to the next queue, stops exactly on the sentinel and touches no other queue |
| Pipeline.RunMoves | part9/pipling.cpp:40-82 | a stage's loop forwards everything up to and including the first sentinel, and stops exactly when it met one |
| Pipeline.FrontSentinel | part9/pipling.cpp:45 | a stage that pops the sentinel pushes it on and ends |
| Pipeline.SubmitLast | part9/pipling.cpp:25-29 | `submit` adds its graph after every job already in flight |
| Pipeline.StartedOpen | part9/pipling.cpp:8-13 | after `start()` no job is in flight and every stage runs |
| Pipeline.SettleKeepsOrder | part9/pipling.cpp:40-82 | letting the stages run keeps the jobs in submission order |
| Pipeline.Take | part9/pipling.cpp:32-37 | `get`'s loop skips sentinels, returns the first real job's result, and finds none exactly when only sentinels are queued |
| Pipeline.GetOldest | part9/pipling.cpp:32-37 | `get` returns the full result of the oldest job submitted and not yet returned, and returns nothing exactly when none is in flight |
| Pipeline.StopHalts | part9/pipling.cpp:16-22 | `stop()` drives the sentinel through all four stages; they all end with empty queues, and the jobs in flight wait on the output queue in order |
| Pipeline.StopAgain | part9/pipling.cpp:5 | a second `stop()`, as from the destructor, only appends another sentinel to the first queue |
| Pipeline.ServeOne | part9/server.cpp:82-87 | start, submit, get, stop: `get` returns the full result of the graph, and afterwards every stage has ended with nothing left in flight |
| Wire.ReadExact | part9/server.cpp:27-36 | `read_exact(n)` succeeds exactly when `n` bytes arrive before end of file or an error, retries interrupted reads, and takes exactly `n` bytes off the stream |
| Wire.Decode32Encode32 | part9/client.cpp:54-80 | an `int` the client writes is read back as the same `int` |
| Wire.Encode32Decode32 | part9/server.cpp:54-75 | every four bytes the server reads are the bytes of the `int` they hold |
| Wire.ReadIntWritten | part9/server.cpp:54 | reading an `int` off a stream that starts with a written `int` gives that `int` and leaves what follows |
| Wire.DecodeEncodeInts | part9/server.cpp:54-75 | a sequence of written `int`s is read back one `read_exact` at a time as the same sequence |
| Codec.SendRequest | part9/client.cpp:44-85 | the selector written is in `[0, 2]`, the client goes on exactly when it is not 0, and only a prefix of the input is consumed |
| Codec.SkipRejected | part9/client.cpp:48-51 | a selector outside `[0, 2]` is dropped and the client asks again |
| Codec.SendRequestWrites | part9/client.cpp:44-85 | after any rejected selectors, a request's input produces exactly that request's `int`s, with the pair list ended by `-1 -1` |
| Codec.Decode | part9/server.cpp:52-80 | a decoded request has no `-1 -1` pair inside its edge list, a non-negative vertex count, and is followed in the stream by exactly what is left; an unknown selector is one outside `[0, 2]` |
| Codec.ReadPairsEdges | part9/server.cpp:63-69 | the edge loop reads back every written pair and stops at `-1 -1` |
| Codec.DecodeEncode | part9/server.cpp:52-80 | what the client writes for a request (vertex count and edge list included) is read back as the same request, and whatever follows is left alone |
| Codec.DecodeCut | part8/server.cpp:70-90 | any strict prefix of a request's `int`s is a short read |
| Codec.BuildGraph | part9/server.cpp:61-68 | the graph of an edge-list request is valid, directed, and has the requested vertex count |
| Codec.BuildGraphLists | part9/server.cpp:61-68 | each list is the heads of the in-range edges leaving that vertex, in request order |
| Handling.TargetOf | part9/server.cpp:58-75 | selector 1 gives a valid directed graph on the requested vertices; selector 2 gives a valid undirected one, or too many edges exactly when `E > V(V-1)/2` |
| Text.ParseIntToString | part9/server.cpp:11-20 | every printed number reads back as itself |
| Text.ParseComponentLine | part9/server.cpp:15-19 | a component line (every vertex followed by a space) reads back as the component |
| Text.ToStringDelimited | part9/server.cpp:9-24 | the reply ends in `}` and holds no other `}` |
| Text.ReplyReadBack | part9/server.cpp:9-24 | the reply's lines give back MST weight, clique count, each component and max flow, in that order |
| Text.ParseAdjacencyLine | part8/server.cpp:14-18 | an adjacency line `u: v1 v2 ...` reads back as the vertex and its list in stored order |
| Text.AllTextDelimited | part8/server.cpp:9-39 | the part8 reply ends in `}` and holds no other `}` |
| Text.AllTextReadBack | part8/server.cpp:9-39 | the part8 reply's lines give back every adjacency list, then MST weight, clique count, each component and max flow |
| Client.RecvUntilDelim | part9/client.cpp:9-41 | the call succeeds exactly when the delimiter is in the stash or arrives; `out` is then everything before the first one, and the rest stays for the next call; on failure `out` is untouched |
| Client.StashedMessage | part9/client.cpp:13-20 | with the delimiter already stashed, the message is cut from the stash and no read is made |
| Client.EndOfFile | part9/client.cpp:24-27 | end of file before a delimiter returns false with `out` and the stash unchanged |
| Client.WouldBlockEnds | part9/client.cpp:28-35 | a would-block error returns false and keeps the stash |
| Client.InterruptedRetries | part9/client.cpp:30 | an interrupted read is retried with nothing changed |
| Client.ChunkAppends | part9/client.cpp:39 | the bytes read are appended to the stash before the search is repeated |
| Client.ReceiveReply | part9/client.cpp:98-107 | however the part9 reply is cut into reads, the client gets the whole reply without its brace and keeps what came after |
| Client.ReceiveAllText | part9/client.cpp:98-107 | the same for the part8 reply |
| PipelineServer.ServeFull | part9/server.cpp:82-92 | a served graph's reply is the printed full pipeline result, and the rest of the stream is left alone |
| PipelineServer.Handle | part9/server.cpp:52-94 | a reply is delimited and only the request's `int`s are consumed; a stop is reported only for selector 0 |
| PipelineServer.HandleQuit | part9/server.cpp:76-77 | selector 0 returns false without writing |
| PipelineServer.HandleUnknown | part9/server.cpp:78-80 | any other unknown selector throws before anything is written |
| PipelineServer.HandleTruncated | part9/server.cpp:54-75 | a stream cut anywhere inside a request returns false without writing |
| PipelineServer.HandleEdgeList | part9/server.cpp:58-69 | an edge-list request is answered with the pipeline's full result on the directed graph it names |
| PipelineServer.HandleTooManyEdges | part9/server.cpp:70-75 | a random-graph request for more edges than vertex pairs throws |
| PipelineServer.HandleRandomGraph | part9/server.cpp:70-92 | a random-graph request is answered with the full result on the graph `buildRandGraph(edges, vertices, seed)` gives |
| PipelineServer.EndToEnd | part9/server.cpp:52-92 | a graph typed into the client is written, read back by the server, answered, and the client reads back every number of the answer |
| DirectServer.Respond | part8/server.cpp:96-99 | a reply is written exactly when a graph was built within the model's bounds; a construction error is raised as is |
| DirectServer.Handle | part8/server.cpp:69-99 | each reply is delimited and consumes only its request's `int`s; a stop is reported only for selector 0 |
| DirectServer.RunQuit | part8/server.cpp:71 | selector 0 ends the session with no reply |
| DirectServer.RunServes | part8/server.cpp:68-100 | a sequence of requests ending in selector 0 gets one reply per request, in order |
| DirectServer.RunTruncated | part8/server.cpp:70-90 | a stream cut inside a request gets the replies before it and then ends without writing |
| DirectServer.RunUnknown | part8/server.cpp:92-94 | an unknown selector after served requests throws after their replies |
| DirectServer.RunDelimited | part8/server.cpp:37 | every reply of a session ends in `}` with no other `}` |
| Scenarios.PathBuilt | part9/test_pipling.cpp:19-22 | three `addEdge` calls on four empty lists give the path 0-1-2-3 |
| Scenarios.PathMst | part9/test_pipling.cpp:29 | the path's MST weight is 3 |
| Scenarios.PathSccs | part9/test_pipling.cpp:32-35 | the path has one strongly connected component, holding 0, 1, 2 and 3 |
| Scenarios.PathFlow | part9/test_pipling.cpp:36 | the path's flow from 0 to 3 is 1 |
| Scenarios.PathPipeline | part9/test_pipling.cpp:24-36 | submitted to a started pipeline, the path gets MST weight 3, 7 cliques, flow 1, and one component with all four vertices |
| Scenarios.PathCliqueSets | part7/graph.cpp:183-209 | the sets counted on the path are exactly its four single vertices and its three edges |
| Scenarios.PathCliqueCount | part9/test_pipling.cpp:30 | `countCliques` on the path gives 7 |

## Left out

- The leader/followers acceptor (part8/lf.cpp) is not modelled: it is concurrency and socket plumbing.
- Threads, mutexes and condition variables in the pipeline are left out. Queues are sequences and stages are explicit steps. `pop` blocking on an empty queue becomes a stage loop that stops when its queue is empty.
- Sockets, `bind_listen`, `write_all`, `main` functions and console output are left out. Both servers ignore a failed `write_all`, so the model's reply is the text that would be written.
- The 1024-byte buffer of `recv_until_delim` is not modelled. A read may return a chunk of any length, which covers every buffer size. A real read of 0 bytes is end of file; the model's empty chunk stands for no real read and delivers nothing.
- `rand()`/`srand()` are replaced by the sequence of numbers drawn for each seed; the generator itself is not modelled.
- The part7 server and client, the part6 Euler server and client, the console drivers, `printGraph`, `printCircuit` and the strategy classes are not modelled. The strategies only print, and their one rule (sink `n - 1`) is part of `Pipeline.Full`.
- Integer overflow is not modelled. Integers are unbounded, so `1 << n` for `n > 30`, `numOfVartx * (numOfVartx - 1)` in `buildRandGraph` for more than 46341 vertices (part4/main.cpp:23), and `minEdge[0]` on an empty graph are outside what the model's algorithms are defined on.
- Mst.MstWeightConnected: for a disconnected graph, the source adds `INT_MAX` into an `int` total, which overflows. The model adds unbounded integers, so it only states that the total reaches `n - 2 + INT_MAX`.
- Cliques.CliqueCountBounds: needs `n <= 30` because of `1 << n`. Bounds on larger graphs are not stated.
- Scc.SccMembersReachRoot: only states that members reach the root in the original graph. The converse, that the root reaches every member, is not proved, so a component's strong connectivity is stated only through Scc.SccKeepsCyclesTogether and Scc.LaterReachesEarlier.
- Euler.EulerCircuitFound: needs a simple graph. Line 131 of part3/graph.cpp erases every copy of `v` from the list of `u`, so a parallel edge is dropped unwalked and the result stops being a walk (Euler.ParallelEdgesNoWalk), and one step along a self-loop erases both of its list entries. Multigraphs and self-loops are therefore outside the lemma.
- MaxFlow.MaxFlowBounds: states bounds and the zero case, not that the result equals the minimum cut.
- `maxFlow` is modelled only for `source != sink` inside the graph. Its loop never ends when they are equal, which the servers' call `maxFlow(0, n - 1)` hits with one vertex; with no vertices the sink is -1 and `bfsFlow` indexes empty vectors (part7/graph.cpp:268-269). Both cases get the `OutsideModel` outcome.
- RandGraph.BuildRandGraph: the redraw loop may never end. The model stops with `Exhausted` when the numbers drawn for the seed run out.
- The tests that expect `addEdge` on an out-of-range vertex to throw, `getNeighbors(5)` to throw, an edgeless graph to fail `hasEulerCircuit`, and `removeAllEdges` to leave empty lists disagree with the code. So does the directed four-cycle test (part4/test.cpp:111-116), which expects a circuit: the check demands an even list length on a directed graph too, so the result is empty and the test's `.at(2)` fails. The model follows the code.
- The getopt argument parsing in part4/main.cpp is left out, as command-line handling.
