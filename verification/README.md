# Verified algorithm cores

A Dafny model of the algorithmic cores of a Rust workspace, with proofs of what
each core promises. Every module models one component:

| file | component |
|---|---|
| `Graph.dfy`, `Walks.dfy` | the adjacency-list graph; walks, cost, reachability, strong components |
| `Tarjan.dfy`, `Kosaraju.dfy` | the two strong-component algorithms, and their agreement |
| `GraphSearch.dfy` | breadth-first and depth-first order |
| `Heap.dfy`, `Relaxation.dfy`, `Dijkstra.dfy`, `AStar.dfy` | shortest paths with a lazy heap, and with reopening |
| `PageRank.dfy`, `SteadyRank.dfy` | PageRank over the reals, and the limit of its iterations |
| `FmIndex.dfy` | suffix array, Burrows-Wheeler transform, backward search |
| `Reasoning.dfy`, `Derivations.dfy`, `Transitivity.dfy` | the forward-chaining engine, what it can derive, and what it makes of a transitivity rule |
| `TaskGraph.dfy` | cycle rejection, topological sort, critical path |
| `Merkle.dfy`, `Lsm.dfy` | the Merkle tree and the log-structured merge tree |
| `Identity.dfy` | edit distance and the fuzzy alias lookup |
| `Traversal.dfy` | the depth-bounded multi-source traversal |
| `EventStore.dfy` | the versioned in-memory event store, replay and snapshots |
| `TaskQueue.dfy` | the priority queue of the collection fabric |
| `Base64.dfy` | the base64 codec |
| `Sorting.dfy`, `Options.dfy`, `Bytes.dfy`, `Numbers.dfy`, `Linking.dfy` | shared definitions |

Structures whose methods update their fields are classes; loops are loops,
proved against specification functions or predicates about which the lemmas
speak. Recursive helpers that thread `&mut` state (`strongconnect`, `dfs1`,
`dfs2`, `dfs_recursive`, `longest_path_cost`) take that state in and hand it
out as values, which an exclusive borrow amounts to. Where the source iterates
over a hash map the model picks an arbitrary next key, so what is proved holds
for every order. Library sorting, `BTreeMap` and `BinaryHeap` are specified by
what they return. A method that runs under one lock is one atomic step.
Weights, costs and ranks are real numbers; machine integers are unbounded
except for the `u32` cells of the edit distance.

Findings that stand out:

- `enqueue` documents (`crates/fabric/src/queue.rs:198-199`) that an id already
  processed is rejected, but the code looks only at the ids still queued
  (line 202). The model follows the code: `TaskQueue.ProcessedIdReturns` is a
  run against the rule, and the contract of `TaskQueue.PriorityQueue.Enqueue`
  says of exactly which calls the rule holds.
- The FM-index finds exactly the occurrences of every pattern without NUL. A
  pattern with NUL is followed across NULs in the order of the suffixes, which
  is not the order of the text: `FmIndex.Search` states the answer for every
  text and pattern, `FmIndex.NulStepIff` when one step is exact,
  `FmIndex.FaithfulIff` for which texts every pattern is read around a circle
  closed by one NUL, and `FmIndex.PlainIff` when the answer is the plain
  occurrences. `FmIndex.SpuriousOccurrence` finds what is not there,
  `FmIndex.MissedOccurrence` misses what is.
- PageRank keeps its total rank exactly when every edge leads to an adjacency
  key or damping is 0 (`PageRank.MassConservedIff`); a vertex that is only an
  edge target has no key and swallows rank (`PageRank.LeakExample`). Below
  damping 1 the ranks converge on every graph (`SteadyRanks.Limit`).
- The reasoning engine stops after ten rounds: it knows what has a derivation
  of height at most ten (`Derivations.RunDerives`), which is all there is when
  the rules lie in at most ten strata (`Derivations.StrataSuffice`) and not for
  eleven rules in a row (`Derivations.ElevenRules`). Of a transitivity rule it
  makes reachability, over chains of up to 1024 facts
  (`Transitivity.TransitiveRun`).
- `dijkstra` handles negative weights: its loop ends exactly when no negative
  cycle is within reach (`Dijkstra.EndsIff`), and then its labels are the
  distances; without negative weights each vertex is expanded once
  (`Dijkstra.SettlesOnce`).
- A Merkle proof does not say whether it is about a leaf: the join of two
  sibling nodes verifies too, and so does what hashes up to a leaf's data.
  `Merkle.VerifiesIff` says exactly what verifies with which proof. As every
  hash into 32 bytes has collisions, the forgery lemmas name between which of
  the texts hashed in verifying and in building there is one.
- The base64 decoder ignores how much padding follows, accepts a lone last
  character and drops non-zero spare bits; `Base64.ReencodeIff` says exactly
  which texts come back unchanged.

## Model

| member | source | states |
|---|---|---|
| `Graphs.Graph.AddEdge` | crates/algorithms/src/graphs.rs:38-44 | an edge is pushed to the end of its source's list, and to its target's exactly when the graph is undirected, all else is kept; the node counter is the least that covers both ends and what it covered |
| `Graphs.Graph.AddNode` | crates/algorithms/src/graphs.rs:46-49 | a node gets a key and keeps whatever edges it had |
| `Graphs.Graph.Nodes` | crates/algorithms/src/graphs.rs:55-59 | exactly the adjacency keys, in strictly ascending order |
| `Graphs.Graph.Transpose` | crates/algorithms/src/graphs.rs:81-90 | every edge reversed, copy for copy, and a key for every vertex mentioned anywhere |
| `Graphs.UndirectedEdgeSymmetric` | crates/algorithms/src/graphs.rs:38-44 | adding an undirected edge keeps each edge matched by as many copies of its mirror image |
| `Walks.ReachesTransposed` | crates/algorithms/src/graphs.rs:81-90 | v reaches u in the transpose exactly when u reaches v |
| `Walks.ExitEdge` | crates/algorithms/src/graphs.rs:164-233 | a walk from inside a set to outside it crosses an edge out of the set, reachable before and after |
| `Walks.PartitionUnique` | crates/algorithms/src/graphs.rs:164-290 | a list of whole strong components covering all vertices is unique up to order |
| `Tarjan.TarjanScc` | crates/algorithms/src/graphs.rs:165-233 | ascending, disjoint components covering keys and edge targets; two vertices share one exactly when mutually reachable; each is emitted after every component it reaches |
| `Tarjan.StrongConnect` | crates/algorithms/src/graphs.rs:174-220 | each call keeps the numbering, stack, low-link and emitted-component invariant, touches nothing earlier, and leaves the low-link of a still stacked node at an older stacked vertex it reaches |
| `Tarjan.TopClosed` | crates/algorithms/src/graphs.rs:190-215 | when the low-link equals the index, no edge leaves the emitted components and the top of the stack |
| `Tarjan.TopIsComponent` | crates/algorithms/src/graphs.rs:203-215 | the part of the stack popped at such a node is exactly one mutual-reachability class |
| `Tarjan.PopInv` | crates/algorithms/src/graphs.rs:203-215 | popping it keeps the invariant of the calls in progress |
| `Tarjan.KeepInv` | crates/algorithms/src/graphs.rs:190-215 | a node with a smaller low-link stays stacked and keeps the invariant |
| `Tarjan.FinalPartition` | crates/algorithms/src/graphs.rs:218-232 | with no call in progress, the emitted lists are the whole partition in reverse topological order |
| `Kosaraju.KosarajuScc` | crates/algorithms/src/graphs.rs:236-290 | the same partition, each component emitted after every component that reaches it |
| `Kosaraju.Dfs1` | crates/algorithms/src/graphs.rs:241-254 | the first pass keeps the finishing-order invariant |
| `Kosaraju.NodeSettled` | crates/algorithms/src/graphs.rs:241-254 | when a vertex finishes, its component still has a call in progress or all it reaches has finished |
| `Kosaraju.AllFinished` | crates/algorithms/src/graphs.rs:236-260 | after the first pass every vertex stands in the order once, and each component has a member that finished after all the component reaches |
| `Kosaraju.Dfs2` | crates/algorithms/src/graphs.rs:266-279 | the second pass gathers vertices the root reaches in the transpose and closes what is taken under edges |
| `Kosaraju.RootIsLast` | crates/algorithms/src/graphs.rs:281-290 | of what is not taken, only the root's own component reaches the root |
| `Kosaraju.ComponentGathered` | crates/algorithms/src/graphs.rs:266-290 | what the second pass gathers from an untaken root is exactly its component |
| `Kosaraju.TarjanKosarajuAgree` | crates/algorithms/src/graphs.rs:165-290 | on every graph both algorithms return the same components, each once; only the order of the list differs |
| `GraphSearch.Bfs` | crates/algorithms/src/graphs.rs:94-112 | every vertex within reach exactly once, hop distance never falling; each next vertex is the first new neighbour of the earliest listed vertex that has one |
| `GraphSearch.Dfs` | crates/algorithms/src/graphs.rs:114-134 | every vertex within reach exactly once, each followed at once by exactly the vertices it reaches without passing through those listed before it; each next vertex is the first new neighbour of the latest listed vertex that has one |
| `GraphSearch.BreadthUnique` | crates/algorithms/src/graphs.rs:94-112 | that rule leaves one breadth-first list for each graph and start |
| `GraphSearch.DepthUnique` | crates/algorithms/src/graphs.rs:114-134 | and one depth-first list |
| `GraphSearch.DfsRecursive` | crates/algorithms/src/graphs.rs:121-134 | a call on an unvisited node adds exactly what it reaches avoiding the visited vertices; a call on a visited node adds nothing |
| `GraphSearch.WalkSeen` | crates/algorithms/src/graphs.rs:94-112 | when the queue is empty, every walk ends at a seen vertex no deeper than the walk is long |
| `GraphSearch.SearchesAgree` | crates/algorithms/src/graphs.rs:94-134 | breadth-first and depth-first search list the same vertices |
| `Heaps.Pop` | crates/algorithms/src/graphs.rs:137-162 | the least entry of the heap and the rest, as the library heap of reversed entries gives |
| `Dijkstra.Dijkstra` | crates/algorithms/src/graphs.rs:137-162 | for weights of any sign: a key for exactly the reachable vertices, each with its true least distance, and predecessor links that lead back to the start over edges of exactly the missing length |
| `Dijkstra.EndsIff` | crates/algorithms/src/graphs.rs:144-160 | the loop ends if and only if no cycle within reach of the start has negative cost |
| `Dijkstra.EndedSearch` | crates/algorithms/src/graphs.rs:137-162 | whenever the heap runs out, whatever the weights, the labels are the true distances of exactly the reachable vertices |
| `Dijkstra.SettlesOnce` | crates/algorithms/src/graphs.rs:144-160 | without negative weights the vertices whose edges are gone through come once each, in order of distance, with their final labels |
| `Dijkstra.DiscardStale` | crates/algorithms/src/graphs.rs:145-149 | dropping an entry pushed before its vertex's label improved loses no vertex |
| `Dijkstra.Settle` | crates/algorithms/src/graphs.rs:144-149 | without negative weights any other popped entry is the only current one of an unsettled vertex that no unsettled vertex is nearer than |
| `Dijkstra.RelaxEdge` | crates/algorithms/src/graphs.rs:150-159 | and going through its edges changes no label of a settled vertex |
| `Dijkstra.WalkBound` | crates/algorithms/src/graphs.rs:137-162 | when no edge improves a label, walks from keys end at keys and are no shorter than the labels differ |
| `Dijkstra.RelaxedCycles` | crates/algorithms/src/graphs.rs:137-162 | labels that no edge improves rule out cycles of negative cost |
| `Dijkstra.ShortestPath` | crates/algorithms/src/graphs.rs:377-398 | no result exactly when the goal is out of reach; otherwise a simple path whose cost is the returned, least distance |
| `Relaxation.ImproveLinks` | crates/algorithms/src/graphs.rs:150-159 | an improvement by either search keeps every vertex linked back to the start over edges no longer than the scores differ, and never improves the start or the vertex whose edges are gone through |
| `Relaxation.PathAvoids` | crates/algorithms/src/graphs.rs:359-371 | an improved vertex is not among those its new predecessor is linked through, so links never run in a circle although stored scores lag behind them |
| `Relaxation.RecordFresh` | crates/algorithms/src/graphs.rs:359-371 | an improved vertex is not on the walk along which the score of the vertex that improves it was computed |
| `Relaxation.SimpleListed` | crates/algorithms/src/graphs.rs:137-162 | simple walks are among finitely many, which bounds the number of improvements of either search |
| `AStar.AStar` | crates/algorithms/src/graphs.rs:333-374 | for any heuristic and weights of any sign without a negative cycle within reach: termination, no result exactly when the goal is out of reach, otherwise a simple real path costing no more than the returned score, which some walk attains; the least cost when the heuristic is admissible (consistency not needed) and not negative at the goal |
| `AStar.Improve` | crates/algorithms/src/graphs.rs:359-371 | an improvement keeps every invariant and records a simple walk never recorded before, so reopening ends |
| `AStar.WaitingOnWalk` | crates/algorithms/src/graphs.rs:347-372 | on every walk to the goal some vertex waits in the open set with a score no worse than the walk so far |
| `AStar.GoalOptimal` | crates/algorithms/src/graphs.rs:347-357 | when the goal is popped, no walk to it is cheaper than its score |
| `AStar.Exhausted` | crates/algorithms/src/graphs.rs:347-374 | when the open set runs out the goal is out of reach |
| `AStar.Reconstruct` | crates/algorithms/src/graphs.rs:348-357 | the links lead back to the start along a simple walk costing at most the goal's score |
| `PageRank.PageRank` | crates/algorithms/src/graphs.rs:293-330 | the loops compute the iterated rank equation over the reals, for any order of the adjacency |
| `PageRank.Received` | crates/algorithms/src/graphs.rs:312-323 | the sum over all edges, in any order of the adjacency, is the inflow of the rank equation |
| `PageRank.NextTotal` | crates/algorithms/src/graphs.rs:301-327 | one iteration takes total t to (1 - d) + d (t - lost), lost being what flows to vertices without a key |
| `PageRank.MassConserved` | crates/algorithms/src/graphs.rs:293-330 | if every edge leads to a key, total rank is exactly 1 after any number of iterations, for any damping |
| `PageRank.MassConservedIff` | crates/algorithms/src/graphs.rs:293-330 | for damping in [0,1] and any one number of iterations of at least 1: the ranks add up to 1 if and only if every edge leads to a key or damping is 0 |
| `PageRank.MassLost` | crates/algorithms/src/graphs.rs:301-327 | with damping in (0,1] and an edge to a vertex without a key, the total is below 1 after every iteration |
| `PageRank.MassAlwaysConservedIff` | crates/algorithms/src/graphs.rs:293-330 | for any damping: the total is 1 after all numbers of iterations if and only if every edge leads to a key or damping is 0 |
| `PageRank.LeakExample` | crates/algorithms/src/graphs.rs:293-330 | one directed edge 0 to 1: only 1 - damping of the rank is left after any number of iterations but none |
| `PageRank.Contraction` | crates/algorithms/src/graphs.rs:301-327 | for damping in [0,1] one iteration shrinks the summed difference of any two rank vectors by at least the factor damping |
| `PageRank.Approach` | crates/algorithms/src/graphs.rs:293-330 | for damping in [0,1], k iterations shrink the difference from any unchanged rank vector by damping to the power k |
| `PageRank.Shrinks` | crates/algorithms/src/graphs.rs:293-330 | for damping in [0,1], what any number of further iterations changes after k iterations is at most damping to the power k times what they change at the start |
| `SteadyRanks.SteadyExists` | crates/algorithms/src/graphs.rs:293-330 | below damping 1, on every graph, some rank vector is left unchanged by an iteration |
| `SteadyRanks.Limit` | crates/algorithms/src/graphs.rs:293-330 | below damping 1, on every graph, the ranks converge to the one unchanged rank vector |
| `PageRank.SteadyUnique` | crates/algorithms/src/graphs.rs:301-327 | below damping 1 at most one rank vector is left unchanged |
| `PageRank.RankFloor` | crates/algorithms/src/graphs.rs:293-330 | for damping in [0,1] no rank is negative, and from the first iteration on each is at least (1 - d)/n |
| `FmIndex.New` | crates/algorithms/src/searching.rs:319-364 | rows list every position of the text plus sentinel once in suffix order (alike up to where one ends or has the smaller byte), with the matching transform, first rows and counts |
| `FmIndex.LfMapping` | crates/algorithms/src/searching.rs:319-364 | the rows preceded by a byte map, in order and without gap, to the rows that start with it; for NUL, to those other than the sentinel's |
| `FmIndex.EarlyRows` | crates/algorithms/src/searching.rs:319-364 | the NULs whose rest sorts no later than the text stand in the first rows, as many as the transform has NULs before the row of the whole text, and the sentinel |
| `FmIndex.AfterNul` | crates/algorithms/src/searching.rs:376-387 | which position the step along NUL takes to follow each NUL row |
| `FmIndex.StepBack` | crates/algorithms/src/searching.rs:376-387 | the step from a row leads to the row of its byte that is followed by it, for every byte of every text |
| `FmIndex.StepInverse` | crates/algorithms/src/searching.rs:376-387 | every row is led to in this way from exactly the row that follows it |
| `FmIndex.BackwardStep` | crates/algorithms/src/searching.rs:376-387 | one step takes the exact rows from which a pattern tail is read to the exact rows of the tail one byte longer, for every byte and every text |
| `FmIndex.StepBounds` | crates/algorithms/src/searching.rs:376-387 | a step keeps the bounds ordered and inside the tables |
| `FmIndex.EmptyStays` | crates/algorithms/src/searching.rs:384-386 | once the interval is empty no longer tail is read anywhere, so stopping early is right |
| `FmIndex.IntervalMatches` | crates/algorithms/src/searching.rs:390-411 | the rows of the final interval are the positions found, each once |
| `FmIndex.CountOccurrences` | crates/algorithms/src/searching.rs:366-388 | for every text and pattern the number of positions from which the pattern is read, 0 for the empty pattern |
| `FmIndex.Search` | crates/algorithms/src/searching.rs:390-411 | for every text and pattern exactly those positions, each once, none for the empty pattern |
| `FmIndex.PlainMatches` | crates/algorithms/src/searching.rs:366-411 | for NUL-free patterns these are the plain substring occurrences |
| `FmIndex.BuildAndSearch` | crates/algorithms/src/searching.rs:319-411 | for every text and every non-empty NUL-free pattern, search returns exactly the occurrences, each once, and count their number |
| `FmIndex.NulStepIff` | crates/algorithms/src/searching.rs:376-387 | for every text: a NUL step from the exact rows of a tail read around the text is exact if and only if a condition on the bounds holds |
| `FmIndex.FaithfulIff` | crates/algorithms/src/searching.rs:366-411 | for every text: every pattern is answered as read around the text if and only if after each NUL whose rest sorts no later than the text, the text reads as from its start |
| `FmIndex.RightIff` | crates/algorithms/src/searching.rs:366-411 | for every text, pattern and position: whether the position is found rightly, exactly when the rest of the pattern does not come apart from the text at the first early NUL that it is read up to |
| `FmIndex.PlainIff` | crates/algorithms/src/searching.rs:366-411 | for every text and pattern: the answer is the plain one if and only if the pattern derails from no position; in a text read around faithfully, if and only if it is not read over the end; in a text without NUL, if and only if it is not a suffix, NUL, laps around the text and a prefix, which occurs nowhere and is found once |
| `FmIndex.SpuriousOccurrence` | crates/algorithms/src/searching.rs:390-411 | building and searching: the text "a" and the pattern "a NUL a", found at 0, occurring nowhere |
| `FmIndex.MissedOccurrence` | crates/algorithms/src/searching.rs:366-411 | building, counting and searching: the text "a NUL NUL" and the same pattern, occurring at 0, found nowhere |
| `Reasoning.MatchTerm` | crates/ai-runtime/src/reasoning.rs:66-87 | matching one term: wildcard, bound variable, free variable, literal |
| `Reasoning.MatchesPattern` | crates/ai-runtime/src/reasoning.rs:44-64 | matching a fact against predicate, subject and optional object |
| `Reasoning.TermMatchIs` | crates/ai-runtime/src/reasoning.rs:66-87 | a match yields the one extension by the term's variable under which the term is met, or fails when there is none |
| `Reasoning.MatchSound` | crates/ai-runtime/src/reasoning.rs:44-64 | the binding of a match meets the pattern and binds exactly its variables besides what was bound |
| `Reasoning.MatchComplete` | crates/ai-runtime/src/reasoning.rs:44-64 | every such binding is found |
| `Reasoning.JoinStep` | crates/ai-runtime/src/reasoning.rs:256-279 | joining with one more condition turns all bindings of a prefix of the conditions into all bindings of the longer prefix |
| `Reasoning.FindAllBindings` | crates/ai-runtime/src/reasoning.rs:249-282 | exactly the bindings of the condition variables under which every condition is met by some fact |
| `Reasoning.ReasoningEngine.AddRule` | crates/ai-runtime/src/reasoning.rs:169-172 | a rule is appended |
| `Reasoning.ReasoningEngine.Reason` | crates/ai-runtime/src/reasoning.rs:175-246 | known facts after k rounds are the k-fold consequence closure of the input; below the limit they are the least fixpoint; no round is wasted; conclusions are the new facts, each once, in chain order; every chain step has a rule and a binding under which its sources, all known facts that meet a condition, meet all conditions together and its fact reads like the rule's conclusion |
| `Reasoning.StepApplies` | crates/ai-runtime/src/reasoning.rs:191-223 | a step so logged reads like its rule's conclusion, each bound variable replaced by its value |
| `Reasoning.ConsequenceMonotone` | crates/ai-runtime/src/reasoning.rs:175-246 | more facts never take a conclusion away |
| `Reasoning.ClosureLeast` | crates/ai-runtime/src/reasoning.rs:227-233 | when a round adds nothing the closure is the least set above the input closed under the rules |
| `Reasoning.ClosureReached` | crates/ai-runtime/src/reasoning.rs:180-233 | for all rules and facts the closure is reached after at most as many rounds as there are facts that can be written with the texts and confidences at hand |
| `Derivations.KnownIff` | crates/ai-runtime/src/reasoning.rs:175-246 | a fact is known after k rounds if and only if a derivation tree of height at most k concludes it, for all rules and facts |
| `Derivations.RunDerives` | crates/ai-runtime/src/reasoning.rs:175-246 | for every run: the facts known at the end are exactly those with a derivation tree no higher than the limit, and they are the least fixpoint if and only if every derivable fact has such a tree |
| `Derivations.StrataClose` | crates/ai-runtime/src/reasoning.rs:180-233 | rules whose conclusions lie above their conditions, in d strata, reach the fixpoint in d rounds from any facts |
| `Derivations.StrataSuffice` | crates/ai-runtime/src/reasoning.rs:150-166 | so every run with at most as many strata as the limit, which the source sets to 10, returns the least fixpoint |
| `Derivations.ChainIff` | crates/ai-runtime/src/reasoning.rs:180-233 | a run over n rules in a row returns the least fixpoint if and only if n is at most the limit |
| `Derivations.ElevenRules` | crates/ai-runtime/src/reasoning.rs:150-246 | eleven rules in a row: the engine stops after 10 rounds without the last fact, which is derivable |
| `Transitivity.RuleDraws` | crates/ai-runtime/src/reasoning.rs:191-196 | the transitivity rule draws from some facts exactly what two facts in a row say |
| `Transitivity.RoundsDouble` | crates/ai-runtime/src/reasoning.rs:180-233 | after k rounds a is known to be a c if and only if a chain of 1 to 2^k input facts leads from a to c |
| `Transitivity.FixpointIsReach` | crates/ai-runtime/src/reasoning.rs:175-246 | for any list of facts: in the least fixpoint a is a c if and only if a chain of input facts leads from a to c |
| `Transitivity.TransitiveRun` | crates/ai-runtime/src/reasoning.rs:150-246 | a run over any facts knows exactly what chains of up to 1024 of them say |
| `Transitivity.RustExample` | crates/ai-runtime/src/reasoning.rs:320-344 | the engine concludes that Rust is a programming_language |
| `Reasoning.SourcesSuffice` | crates/ai-runtime/src/reasoning.rs:205-223 | the source facts logged for a step suffice to derive it by its rule |
| `Reasoning.RoundEnd` | crates/ai-runtime/src/reasoning.rs:184-233 | a round adds exactly the immediate consequences, and none exactly when the known facts are closed |
| `Reasoning.NovelIs` | crates/ai-runtime/src/reasoning.rs:235-239 | filtering the input out of the known facts leaves the derived ones in order |
| `TaskGraphs.TaskGraph.AddTask` | crates/algorithms/src/scheduling.rs:214-229 | a fresh id, a new task, no links changed, and the graph stays well formed |
| `TaskGraphs.TaskGraph.AddDependency` | crates/algorithms/src/scheduling.rs:231-244 | unknown tasks are refused; a link between known tasks is refused if and only if it would close a cycle; otherwise it is pushed to the end of one list in each table |
| `TaskGraphs.TaskGraph.CreatesCycle` | crates/algorithms/src/scheduling.rs:246-263 | the stack search finds the target exactly when a chain of dependents leads to it |
| `TaskGraphs.CycleIff` | crates/algorithms/src/scheduling.rs:231-263 | a link closes a cycle exactly when its ends are already joined the other way |
| `TaskGraphs.AddRanked` | crates/algorithms/src/scheduling.rs:231-244 | after an accepted link there is still a rank that grows from every task to its dependents |
| `TaskGraphs.RankedAcyclic` | crates/algorithms/src/scheduling.rs:231-263 | every reachable graph is acyclic, as its rank shows |
| `TaskGraphs.AddConverse` | crates/algorithms/src/scheduling.rs:238-242 | the two tables stay exact converses, with multiplicity |
| `TaskGraphs.TaskGraph.MarkCompleted` | crates/algorithms/src/scheduling.rs:265-269 | only the named task is marked |
| `TaskGraphs.TaskGraph.ReadyTasks` | crates/algorithms/src/scheduling.rs:275-287 | exactly the incomplete tasks whose dependencies are all complete, each once |
| `TaskGraphs.SomeTaskReady` | crates/algorithms/src/scheduling.rs:275-287 | work never stalls: no task is ready exactly when all are complete |
| `TaskGraphs.LongestPathCost` | crates/algorithms/src/scheduling.rs:301-318 | termination, a memo that always holds largest chain costs, and the largest sum of cost fields along a chain that starts at the task |
| `TaskGraphs.LongestFromBest` | crates/algorithms/src/scheduling.rs:301-318 | a task's cost plus the best of 0 and its dependents is its largest chain cost |
| `TaskGraphs.CriticalIs` | crates/algorithms/src/scheduling.rs:289-299 | the maximum over the tasks is the maximum over all chains |
| `TaskGraphs.TaskGraph.CriticalPathCost` | crates/algorithms/src/scheduling.rs:289-299 | the largest sum of cost fields along any chain, the empty one included, in any order of the tasks; at least the cost of every task, and of every two linked tasks together |
| `TaskGraphs.TaskGraph.CriticalAfterCompletion` | crates/algorithms/src/scheduling.rs:265-299 | completing a task leaves it alone |
| `TaskGraphs.TaskGraph.CriticalAfterDependency` | crates/algorithms/src/scheduling.rs:231-299 | adding a dependency never lowers it |
| `TaskGraphs.SumsAre` | crates/algorithms/src/scheduling.rs:301-318 | adding the cost fields up one by one along a chain gives the chain's cost |
| `TaskGraphs.TopologicalSort` | crates/algorithms/src/scheduling.rs:335-366 | every task exactly once, after all its dependencies |
| `TaskGraphs.CountersStep` | crates/algorithms/src/scheduling.rs:354-363 | a counter never goes below zero, so the saturating subtraction never saturates |
| `TaskGraphs.AllPlaced` | crates/algorithms/src/scheduling.rs:350-365 | when the queue is empty no task is left over |
| `TaskGraphs.TaskGraph.Sort` | crates/algorithms/src/scheduling.rs:320-366 | the sort of any reachable graph |
| `Merkle.PairUp` | crates/algorithms/src/storage.rs:45-53 | left and right neighbour are hashed together in this order and an odd last node is promoted as it is |
| `Merkle.MerkleTree.Build` | crates/algorithms/src/storage.rs:35-58 | levels from the leaves to a single root, each pairing up the one below; the root is the hash of the leaves from above, split at the largest power of two below their number |
| `Merkle.RootIsTreeHash` | crates/algorithms/src/storage.rs:35-58 | so the root of every finished tree, from pairing with odd promotion, is this hash from above |
| `Merkle.PairingKeeps` | crates/algorithms/src/storage.rs:45-53 | one level of pairing does not change it |
| `Merkle.MerkleTree.FromData` | crates/algorithms/src/storage.rs:21-28 | the built tree over the hashes of the data |
| `Merkle.MerkleTree.VerifyProof` | crates/algorithms/src/storage.rs:68-79 | the digest climbs from the data's hash, each sibling joined on the side it stands on, and is compared with the root; spelled out for a single step on either side |
| `Merkle.MerkleTree.GenerateProof` | crates/algorithms/src/storage.rs:81-95 | none exactly for a leaf out of range or an unbuilt tree; otherwise the siblings of the leaf and its ancestors, which in a built tree verify for the leaf's data and are at most ceil(log2 n) |
| `Merkle.FoldToAncestor` | crates/algorithms/src/storage.rs:68-95 | folding the first k siblings into a leaf gives its ancestor k levels up, odd nodes included |
| `Merkle.LevelSize` | crates/algorithms/src/storage.rs:35-58 | level k of n leaves has ceil(n / 2^k) nodes |
| `Merkle.Height` | crates/algorithms/src/storage.rs:35-58 | the height is the least h with n at most 2^h |
| `Merkle.DataForgery` | crates/algorithms/src/storage.rs:68-79 | other data, or other siblings, that verify along the directions of a proof: the two verifications hash two different texts to one digest at one and the same step |
| `Merkle.FoldForgery` | crates/algorithms/src/storage.rs:68-79 | the same for any two digests and sibling lists that fold to one digest |
| `Merkle.Soundness` | crates/algorithms/src/storage.rs:68-79 | of whatever verifies in a built tree, with any proof: some step of the verification hashes a leaf's data, or the data is the join of two sibling nodes, and the rest of the proof is the way up from there; or else a step hashes another text than the tree has at a named place, to the same digest |
| `Merkle.OnlyLeavesVerify` | crates/algorithms/src/storage.rs:68-95 | if neither what is verified nor any leaf is of 64 bytes, only a leaf's data with the very proof generated for it verifies, unless verifying and building hash two different texts to one digest |
| `Merkle.PathVerifies` | crates/algorithms/src/storage.rs:68-95 | the siblings on the way up from any node fold it to the root |
| `Merkle.PathIsProof` | crates/algorithms/src/storage.rs:81-95 | from a leaf these siblings are the proof that is generated for it |
| `Merkle.InnerVerifies` | crates/algorithms/src/storage.rs:68-95 | the join of any two sibling nodes does verify, with the way up from their parent |
| `Merkle.Completeness` | crates/algorithms/src/storage.rs:68-95 | whatever Soundness lists but a clash verifies, with that very proof |
| `Merkle.VerifiesIff` | crates/algorithms/src/storage.rs:68-95 | for every data and proof: genuine ones verify, and if no text hashed by the verification and other text hashed in building share a digest, nothing else does |
| `Merkle.RootBinds` | crates/algorithms/src/storage.rs:21-58 | two different data lists of the same length have the same root only if building the two trees hashes different texts to one digest for one and the same place |
| `Lsm.LsmTree.Insert` | crates/algorithms/src/storage.rs:336-341 | the map the tree stands for gets the key, also when the insert flushes |
| `Lsm.LsmTree.Get` | crates/algorithms/src/storage.rs:343-353 | last write wins |
| `Lsm.LsmTree.Flush` | crates/algorithms/src/storage.rs:360-369 | the map is unchanged, the memtable is below its limit again |
| `Lsm.LsmTree.Compact` | crates/algorithms/src/storage.rs:371-392 | the map of the tables is unchanged, chunked or not, every table has at most twice the memtable limit, and more than three tables are disjoint and as few as the limit allows |
| `Lsm.LsmTree.SstableCount` | crates/algorithms/src/storage.rs:398-400 | never more than three tables, or than the entries held divided by the memtable limit, rounded up |
| `Lsm.LsmTree.RangeScan` | crates/algorithms/src/storage.rs:410-421 | exactly the entries of the closed range, in strictly ascending key order |
| `Lsm.LsmTree.ScanAgrees` | crates/algorithms/src/storage.rs:343-421 | a scan lists a key if and only if it is in the range and a lookup finds it, and with what the lookup returns |
| `Lsm.LsmTree.ScanInParts` | crates/algorithms/src/storage.rs:410-421 | scanning a range in two parts gives what one scan gives |
| `Lsm.NewestDecides` | crates/algorithms/src/storage.rs:343-353 | tables above the newest that holds a key do not matter |
| `Lsm.ChunkEnd` | crates/algorithms/src/storage.rs:378-390 | the chunks of a listing layer up to the map that was listed |
| `Identity.LevenshteinDistance` | crates/knowledge/src/identity.rs:120-135 | the two-row table computes the edit distance, without overflow |
| `Identity.DistanceIsLeast` | crates/knowledge/src/identity.rs:120-135 | the recurrence is the cost of a cheapest insert, delete and substitute script |
| `Identity.DistanceZero` | crates/knowledge/src/identity.rs:120-135 | distance zero exactly for equal texts |
| `Identity.DistanceSymmetric` | crates/knowledge/src/identity.rs:120-135 | symmetric |
| `Identity.DistanceTriangle` | crates/knowledge/src/identity.rs:120-135 | triangle inequality |
| `Identity.Compose` | crates/knowledge/src/identity.rs:120-135 | two scripts in a row make one of no greater cost |
| `Identity.IdentityResolver.Register` | crates/knowledge/src/identity.rs:55-61 | the identity is stored, its aliases point to it and all others are kept |
| `Identity.IdentityResolver.FuzzyResolve` | crates/knowledge/src/identity.rs:89-105 | every alias within the threshold once, as namespace:alias:id with its distance, smallest distance first |
| `Identity.HitsAreNear` | crates/knowledge/src/identity.rs:89-105 | two hits of one lookup are at most twice the threshold apart |
| `Traversal.TraverseBfs` | crates/gpu/src/cpu.rs:115-150 | exactly the vertices at undirected distance 1 to depth from the start set, each once, distances never falling |
| `Traversal.BuildLists` | crates/gpu/src/cpu.rs:116-124 | the lists hold exactly the neighbours over edges in either direction |
| `Traversal.VisitNew` | crates/gpu/src/cpu.rs:139-146 | visiting a new neighbour keeps queue levels, true walks and result order |
| `Traversal.WalkVisited` | crates/gpu/src/cpu.rs:126-149 | once the queue is empty, every walk within the depth ends at a vertex visited no deeper |
| `EventStore.InMemoryEventStore.Append` | crates/core/src/event_store.rs:435-464 | accepted exactly when the version is the next of its aggregate; a conflict names expected and given version and changes nothing; both indexes stay filters of the log |
| `EventStore.InMemoryEventStore.ReadEvents` | crates/core/src/event_store.rs:466-477 | the aggregate's events in log order |
| `EventStore.InMemoryEventStore.ReadAll` | crates/core/src/event_store.rs:479-490 | the type's events in log order |
| `EventStore.InMemoryEventStore.ReadSinceVersion` | crates/core/src/event_store.rs:503-525 | what follows the first v events of the aggregate |
| `EventStore.InMemoryEventStore.LatestVersion` | crates/core/src/event_store.rs:527-534 | the number of the aggregate's events |
| `EventStore.InMemoryEventStore.Count` | crates/core/src/event_store.rs:536-543 | the number of the type's events |
| `EventStore.InMemoryEventStore.Clear` | crates/core/src/event_store.rs:550-556 | log and indexes empty |
| `EventStore.PositionsFilter` | crates/core/src/event_store.rs:466-490 | reading through an index gives the filter of the log |
| `EventStore.AppendVersioned` | crates/core/src/event_store.rs:435-464 | an accepted event keeps every aggregate numbered 1..n |
| `EventStore.SinceIsRest` | crates/core/src/event_store.rs:503-525 | of events numbered 1..n, those after version v are the rest after the first v |
| `EventStore.Replay` | crates/core/src/event_store.rs:655-661 | from the initial state each state is what applying the next event makes of the one before, and the last is returned |
| `EventStore.FoldIsLast` | crates/core/src/event_store.rs:655-661 | the fold is the last of such a list of states, whatever the list |
| `EventStore.FoldConcat` | crates/core/src/event_store.rs:655-661 | replay of two lists in turn is replay of both |
| `EventStore.CatchUp` | crates/core/src/event_store.rs:503-525 | a snapshot after v events caught up with the events since v equals full replay |
| `EventStore.ReachableVersioned` | crates/core/src/event_store.rs:435-464 | under any interleaving of clients that read a version and then append, versions run 1..n |
| `EventStore.NoLostUpdate` | crates/core/src/event_store.rs:435-464 | an append after a read is accepted exactly when nobody else's event of that aggregate came in between; a rejected one changes nothing |
| `EventStore.Clients.Do` | crates/core/src/event_store.rs:435-464 | one call on the store itself, a look through `latest_version` or a try through `append`, is one step of the interleaving model |
| `EventStore.Clients.DoAll` | crates/core/src/event_store.rs:435-464 | so every sequence of calls is a run of it |
| `EventStore.Clients.LookThenTry` | crates/core/src/event_store.rs:435-534 | on the store itself: a client looks, anything happens, the client appends; accepted exactly when no event of the aggregate was taken in between, and otherwise nothing changes |
| `EventStore.RunClients` | crates/core/src/event_store.rs:435-534 | from an empty store, whatever clients do, versions run 1..n and the indexes are filters of the log |
| `TaskQueue.BubbleUp` | crates/fabric/src/queue.rs:312-321 | restores the heap above one position, keeping the entries |
| `TaskQueue.BubbleDown` | crates/fabric/src/queue.rs:323-341 | restores the heap below one position, keeping the entries |
| `TaskQueue.SwapUp` | crates/fabric/src/queue.rs:312-321 | one swap moves the only possible violation to the parent |
| `TaskQueue.SwapDown` | crates/fabric/src/queue.rs:323-341 | one swap with the smaller child moves the only possible violation to it |
| `TaskQueue.RootLeast` | crates/fabric/src/queue.rs:144-153 | in a heap no entry comes before the root |
| `TaskQueue.PriorityQueue.Enqueue` | crates/fabric/src/queue.rs:200-219 | a queued id is refused and nothing changes; any other task joins with the next arrival number; heap shape, id index and seen ids are kept; the rule that a processed id is refused too holds of a call if and only if the id is queued or never arrived |
| `TaskQueue.PriorityQueue.Dequeue` | crates/fabric/src/queue.rs:222-235 | none exactly when empty; otherwise the one entry before all others leaves, and its id with it: critical if anything critical was queued, else high if anything high was, down to background, and of its priority the first to arrive |
| `TaskQueue.PriorityQueue.Peek` | crates/fabric/src/queue.rs:239-246 | what the next dequeue returns |
| `TaskQueue.ProcessedIdReturns` | crates/fabric/src/queue.rs:198-235 | enqueue, dequeue and enqueue of one id: accepted, against the documented rule |
| `TaskQueue.Drain` | crates/fabric/src/queue.rs:222-235 | dequeuing until nothing is left returns every queued task once: all critical, then all high, medium, low and background ones, each group in order of arrival |
| `TaskQueue.DrainOrder` | crates/fabric/src/queue.rs:144-153 | draining returns every task once, by priority, and first come first served within one |
| `TaskQueue.DrainUnique` | crates/fabric/src/queue.rs:222-235 | draining is deterministic |
| `TaskQueue.RunConserves` | crates/fabric/src/queue.rs:200-235 | in every run each task that arrived was returned or is queued, never both |
| `TaskQueue.RunServesInOrder` | crates/fabric/src/queue.rs:200-235 | in every run a returned task comes before all that had arrived and were not returned |
| `TaskQueue.RunUrgency` | crates/fabric/src/queue.rs:144-153 | in every run, by the priorities' names: what is returned is as urgent as anything still waiting, and of two of one priority the earlier is returned |
| `TaskQueue.RunFifo` | crates/fabric/src/queue.rs:200-235 | in every run, within one priority no task overtakes an earlier one |
| `Base64.Encode` | crates/drivers/src/filesystem.rs:216-244 | section 4 of RFC 4648: the six-bit groups spell the data followed by zero bits, in the alphabet of table 1, padded to 4 * ceil(n/3) |
| `Base64.Decode` | crates/drivers/src/filesystem.rs:257-276 | the characters before the padding spell the bytes, or the first of them outside the alphabet is reported |
| `Base64.AlphabetValue` | crates/drivers/src/filesystem.rs:246-255 | encoder and decoder tables are table 1 of RFC 4648 and its inverse |
| `Base64.SixRoundTrip` | crates/drivers/src/filesystem.rs:278-287 | decoding an encoded six-bit value gives it back |
| `Base64.TripleBits` | crates/drivers/src/filesystem.rs:218-242 | the bytes and the six-bit groups of a 24-bit number spell the same bits |
| `Base64.RoundTrip` | crates/drivers/src/filesystem.rs:216-287 | decoding an encoding gives the data back, for all data |
| `Base64.EncodingUnique` | crates/drivers/src/filesystem.rs:216-244 | data has one encoding |
| `Base64.DecodingUnique` | crates/drivers/src/filesystem.rs:257-276 | one answer for each text, an error exactly when a character before the padding is not in the alphabet |
| `Base64.ReencodeIff` | crates/drivers/src/filesystem.rs:216-287 | for every text that decodes, encoding gives it back if and only if it is canonically padded with zero spare bits |
| `Base64.PaddingIgnored` | crates/drivers/src/filesystem.rs:257-258 | trailing padding makes no difference to the decoder |
| `Base64.LoneCharacter` | crates/drivers/src/filesystem.rs:257-276 | "Q", which RFC 4648 does not allow, decodes to one byte |

## Left out

- Lsm.LsmTree.constructor: asks for a memtable limit of at least 1. With 0 the source accepts the tree and panics when a compaction splits tables into chunks of 0.
- Lsm.LsmTree.RangeScan: asks for start <= end, as the library range of the source does by panicking otherwise. Keys are natural numbers in place of any ordered type.
- Identity.LevenshteinDistance: texts of 2^32 - 1 bytes and more, for which the source's cells wrap, are excluded.
- Identity.IdentityResolver.FuzzyResolve: the same limit on the looked-up value and the aliases.
- PageRank.MassConservedIff: for damping outside [0, 1] only the numbers of iterations are taken together, in `PageRank.MassAlwaysConservedIff`.
- Dijkstra.Dijkstra: asks that no cycle within reach of the start has negative cost, without which the loop does not end (`Dijkstra.EndsIff`).
- Dijkstra.ShortestPath: the same.
- AStar.AStar: the same; with a negative cycle within reach the search may still stop at the goal, depending on the heuristic, which is any function of the two vertices.
- TaskGraphs.TopologicalSort: the first in-degree pass of the source (`crates/algorithms/src/scheduling.rs:321-334`) fills a variable that is never read, and is not modelled.
- EventStore.InMemoryEventStore.Append: envelopes carry id, aggregate, type, version and payload; timestamps and metadata are not part of the model.
- TaskQueue.PriorityQueue.Enqueue: submission times, which no operation reads, are dropped.
- Merkle.MerkleTree.GenerateProof: after leaves were added without rebuilding, only when a proof exists and how long it is.
- `PriorityQueue::cancel`: positions in `by_id` go stale as entries are swapped, so the index it starts from may be another task's; every statement about the queue is about runs without it. `list` and `len` add nothing.
- The retry path of the fabric, whose transition table refuses a failed session a second run.
- Real SHA-256: the Merkle tree is proved for any function with 32-byte results.
- NaN, infinities and rounding of floating-point numbers.
- `usize` and `u64` widths outside the edit distance.
- `RadixTree`, `Trie`, `BPlusTree`, `BloomFilter`, `HyperLogLog`, `InvertedIndex`, `WorkStealingScheduler` and the library-backed heaps.
- `read_since` by ULID, whose order need not be the order of the log, the snapshot store and projections.
- Vector similarity, embeddings and ranking by score.
- Working and long-term memory, manifests, documents, recognisers, plugins, policies, drivers other than the codec, and all input and output.
- Lock poisoning, thread stack depth and logging.
