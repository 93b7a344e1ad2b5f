# Dijkstra shortest paths over an airport network

This project models the shortest-path engine of `Dijkstra.java`. The network is
a list of airport codes plus a square matrix of edge weights (miles). The weight
`Integer.MAX_VALUE` stands for "no direct flight". `findShortestPath` resolves
the two codes to indices and fills a distance table and a predecessor table. It
uses a priority queue of `Node(airport, distance)` entries ordered by
`compareTo`, and stale entries stay in the queue. The loop stops as soon as an
entry for the end airport is polled. Afterwards the method walks back along the
predecessor table to build the route.

The model keeps the shape of the code:

- `graphs.dfy` (`Graphs`): the weight matrix, walks, their weights, and the
  meaning of "shortest distance". `MAX_VALUE` also means "no walk lighter than
  `MAX_VALUE`".
- `queue.dfy` (`Queues`): the `Node` entry and its `CompareTo`, and the
  priority queue as a class whose `entries` field `Offer` and `Poll` update.
- `relaxation.dfy` (`Relaxation`): the effect of one pass of the inner `for`
  loop, given as functions of the state before the pass.
- `search_state.dfy` (`SearchState`): the invariant of the outer `while` loop,
  its preservation, and why the early exit and an empty queue each leave a
  minimal distance. It also covers why the predecessor table always leads back
  to the start.
- `dijkstra.dfy` (`Dijkstra`): the imperative methods. The distance and
  predecessor arrays are updated in place, the queue is a mutable object, and
  the while and for loops carry invariants. `FindShortestPath` is
  `findShortestPath` without its printing. It returns the two tables and the
  route.
- `scenarios.dfy` (`Scenarios`): two small networks whose shortest distances
  are worked out against the definitions, and a query on each that runs
  `FindShortestPath`.

`FindShortestPath` is proved to report, for the end airport:

- the shortest distance, or `MAX_VALUE` when no route exists;
- a route that follows the predecessor table back to an airport without a
  predecessor;
- when the end is reachable, a route that is a walk from the start to the end
  whose weight is exactly the reported distance;
- when the end is unreachable, the sentinel distance and the one-element route
  `[end]`;
- when start and end are the same airport, distance 0 and the route
  `[start]`.

Two termination arguments are proved. For the outer loop, the sum of the
distance table plus the queue length decreases. For the path walk, each
predecessor has a smaller distance, or an equal distance and an earlier ghost
time stamp. The time stamp is the iteration in which that node's distance was
last lowered.

## Model

| member | source | states |
|---|---|---|
| Graphs.Weight | Dijkstra.java:72-77 | The weight of a walk is the sum of its edges; it is never negative and never shrinks when the walk is extended. |
| Graphs.ShortestDistanceUnique | Dijkstra.java:84 | About the definition of the reported shortest distance: at most one value is the least walk weight (capped at MAX_VALUE), so the number printed is well defined. |
| Graphs.NoWalkMeansSentinel | Dijkstra.java:84 | About the definition of the reported shortest distance: with no walk at all between two airports, only the sentinel MAX_VALUE qualifies. |
| Graphs.WalkLowerBound | Dijkstra.java:63-80 | If the start's entry is 0 and every node whose entry is below a bound has its edges relaxed, then a walk's last node's entry is at most the walk's weight, unless the walk weighs at least the bound. |
| Queues.IntegerCompare | Dijkstra.java:114 | Integer.compare yields -1, 0 or 1 exactly as x is below, equal to or above y. |
| Queues.Node.CompareTo | Dijkstra.java:112-115 | Comparing two entries gives -1, 0 or 1. The result is negative exactly when this entry's distance is smaller and positive exactly when it is larger. |
| Queues.CompareToIsDistanceOrder | Dijkstra.java:103-116 | The entry order is antisymmetric in sign, transitive and total, and ignores the airport index. |
| Queues.FirstMinIndex | Dijkstra.java:64 | The entry the queue gives back is a least one under CompareTo: no queued entry is smaller. Among equally small entries it is the earliest offered. |
| Queues.NodeQueue.constructor | Dijkstra.java:60 | A new queue is empty. |
| Queues.NodeQueue.Offer | Dijkstra.java:61 | Offering appends exactly the given entry and keeps every other entry. |
| Queues.NodeQueue.Poll | Dijkstra.java:63-64 | On a non-empty queue, returns a least entry and removes exactly that one occurrence. On an empty queue, returns None and changes nothing. |
| Relaxation.RelaxedDistancesBounds | Dijkstra.java:72-79 | About `RelaxedDistances`, the distance table after the pass of lines 72-79, and `Improves`, the test at line 74. Distances never rise. A sentinel weight never changes an entry. A changed entry equals the polled distance plus the edge weight. Every edge out of the polled node ends up relaxed. No entry goes below zero. |
| Relaxation.RelaxedPrevious | Dijkstra.java:76 | A predecessor entry becomes the polled node exactly when that node's distance was lowered, and stays as it was otherwise. |
| Relaxation.PushesMembers | Dijkstra.java:72-77 | About `Pushes`, the entries offered at line 77 in offer order. The pass offers an entry exactly for each lowered node, carrying its new distance, and nothing else. The entries come in increasing node order, so no node is offered twice. |
| Relaxation.RelaxStepAt | Dijkstra.java:74-77 | Visiting node j lowers its entry exactly when the test at line 74 holds, and then by at least one while offering one entry. Otherwise the entry stays and nothing is offered. |
| Relaxation.RelaxLowersSum | Dijkstra.java:72-79 | The total of the distance table drops by at least the number of entries a pass offers. |
| Relaxation.Int32Add | Dijkstra.java:74 | Java int addition lies in the 32-bit range. It is congruent to the true sum modulo 2^32 and equals the sum when the sum fits. |
| Relaxation.WrappedSumRelaxes | Dijkstra.java:74-76 | About `ImprovesAsWritten`, the test at line 74 with Java's 32-bit sum. From the initial tables, the first pass reaches node 1 at MAX_VALUE - 1. In the pass from node 1 the wrapped sum (-4) passes the test for node 2, which the unbounded test leaves at MAX_VALUE. It also passes for node 0, closing a predecessor cycle between nodes 0 and 1. |
| SearchState.InitialInv | Dijkstra.java:51-61 | The initial tables and the one-entry queue satisfy the loop invariant. |
| SearchState.RelaxPreservesTables | Dijkstra.java:72-79 | After a pass, the start keeps distance 0 and no predecessor. Entries stay between 0 and MAX_VALUE. A node has a predecessor exactly when its distance is finite. Every predecessor link is an edge that explains the distance. |
| SearchState.RelaxPreservesQueue | Dijkstra.java:64-77 | After a poll and a pass, every queued entry names a node and carries a finite distance no smaller than that node's entry. |
| SearchState.PushesQueueInv | Dijkstra.java:77 | Offered entries are well-formed queue entries for the new table. |
| SearchState.RelaxPreservesFrontier | Dijkstra.java:64-79 | Every node with a finite distance is relaxed, or is still queued with exactly that distance. |
| SearchState.RelaxPreservesInv | Dijkstra.java:63-80 | One iteration that does not stop preserves the whole loop invariant. |
| SearchState.IterationStep | Dijkstra.java:63-80 | One non-stopping iteration restores the invariant and strictly lowers the loop measure (table total plus queue length), which stays non-negative. |
| SearchState.StepLowersMeasure | Dijkstra.java:63-80 | The loop measure drops with each non-stopping iteration, so the loop terminates. |
| SearchState.EarlyExitMinimal | Dijkstra.java:68-69 | When a least queued entry names the end node, that node's distance is at most the weight of every walk to it, so breaking out is sound. |
| SearchState.ExhaustedMinimal | Dijkstra.java:63 | When the queue is empty, every node's distance is at most the weight of every walk to it. |
| SearchState.TablesRanked | Dijkstra.java:88-91 | Along predecessor links the distance falls, or stays equal with an earlier time stamp, so the walk back terminates. |
| SearchState.Chain | Dijkstra.java:87-92 | The nodes met walking back from v form a predecessor chain. It ends at v, each node's predecessor entry is the node before it, and the first node has no predecessor. |
| SearchState.ChainDistinct | Dijkstra.java:89-91 | A predecessor chain never visits the same node twice. |
| SearchState.ChainWeight | Dijkstra.java:87-92 | A predecessor chain is a path whose weight is at most the growth in distance from its first to its last node. |
| SearchState.ChainFromStart | Dijkstra.java:87-92 | For a node with a finite distance, the chain is a walk from the start to it whose weight is at most its distance. |
| SearchState.ChainOfUnreached | Dijkstra.java:88-92 | For a node still at MAX_VALUE, the walk back stops at once and the chain is the node alone. |
| SearchState.SearchOutcome | Dijkstra.java:80-92 | Once the end's distance is bounded by every walk, it is the shortest distance. A reached end's chain is a walk of exactly that weight. An unreached end has no predecessor and chain [end]. start == end gives 0 and [end]. |
| Dijkstra.IndexOf | Dijkstra.java:48-49 | Returns the first position holding the code, or -1 exactly when the code is absent. |
| Dijkstra.InitTables | Dijkstra.java:51-59 | Fresh tables of the network's size. Every distance is MAX_VALUE except 0 at the start, and every predecessor is -1. |
| Dijkstra.Relax | Dijkstra.java:72-79 | The arrays become the relaxed tables of the old distances and predecessors. The queue gains exactly the offered entries, in order. |
| Dijkstra.ReconstructPath | Dijkstra.java:87-92 | The route is the codes of the end node's predecessor chain, oldest first, ending with the end node. |
| Dijkstra.Visit | Dijkstra.java:64-79 | Polls the first least entry. If it names the end node, the tables are unchanged, the queue has lost that entry and the end distance is minimal. Otherwise the tables and queue become the relaxation from that entry, the invariant holds again and the measure drops. No distance ever rises. |
| Dijkstra.Search | Dijkstra.java:60-80 | The loop runs while `NodeQueue.IsEmpty` (line 63) is false. It ends, by early exit or an empty queue, with consistent tables. No entry has risen above its initial value, and the end distance is no larger than any walk's weight. |
| Dijkstra.FindShortestPath | Dijkstra.java:47-101 | The reported distance is the shortest (MAX_VALUE: none). The route follows predecessors. A reachable end gives a walk of exactly that weight. An unreachable end gives [end]. start == end gives 0 and [start]. |
| Scenarios.TriangleDistance | Dijkstra.java:84 | About the definition, on a three-airport network where a detour (1 + 2) beats the direct edge (4): the shortest distance is 3 and not 4. |
| Scenarios.DisconnectedDistance | Dijkstra.java:84 | About the definition, on two airports joined only by sentinel weights: the shortest distance is MAX_VALUE and no smaller value qualifies. |
| Scenarios.TriangleRoute | Dijkstra.java:87-92 | In the triangle, the only predecessor chain that is a walk from A to C of weight 3 is A, B, C. |
| Scenarios.TriangleQuery | Dijkstra.java:47-101 | Running the search from A to C on the triangle reports distance 3 and the route A, B, C. |
| Scenarios.DisconnectedQuery | Dijkstra.java:47-101 | Running the search from A to B on the disconnected pair reports MAX_VALUE and the route [B]. |

## Left out

- Reading the airport list and the distance matrix from files (Dijkstra.java:21-44) is I/O. The model takes both as parameters.
- `main` (Dijkstra.java:11-19) only fixes file names and the queries it runs, so it is not modelled.
- Printing the distance and the route (Dijkstra.java:82-85, 94-100) is output. `FindShortestPath` returns the tables and the route instead.
- Dijkstra.FindShortestPath: requires both codes to be in the list. With an unknown code, `indexOf` gives -1 and the Java code fails on the array access. That exception is not modelled.
- Dijkstra.FindShortestPath: requires a square matrix of size equal to the code list, with entries between 0 and MAX_VALUE. The file reader does not check this, and negative weights are outside what the algorithm supports.
- Dijkstra.FindShortestPath: uses unbounded integers, so the 32-bit overflow of `currentDistance + distance` on line 74 is excluded. The as-written behaviour is recorded under Findings.
- Graphs.IsShortestDistance: with unbounded sums, a walk weighing MAX_VALUE or more is treated like no walk. The sentinel then means "no walk lighter than MAX_VALUE".
- Queues.NodeQueue.Poll: Java's binary-heap `PriorityQueue` gives back some least entry, not necessarily the earliest offered. The model fixes the earliest, which can change the route chosen between equally short routes. Every proof about the search uses only that the polled entry is least.
- Queues.NodeQueue: the heap layout and its logarithmic costs are not modelled. The queue is the sequence of entries in offer order.
- The `Node` class (Dijkstra.java:103-111) is a value here. Its fields are never changed after construction.

## Findings

| source | as written | input that shows it | evidently intended | confidence | as-written member | corrected member |
|---|---|---|---|---|---|---|
| Dijkstra.java:74 | `currentDistance + distance` is a 32-bit `int` sum that wraps to a negative number when it exceeds MAX_VALUE, then passes the `<` test | three airports, edges 0 <-> 1 and 1 <-> 2 of weight MAX_VALUE - 1 in both directions, no edge between 0 and 2, query 0 -> 2: the first pass sets node 1 to MAX_VALUE - 1 with predecessor 0; when node 1 is polled, both wrapped sums are -4, so node 2 gets distance -4 and node 0 gets predecessor 1 while node 1 keeps predecessor 0. Lines 89-91 then keep prepending codes to `path` along the cycle 0, 1 until the JVM runs out of memory | compare the true sum, so an entry is never lowered below zero or by a walk heavier than the sentinel | not executed; follows from Java's int arithmetic | Relaxation.WrappedSumRelaxes | Relaxation.RelaxedDistancesBounds |
