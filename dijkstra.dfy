/** The shortest-path engine of Dijkstra.java: findShortestPath, split into
    its phases (index resolution, table set-up, one relaxation pass, path
    reconstruction) and the method that runs them. The printing of the result
    is left out; the method returns the tables and the path instead. */
module Dijkstra {
  import opened Graphs
  import opened Queues
  import opened Relaxation
  import opened SearchState

  /** List.indexOf: the first position of `code`, or -1 when it is absent. */
  function IndexOf(codes: seq<string>, code: string): (i: int)
    ensures -1 <= i < |codes|
    ensures i == -1 <==> code !in codes
    ensures i >= 0 ==> codes[i] == code && forall j :: 0 <= j < i ==> codes[j] != code
    decreases |codes|
  {
    if codes == [] then -1
    else if codes[0] == code then 0
    else
      var i := IndexOf(codes[1..], code);
      if i == -1 then -1 else i + 1
  }

  /** The codes of the nodes listed in c. */
  function CodesOf(codes: seq<string>, c: seq<int>): seq<string>
    requires forall k :: 0 <= k < |c| ==> 0 <= c[k] < |codes|
  {
    seq(|c|, k requires 0 <= k < |c| => codes[c[k]])
  }

  /** Lines 51-59: every distance is the sentinel and every predecessor is -1,
      except that the start is at distance 0. */
  method InitTables(n: nat, startIndex: int) returns (distances: array<int>, previous: array<int>)
    requires 0 <= startIndex < n
    ensures fresh(distances) && fresh(previous) && distances != previous
    ensures distances.Length == n && previous.Length == n
    ensures forall i :: 0 <= i < n ==> distances[i] == (if i == startIndex then 0 else MAX_VALUE)
    ensures forall i :: 0 <= i < n ==> previous[i] == -1
  {
    distances := new int[n];
    previous := new int[n];
    for i := 0 to n
      invariant forall j :: 0 <= j < i ==> distances[j] == MAX_VALUE && previous[j] == -1
    {
      distances[i] := MAX_VALUE;
      previous[i] := -1;
    }
    distances[startIndex] := 0;
  }

  /** Lines 72-79: relax every edge out of `current`, which was polled with
      distance `currentDistance`. Each lowered node gets `current` as its
      predecessor and is offered to the queue with its new distance. */
  method Relax(matrix: seq<seq<int>>, current: int, currentDistance: int,
               distances: array<int>, previous: array<int>, queue: NodeQueue)
    requires ValidMatrix(matrix) && 0 <= current < |matrix|
    requires distances.Length == |matrix| && previous.Length == |matrix| && distances != previous
    modifies distances, previous, queue
    ensures distances[..] == RelaxedDistances(matrix, current, currentDistance, old(distances[..]))
    ensures previous[..] == RelaxedPrevious(matrix, current, currentDistance, old(distances[..]), old(previous[..]))
    ensures queue.entries == old(queue.entries) + Pushes(matrix, current, currentDistance, old(distances[..]), |matrix|)
  {
    ghost var d0, p0, q0 := distances[..], previous[..], queue.entries;
    for i := 0 to |matrix|
      invariant forall j :: 0 <= j < i ==>
        distances[j] == (if Improves(matrix, current, currentDistance, d0, j) then currentDistance + matrix[current][j] else d0[j]) &&
        previous[j] == (if Improves(matrix, current, currentDistance, d0, j) then current else p0[j])
      invariant forall j :: i <= j < |matrix| ==> distances[j] == d0[j] && previous[j] == p0[j]
      invariant queue.entries == q0 + Pushes(matrix, current, currentDistance, d0, i)
    {
      assert Pushes(matrix, current, currentDistance, d0, i + 1) ==
        Pushes(matrix, current, currentDistance, d0, i) +
        if Improves(matrix, current, currentDistance, d0, i) then [Node(i, currentDistance + matrix[current][i])] else [];
      assert distances[i] == d0[i] && previous[i] == p0[i];
      var distance := matrix[current][i];
      if distance != MAX_VALUE && currentDistance + distance < distances[i] {
        distances[i] := currentDistance + distance;
        previous[i] := current;
        queue.Offer(Node(i, distances[i]));
      }
    }
    assert distances[..] == RelaxedDistances(matrix, current, currentDistance, d0);
    assert previous[..] == RelaxedPrevious(matrix, current, currentDistance, d0, p0);
  }

  /** Lines 87-92: walk back along `previous` from the end node, putting each
      code in front. The ghost tables `d` and `stamp` only carry the order that
      makes the walk terminate. */
  method ReconstructPath(codes: seq<string>, previous: array<int>, endIndex: int,
                         ghost d: seq<int>, ghost stamp: seq<nat>) returns (path: seq<string>)
    requires previous.Length == |codes| && 0 <= endIndex < |codes|
    requires Ranked(previous[..], d, stamp)
    ensures IsPredecessorChain(previous[..], Chain(previous[..], endIndex, d, stamp), endIndex)
    ensures path == CodesOf(codes, Chain(previous[..], endIndex, d, stamp))
  {
    ghost var p := previous[..];
    ghost var whole := Chain(p, endIndex, d, stamp);
    ghost var rest: seq<int> := [];
    path := [];
    var current := endIndex;
    while current != -1
      invariant -1 <= current < |codes|
      invariant current != -1 ==> Chain(p, current, d, stamp) + rest == whole
      invariant current == -1 ==> rest == whole
      invariant forall k :: 0 <= k < |rest| ==> 0 <= rest[k] < |codes|
      invariant path == CodesOf(codes, rest)
      decreases if current == -1 then 0 else d[current] + 1, if current == -1 then 0 else stamp[current]
    {
      path := [codes[current]] + path;
      rest := [current] + rest;
      current := previous[current];
    }
  }

  /** Lines 64-79, one pass of the search loop on a non-empty queue: poll a
      least entry (returned as the ghost `polled`); if it names the end node
      report that (the caller stops), otherwise relax the edges out of the
      polled node. Either the end node's distance is now known to be minimal,
      or the invariant holds again with the loop's measure lowered. */
  method Visit(matrix: seq<seq<int>>, startIndex: int, endIndex: int,
               distances: array<int>, previous: array<int>, queue: NodeQueue,
               ghost stamp: seq<nat>, ghost clock: nat)
    returns (reachedEnd: bool, ghost polled: Node, ghost stamp2: seq<nat>, ghost clock2: nat)
    requires 0 <= endIndex < |matrix| && distances != previous
    requires distances.Length == |matrix| && previous.Length == |matrix|
    requires Inv(matrix, startIndex, distances[..], previous[..], queue.entries, stamp, clock)
    requires queue.entries != []
    modifies distances, previous, queue
    // the polled entry is the queue's first least entry
    ensures var q, k := old(queue.entries), FirstMinIndex(old(queue.entries));
      polled == q[k] && 0 <= polled.airport < |matrix| &&
      (reachedEnd <==> polled.airport == endIndex)
    // reaching the end changes no table and leaves only the poll's removal
    ensures reachedEnd ==>
      var q, k := old(queue.entries), FirstMinIndex(old(queue.entries));
      queue.entries == q[..k] + q[k + 1..] &&
      distances[..] == old(distances[..]) && previous[..] == old(previous[..]) &&
      stamp2 == stamp && clock2 == clock &&
      forall c :: IsWalk(matrix, c, startIndex, endIndex) ==> distances[endIndex] <= Weight(matrix, c)
    // no distance ever rises
    ensures forall i :: 0 <= i < |matrix| ==> distances[i] <= old(distances[i])
    // otherwise the tables and the queue become the relaxation from the polled entry
    ensures !reachedEnd ==>
      var q, k := old(queue.entries), FirstMinIndex(old(queue.entries));
      distances[..] == RelaxedDistances(matrix, polled.airport, polled.distance, old(distances[..])) &&
      previous[..] == RelaxedPrevious(matrix, polled.airport, polled.distance, old(distances[..]), old(previous[..])) &&
      queue.entries == q[..k] + q[k + 1..] + Pushes(matrix, polled.airport, polled.distance, old(distances[..]), |matrix|) &&
      Inv(matrix, startIndex, distances[..], previous[..], queue.entries, stamp2, clock2) &&
      0 <= Sum(distances[..]) + |queue.entries| < Sum(old(distances[..])) + |old(queue.entries)|
  {
    ghost var d0, p0, q0 := distances[..], previous[..], queue.entries;
    ghost var k := FirstMinIndex(q0);
    stamp2, clock2 := stamp, clock;
    var head := queue.Poll();
    var currentNode := head.value;
    polled := currentNode;
    var currentAirport := currentNode.airport;
    var currentDistance := currentNode.distance;

    if currentAirport == endIndex {
      EarlyExitMinimal(matrix, startIndex, d0, p0, q0, k, stamp, clock);
      return true, polled, stamp2, clock2;
    }

    Relax(matrix, currentAirport, currentDistance, distances, previous, queue);
    ghost var d2 := distances[..];
    IterationStep(matrix, startIndex, d0, p0, q0, k, stamp, clock, d2, previous[..], queue.entries);
    stamp2 := NewStamps(d0, d2, stamp, clock);
    clock2 := clock + 1;
    reachedEnd := false;
  }

  /** Lines 60-80: the search loop, on tables set up by InitTables. It stops
      at once when the polled entry names the end node, or when the queue runs
      dry. Afterwards the tables satisfy the search invariant, no entry has
      risen above its initial value, and the end node's distance is at most
      the weight of every walk from the start to it. */
  method Search(matrix: seq<seq<int>>, startIndex: int, endIndex: int, distances: array<int>, previous: array<int>)
    returns (ghost stamp: seq<nat>, ghost clock: nat)
    requires ValidMatrix(matrix) && 0 <= startIndex < |matrix| && 0 <= endIndex < |matrix|
    requires distances.Length == |matrix| && previous.Length == |matrix| && distances != previous
    requires forall i :: 0 <= i < |matrix| ==> distances[i] == (if i == startIndex then 0 else MAX_VALUE)
    requires forall i :: 0 <= i < |matrix| ==> previous[i] == -1
    modifies distances, previous
    ensures TablesInv(matrix, startIndex, distances[..], previous[..], stamp, clock)
    ensures forall i :: 0 <= i < |matrix| ==> distances[i] <= old(distances[i])
    ensures forall c :: IsWalk(matrix, c, startIndex, endIndex) ==> distances[endIndex] <= Weight(matrix, c)
  {
    var queue := new NodeQueue();
    queue.Offer(Node(startIndex, 0));

    stamp := seq(|matrix|, _ => 0);
    clock := 1;
    InitialInv(matrix, startIndex, distances[..], previous[..], stamp);

    while !queue.IsEmpty()
      invariant Inv(matrix, startIndex, distances[..], previous[..], queue.entries, stamp, clock)
      invariant forall i :: 0 <= i < |matrix| ==> distances[i] <= old(distances[i])
      decreases Sum(distances[..]) + |queue.entries|
    {
      var reachedEnd;
      ghost var polled;
      reachedEnd, polled, stamp, clock := Visit(matrix, startIndex, endIndex, distances, previous, queue, stamp, clock);
      if reachedEnd {
        return;
      }
    }
    ExhaustedMinimal(matrix, startIndex, distances[..], previous[..], stamp, clock);
  }

  /** findShortestPath (lines 47-101) without its printing: the search from
      `start`, stopped as soon as `end` leaves the queue, followed by the path
      reconstruction. */
  method FindShortestPath(codes: seq<string>, matrix: seq<seq<int>>, start: string, end: string)
    returns (distances: array<int>, previous: array<int>, path: seq<string>)
    requires ValidMatrix(matrix) && |matrix| == |codes|
    requires start in codes && end in codes
    ensures distances.Length == |codes| && previous.Length == |codes|
    ensures var s, e := IndexOf(codes, start), IndexOf(codes, end);
      // the reported distance is the least weight of a walk, MAX_VALUE meaning none
      IsShortestDistance(matrix, s, e, distances[e]) &&
      // the path is read off the predecessor table, backwards from the end node
      (exists c :: IsPredecessorChain(previous[..], c, e) && path == CodesOf(codes, c)) &&
      // reachable: the path is a walk from start to end of exactly that weight
      (distances[e] < MAX_VALUE ==>
        exists c :: IsWalk(matrix, c, s, e) && Weight(matrix, c) == distances[e] && path == CodesOf(codes, c)) &&
      // unreachable: the distance stays the sentinel and the path is the end alone
      (distances[e] == MAX_VALUE ==> previous[e] == -1 && path == [end]) &&
      // start == end: distance 0 and the one-element path
      (start == end ==> distances[e] == 0 && path == [start])
  {
    var startIndex := IndexOf(codes, start);
    var endIndex := IndexOf(codes, end);
    distances, previous := InitTables(|codes|, startIndex);
    ghost var stamp, clock := Search(matrix, startIndex, endIndex, distances, previous);
    ghost var d, p := distances[..], previous[..];
    TablesRanked(matrix, startIndex, d, p, stamp, clock);
    path := ReconstructPath(codes, previous, endIndex, d, stamp);
    SearchOutcome(matrix, startIndex, endIndex, d, p, stamp, clock);
    ghost var c := Chain(p, endIndex, d, stamp);
    assert d[endIndex] == MAX_VALUE ==> path == [codes[endIndex]];
  }
}
