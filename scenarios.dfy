/** Two small airport networks and their shortest distances, worked out
    against the definitions of module Graphs. They show that the distance
    predicate FindShortestPath promises can be met, and what it says in the
    two cases the search reports: a route found, and no route at all. The two
    queries then run FindShortestPath itself on those networks. */
module Scenarios {
  import opened Graphs
  import opened SearchState
  import opened Dijkstra

  /** Three airports; the direct edge 0 -> 2 (weight 4) is beaten by the
      detour through airport 1 (1 + 2). */
  function Triangle(): (w: seq<seq<int>>)
    ensures ValidMatrix(w) && |w| == 3
  {
    [[0, 1, 4], [1, 0, 2], [4, 2, 0]]
  }

  /** Two airports with no edge between them. */
  function Disconnected(): (w: seq<seq<int>>)
    ensures ValidMatrix(w) && |w| == 2
  {
    [[0, MAX_VALUE], [MAX_VALUE, 0]]
  }

  /** In the triangle the shortest distance from 0 to 2 is 3, the weight of
      the walk 0, 1, 2, and not the 4 of the direct edge. */
  lemma TriangleDistance()
    ensures IsShortestDistance(Triangle(), 0, 2, 3)
    ensures !IsShortestDistance(Triangle(), 0, 2, 4)
  {
    var w, d := Triangle(), [0, 1, 3];
    forall v | 0 <= v < |w| && d[v] < MAX_VALUE
      ensures Relaxed(w, d, v)
    {
    }
    forall p | IsWalk(w, p, 0, 2)
      ensures 3 <= Weight(w, p)
    {
      WalkLowerBound(w, d, p, MAX_VALUE);
    }
    var detour := [0, 1, 2];
    assert detour[..2] == [0, 1] && [0, 1][..1] == [0];
    assert IsWalk(w, detour, 0, 2) && Weight(w, detour) == 3;
  }

  /** With no edge between the two airports the distance is the sentinel. */
  lemma DisconnectedDistance()
    ensures IsShortestDistance(Disconnected(), 0, 1, MAX_VALUE)
    ensures forall d :: d < MAX_VALUE ==> !IsShortestDistance(Disconnected(), 0, 1, d)
  {
    var w, d := Disconnected(), [0, MAX_VALUE];
    forall v | 0 <= v < |w| && d[v] < MAX_VALUE
      ensures Relaxed(w, d, v)
    {
    }
    forall p | IsWalk(w, p, 0, 1)
      ensures MAX_VALUE <= Weight(w, p)
    {
      WalkLowerBound(w, d, p, MAX_VALUE);
    }
  }

  /** The only predecessor chain in the triangle that is a walk from 0 to 2 of
      weight 3 is 0, 1, 2: the direct edge weighs 4, and a longer chain would
      repeat a node. */
  lemma TriangleRoute(p: seq<int>, c: seq<int>)
    requires IsPredecessorChain(p, c, 2) && IsWalk(Triangle(), c, 0, 2)
    requires Weight(Triangle(), c) == 3
    ensures c == [0, 1, 2]
  {
    var w := Triangle();
    if |c| == 1 {
      assert false;
    } else if |c| == 2 {
      assert false;
    } else if |c| >= 4 {
      ChainDistinct(p, c, 2, 0, 1);
      ChainDistinct(p, c, 2, 1, |c| - 1);
      ChainDistinct(p, c, 2, 0, 2);
      ChainDistinct(p, c, 2, 2, |c| - 1);
      ChainDistinct(p, c, 2, 1, 2);
      assert false;
    }
    ChainDistinct(p, c, 2, 0, 1);
    ChainDistinct(p, c, 2, 1, 2);
  }

  /** Query A -> C on the triangle: the reported distance is 3 and the route
      is A, B, C. */
  method TriangleQuery() returns (distance: int, path: seq<string>)
    ensures distance == 3
    ensures path == ["A", "B", "C"]
  {
    var codes := ["A", "B", "C"];
    assert IndexOf(codes, "A") == 0 && IndexOf(codes, "C") == 2;
    var distances, previous;
    distances, previous, path := FindShortestPath(codes, Triangle(), "A", "C");
    TriangleDistance();
    ShortestDistanceUnique(Triangle(), 0, 2, distances[2], 3);
    distance := distances[2];
    ghost var chain :| IsPredecessorChain(previous[..], chain, 2) && path == CodesOf(codes, chain);
    ghost var walk :| IsWalk(Triangle(), walk, 0, 2) && Weight(Triangle(), walk) == 3 && path == CodesOf(codes, walk);
    forall k | 0 <= k < |chain|
      ensures chain[k] == walk[k]
    {
      assert codes[chain[k]] == path[k] == codes[walk[k]];
    }
    assert chain == walk;
    TriangleRoute(previous[..], chain);
  }

  /** Query A -> B between the disconnected airports: the reported distance is
      the sentinel and the route is B alone. */
  method DisconnectedQuery() returns (distance: int, path: seq<string>)
    ensures distance == MAX_VALUE
    ensures path == ["B"]
  {
    var codes := ["A", "B"];
    assert IndexOf(codes, "A") == 0 && IndexOf(codes, "B") == 1;
    var distances, previous;
    distances, previous, path := FindShortestPath(codes, Disconnected(), "A", "B");
    DisconnectedDistance();
    distance := distances[1];
  }
}
