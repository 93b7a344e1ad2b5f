/** What one pass of the inner `for` loop of findShortestPath (Dijkstra.java,
    lines 72-79) does to the tables and the queue, as functions of the state
    before the pass. `u` is the node just polled and `cd` the distance it was
    queued with. */
module Relaxation {
  import opened Graphs
  import opened Queues

  /** The edge u -> i exists and going through it at distance cd beats d[i]. */
  predicate Improves(w: seq<seq<int>>, u: int, cd: int, d: seq<int>, i: int)
    requires ValidMatrix(w) && 0 <= u < |w| && |d| == |w| && 0 <= i < |w|
  {
    w[u][i] != MAX_VALUE && cd + w[u][i] < d[i]
  }

  /** The distance table after the pass. */
  function RelaxedDistances(w: seq<seq<int>>, u: int, cd: int, d: seq<int>): (r: seq<int>)
    requires ValidMatrix(w) && 0 <= u < |w| && |d| == |w|
    ensures |r| == |d|
  {
    seq(|d|, i requires 0 <= i < |d| => if Improves(w, u, cd, d, i) then cd + w[u][i] else d[i])
  }

  /** What the pass does to each entry of the distance table. */
  lemma RelaxedDistancesBounds(w: seq<seq<int>>, u: int, cd: int, d: seq<int>)
    requires ValidMatrix(w) && 0 <= u < |w| && |d| == |w|
    ensures var r := RelaxedDistances(w, u, cd, d);
      // distances never increase
      (forall i :: 0 <= i < |d| ==> r[i] <= d[i]) &&
      // the sentinel weight never causes an update
      (forall i :: 0 <= i < |d| && w[u][i] == MAX_VALUE ==> r[i] == d[i]) &&
      // an entry that changes becomes exactly cd plus the edge weight
      (forall i :: 0 <= i < |d| && r[i] != d[i] ==> r[i] == cd + w[u][i]) &&
      // afterwards every edge out of u is relaxed with respect to cd
      (forall i :: 0 <= i < |d| && w[u][i] != MAX_VALUE ==> r[i] <= cd + w[u][i]) &&
      // from a non-negative distance no entry is ever driven below zero
      (forall i :: 0 <= i < |d| && 0 <= cd && 0 <= d[i] ==> 0 <= r[i])
  {
  }

  /** The predecessor table after the pass: an entry becomes u exactly when the
      node's distance was lowered, and stays as it was otherwise. */
  function RelaxedPrevious(w: seq<seq<int>>, u: int, cd: int, d: seq<int>, p: seq<int>): (r: seq<int>)
    requires ValidMatrix(w) && 0 <= u < |w| && |d| == |w| && |p| == |w|
    ensures |r| == |p|
    ensures forall i :: 0 <= i < |p| && RelaxedDistances(w, u, cd, d)[i] < d[i] ==> r[i] == u
    ensures forall i :: 0 <= i < |p| && RelaxedDistances(w, u, cd, d)[i] == d[i] ==> r[i] == p[i]
  {
    seq(|p|, i requires 0 <= i < |p| => if Improves(w, u, cd, d, i) then u else p[i])
  }

  /** The entries the pass offers to the queue while visiting nodes 0 .. i-1, in
      the order it offers them. */
  function Pushes(w: seq<seq<int>>, u: int, cd: int, d: seq<int>, i: nat): (r: seq<Node>)
    requires ValidMatrix(w) && 0 <= u < |w| && |d| == |w| && i <= |d|
    decreases i
  {
    if i == 0 then []
    else
      Pushes(w, u, cd, d, i - 1) +
      (if Improves(w, u, cd, d, i - 1) then [Node(i - 1, cd + w[u][i - 1])] else [])
  }

  /** The pass offers one entry per lowered node, carrying exactly its new
      distance, and nothing else; the entries come in increasing node order,
      so no node is offered twice. */
  lemma {:induction false} PushesMembers(w: seq<seq<int>>, u: int, cd: int, d: seq<int>, i: nat)
    requires ValidMatrix(w) && 0 <= u < |w| && |d| == |w| && i <= |d|
    ensures forall e :: e in Pushes(w, u, cd, d, i) <==>
      0 <= e.airport < i && RelaxedDistances(w, u, cd, d)[e.airport] < d[e.airport] &&
      e.distance == RelaxedDistances(w, u, cd, d)[e.airport]
    ensures forall a, b :: 0 <= a < b < |Pushes(w, u, cd, d, i)| ==>
      Pushes(w, u, cd, d, i)[a].airport < Pushes(w, u, cd, d, i)[b].airport
    decreases i
  {
    if i > 0 {
      PushesMembers(w, u, cd, d, i - 1);
      var r0 := Pushes(w, u, cd, d, i - 1);
      var r := Pushes(w, u, cd, d, i);
      forall a | 0 <= a < |r0|
        ensures r0[a].airport < i - 1
      {
        assert r0[a] in r0;
      }
      forall a, b | 0 <= a < b < |r|
        ensures r[a].airport < r[b].airport
      {
        assert r[a] == r0[a];
        if b < |r0| {
          assert r[b] == r0[b] && r0[a].airport < r0[b].airport;
        } else {
          assert r[b].airport == i - 1 && r0[a].airport < i - 1;
        }
      }
    }
  }

  /** Visiting node j lowers its entry exactly when it offers one entry, and
      then by at least one; otherwise the entry stays and nothing is offered. */
  lemma RelaxStepAt(w: seq<seq<int>>, u: int, cd: int, d: seq<int>, j: nat)
    requires ValidMatrix(w) && 0 <= u < |w| && |d| == |w| && j < |d|
    ensures RelaxedDistances(w, u, cd, d)[j] < d[j] <==> Improves(w, u, cd, d, j)
    ensures !Improves(w, u, cd, d, j) ==> RelaxedDistances(w, u, cd, d)[j] == d[j]
    ensures var extra := if Improves(w, u, cd, d, j) then 1 else 0;
      RelaxedDistances(w, u, cd, d)[j] + extra <= d[j] &&
      |Pushes(w, u, cd, d, j + 1)| == |Pushes(w, u, cd, d, j)| + extra
  {
  }

  /** Every offered entry pays for itself: the total of the table drops by at
      least the number of entries the pass offers. This bounds the number of
      iterations of the outer loop. */
  lemma {:induction false} RelaxLowersSum(w: seq<seq<int>>, u: int, cd: int, d: seq<int>, i: nat)
    requires ValidMatrix(w) && 0 <= u < |w| && |d| == |w| && i <= |d|
    ensures Sum(RelaxedDistances(w, u, cd, d)[..i]) + |Pushes(w, u, cd, d, i)| <= Sum(d[..i])
  {
    if i > 0 {
      RelaxLowersSum(w, u, cd, d, i - 1);
      RelaxStepAt(w, u, cd, d, i - 1);
      var r := RelaxedDistances(w, u, cd, d);
      assert r[..i][..i - 1] == r[..i - 1];
      assert d[..i][..i - 1] == d[..i - 1];
      assert Sum(r[..i]) == Sum(r[..i - 1]) + r[i - 1];
      assert Sum(d[..i]) == Sum(d[..i - 1]) + d[i - 1];
    }
  }

  /** Java's `int` addition: the mathematical sum wrapped into the 32-bit
      two's-complement range. */
  function Int32Add(x: int, y: int): (r: int)
    ensures -0x8000_0000 <= r < 0x8000_0000
    ensures (r - (x + y)) % 0x1_0000_0000 == 0
    ensures -0x8000_0000 <= x + y < 0x8000_0000 ==> r == x + y
  {
    var m := (x + y) % 0x1_0000_0000;
    if m < 0x8000_0000 then m else m - 0x1_0000_0000
  }

  /** The test on line 74 as the Java code evaluates it, with the sum
      computed in 32-bit arithmetic. */
  predicate ImprovesAsWritten(w: seq<seq<int>>, u: int, cd: int, d: seq<int>, i: int)
    requires ValidMatrix(w) && 0 <= u < |w| && |d| == |w| && 0 <= i < |w|
  {
    w[u][i] != MAX_VALUE && Int32Add(cd, w[u][i]) < d[i]
  }

  /** Two heavy edges 0 -> 1 -> 2 (each MAX_VALUE - 1) and no edge 0 -> 2. The
      first pass, from the start 0 polled at distance 0, reaches node 1 at
      MAX_VALUE - 1 with predecessor 0. In the pass from node 1 the 32-bit sum
      for the edge 1 -> 2 wraps to -4: the code as written stores a negative
      distance for node 2, although no walk to it is lighter than MAX_VALUE and
      Improves leaves it alone. The edge 1 -> 0 wraps the same way, so node 0
      would get predecessor 1 while node 1 keeps predecessor 0, and the walk
      back along the predecessors would keep prepending codes along that cycle
      until memory runs out. */
  lemma WrappedSumRelaxes()
    ensures var w := [[0, MAX_VALUE - 1, MAX_VALUE], [MAX_VALUE - 1, 0, MAX_VALUE - 1], [MAX_VALUE, MAX_VALUE - 1, 0]];
      var d := [0, MAX_VALUE - 1, MAX_VALUE];
      ValidMatrix(w) &&
      // the state after the first pass from the initial tables
      RelaxedDistances(w, 0, 0, [0, MAX_VALUE, MAX_VALUE]) == d &&
      RelaxedPrevious(w, 0, 0, [0, MAX_VALUE, MAX_VALUE], [-1, -1, -1]) == [-1, 0, -1] &&
      // the wrapped test lowers node 0 as well, closing a predecessor cycle 0 <-> 1
      ImprovesAsWritten(w, 1, MAX_VALUE - 1, d, 0) &&
      ImprovesAsWritten(w, 1, MAX_VALUE - 1, d, 2) && Int32Add(MAX_VALUE - 1, w[1][2]) == -4 &&
      !Improves(w, 1, MAX_VALUE - 1, d, 2) && RelaxedDistances(w, 1, MAX_VALUE - 1, d)[2] == MAX_VALUE
  {
  }
}
