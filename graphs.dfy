/** Weighted directed graphs given as a square matrix of edge weights, walks in
    them, and what it means for a number to be the shortest distance between two
    nodes. */
module Graphs {

  /** Java's Integer.MAX_VALUE. In the weight matrix it means "no direct edge";
      in a distance table it means "no walk found (yet)". */
  const MAX_VALUE: int := 0x7fff_ffff

  /** A square matrix whose entries are non-negative weights or the sentinel. */
  predicate ValidMatrix(w: seq<seq<int>>)
  {
    (forall i :: 0 <= i < |w| ==> |w[i]| == |w|) &&
    (forall i, j :: 0 <= i < |w| && 0 <= j < |w| ==> 0 <= w[i][j] <= MAX_VALUE)
  }

  /** Every node of p is a node of the graph and each consecutive pair is joined
      by an edge whose weight is not the sentinel. */
  predicate IsPath(w: seq<seq<int>>, p: seq<int>)
    requires ValidMatrix(w)
  {
    (forall k :: 0 <= k < |p| ==> 0 <= p[k] < |w|) &&
    (forall k :: 0 < k < |p| ==> w[p[k - 1]][p[k]] != MAX_VALUE)
  }

  lemma PrefixIsPath(w: seq<seq<int>>, p: seq<int>, n: nat)
    requires ValidMatrix(w) && IsPath(w, p) && n <= |p|
    ensures IsPath(w, p[..n])
  {
    var q := p[..n];
    forall k | 0 < k < |q| ensures w[q[k - 1]][q[k]] != MAX_VALUE {
      assert q[k - 1] == p[k - 1] && q[k] == p[k];
    }
  }

  /** Total weight of the edges along a path. */
  function Weight(w: seq<seq<int>>, p: seq<int>): (r: int)
    requires ValidMatrix(w) && IsPath(w, p)
    ensures r >= 0
    ensures |p| > 1 ==> r >= Weight(w, p[..|p| - 1])
    decreases |p|
  {
    if |p| <= 1 then 0
    else
      PrefixIsPath(w, p, |p| - 1);
      Weight(w, p[..|p| - 1]) + w[p[|p| - 2]][p[|p| - 1]]
  }

  /** p is a walk from s to e. */
  ghost predicate IsWalk(w: seq<seq<int>>, p: seq<int>, s: int, e: int)
    requires ValidMatrix(w)
  {
    IsPath(w, p) && |p| > 0 && p[0] == s && p[|p| - 1] == e
  }

  /** d is the least weight of a walk from s to e, where MAX_VALUE stands for
      "there is no walk lighter than MAX_VALUE" (in particular, no walk at all). */
  ghost predicate IsShortestDistance(w: seq<seq<int>>, s: int, e: int, d: int)
    requires ValidMatrix(w)
  {
    0 <= d <= MAX_VALUE &&
    (forall p :: IsWalk(w, p, s, e) ==> d <= Weight(w, p)) &&
    (d < MAX_VALUE ==> exists p :: IsWalk(w, p, s, e) && Weight(w, p) == d)
  }

  /** The shortest distance is a well-defined value: at most one number has the
      property, so any two computations that establish it agree. */
  lemma ShortestDistanceUnique(w: seq<seq<int>>, s: int, e: int, d1: int, d2: int)
    requires ValidMatrix(w)
    requires IsShortestDistance(w, s, e, d1) && IsShortestDistance(w, s, e, d2)
    ensures d1 == d2
  {
  }

  /** With no walk from s to e at all, the shortest distance is the sentinel. */
  lemma NoWalkMeansSentinel(w: seq<seq<int>>, s: int, e: int, d: int)
    requires ValidMatrix(w)
    requires forall p :: !IsWalk(w, p, s, e)
    requires IsShortestDistance(w, s, e, d)
    ensures d == MAX_VALUE
  {
  }

  /** Node v's outgoing edges are relaxed in the distance table d: no edge out
      of v leads to a node whose entry exceeds d[v] plus the edge's weight. */
  ghost predicate Relaxed(w: seq<seq<int>>, d: seq<int>, v: int)
    requires ValidMatrix(w) && |d| == |w| && 0 <= v < |w|
  {
    forall x :: 0 <= x < |w| && w[v][x] != MAX_VALUE ==> d[x] <= d[v] + w[v][x]
  }

  /** The heart of Dijkstra's correctness. If a table gives the first node of a
      path at most 0 and every node whose entry is below `bound` has its edges
      relaxed, then the path's last node's entry is at most the path's weight,
      unless the path weighs at least `bound`. */
  lemma {:induction false} WalkLowerBound(w: seq<seq<int>>, d: seq<int>, p: seq<int>, bound: int)
    requires ValidMatrix(w) && |d| == |w| && IsPath(w, p) && |p| > 0
    requires d[p[0]] <= 0
    requires forall v :: 0 <= v < |w| && d[v] < bound ==> Relaxed(w, d, v)
    ensures d[p[|p| - 1]] <= Weight(w, p) || bound <= Weight(w, p)
    decreases |p|
  {
    if |p| > 1 {
      var q := p[..|p| - 1];
      PrefixIsPath(w, p, |p| - 1);
      WalkLowerBound(w, d, q, bound);
      var u, v := p[|p| - 2], p[|p| - 1];
      assert q[|q| - 1] == u && q[0] == p[0];
      assert Weight(w, p) == Weight(w, q) + w[u][v];
      if Weight(w, q) < bound {
        assert Relaxed(w, d, u);
        assert w[u][v] != MAX_VALUE;
      }
    }
  }

  /** Sum of the entries of a table. */
  function Sum(s: seq<int>): (r: int)
  {
    if s == [] then 0 else Sum(s[..|s| - 1]) + s[|s| - 1]
  }

  lemma {:induction false} SumNonNegative(s: seq<int>)
    requires forall i :: 0 <= i < |s| ==> s[i] >= 0
    ensures Sum(s) >= 0
  {
    if s != [] {
      SumNonNegative(s[..|s| - 1]);
    }
  }
}
