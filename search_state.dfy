/** The invariant of the main `while` loop of findShortestPath (Dijkstra.java,
    lines 63-80) and what it yields: the early exit is sound, an exhausted queue
    leaves every entry minimal, and the predecessor table always describes a
    walk back to the start.

    Besides the real state (the tables `d` and `p`, the queue `q`) the proof
    keeps a ghost time stamp per node: the outer iteration in which the node's
    distance was last lowered, and the clock counting those iterations. They
    show that following `previous` can never cycle. */
module SearchState {
  import opened Graphs
  import opened Queues
  import opened Relaxation

  /** The predecessor entry of v is u, and the link is consistent with the
      distances: an edge u -> v that explains at least d[v], and when it explains
      d[v] exactly, u got its distance before v did. */
  ghost predicate Linked(w: seq<seq<int>>, d: seq<int>, stamp: seq<nat>, u: int, v: int)
    requires ValidMatrix(w) && |d| == |w| && |stamp| == |w| && 0 <= v < |w|
  {
    0 <= u < |w| && w[u][v] != MAX_VALUE && d[u] + w[u][v] <= d[v] &&
    (d[u] + w[u][v] == d[v] ==> stamp[u] < stamp[v])
  }

  /** The distance and predecessor tables, for a search from s. */
  ghost predicate TablesInv(w: seq<seq<int>>, s: int, d: seq<int>, p: seq<int>, stamp: seq<nat>, clock: nat)
  {
    ValidMatrix(w) && |d| == |w| && |p| == |w| && |stamp| == |w| && 0 <= s < |w| &&
    d[s] == 0 && p[s] == -1 &&
    (forall v :: 0 <= v < |w| ==> 0 <= d[v] <= MAX_VALUE && stamp[v] < clock) &&
    (forall v :: 0 <= v < |w| && v != s ==> (p[v] != -1 <==> d[v] < MAX_VALUE)) &&
    (forall v :: 0 <= v < |w| && p[v] != -1 ==> Linked(w, d, stamp, p[v], v))
  }

  /** Every queued entry names a node and carries a finite distance no smaller
      than the node's current entry (it may be stale). */
  ghost predicate QueueInv(w: seq<seq<int>>, d: seq<int>, q: seq<Node>)
    requires |d| == |w|
  {
    forall j :: 0 <= j < |q| ==>
      0 <= q[j].airport < |w| && d[q[j].airport] <= q[j].distance < MAX_VALUE
  }

  /** Every node with a finite distance either has its edges relaxed or is still
      waiting in the queue with exactly that distance. */
  ghost predicate Frontier(w: seq<seq<int>>, d: seq<int>, q: seq<Node>)
    requires ValidMatrix(w) && |d| == |w|
  {
    forall v :: 0 <= v < |w| && d[v] < MAX_VALUE ==> Relaxed(w, d, v) || Node(v, d[v]) in q
  }

  ghost predicate Inv(w: seq<seq<int>>, s: int, d: seq<int>, p: seq<int>, q: seq<Node>, stamp: seq<nat>, clock: nat)
  {
    TablesInv(w, s, d, p, stamp, clock) && QueueInv(w, d, q) && Frontier(w, d, q)
  }

  /** Time stamps after an outer iteration numbered `clock`: nodes lowered in it
      get the stamp `clock`, the others keep theirs. */
  ghost function NewStamps(d: seq<int>, d2: seq<int>, stamp: seq<nat>, clock: nat): (r: seq<nat>)
    requires |d| == |stamp| && |d2| == |stamp|
    ensures |r| == |stamp|
  {
    seq(|stamp|, v requires 0 <= v < |stamp| => if d2[v] < d[v] then clock else stamp[v])
  }

  /** The state built by lines 51-61 satisfies the invariant. */
  lemma InitialInv(w: seq<seq<int>>, s: int, d: seq<int>, p: seq<int>, stamp: seq<nat>)
    requires ValidMatrix(w) && 0 <= s < |w|
    requires |d| == |w| && |p| == |w| && |stamp| == |w|
    requires forall v :: 0 <= v < |w| ==> d[v] == (if v == s then 0 else MAX_VALUE)
    requires forall v :: 0 <= v < |w| ==> p[v] == -1 && stamp[v] == 0
    ensures Inv(w, s, d, p, [Node(s, 0)], stamp, 1)
  {
    forall v | 0 <= v < |w| && d[v] < MAX_VALUE
      ensures Relaxed(w, d, v) || Node(v, d[v]) in [Node(s, 0)]
    {
      assert v == s;
    }
  }

  /** Relaxing from the polled node u (queued with cd >= d[u]) keeps the tables
      consistent. */
  lemma RelaxPreservesTables(w: seq<seq<int>>, s: int, d: seq<int>, p: seq<int>, stamp: seq<nat>, clock: nat, u: int, cd: int)
    requires TablesInv(w, s, d, p, stamp, clock)
    requires 0 <= u < |w| && d[u] <= cd
    ensures var d2 := RelaxedDistances(w, u, cd, d);
      TablesInv(w, s, d2, RelaxedPrevious(w, u, cd, d, p), NewStamps(d, d2, stamp, clock), clock + 1)
  {
    var d2 := RelaxedDistances(w, u, cd, d);
    var p2 := RelaxedPrevious(w, u, cd, d, p);
    var st2 := NewStamps(d, d2, stamp, clock);
    assert d2[u] == d[u];
    assert d2[s] == d[s];
    forall v | 0 <= v < |w| && p2[v] != -1
      ensures Linked(w, d2, st2, p2[v], v)
    {
      if d2[v] < d[v] {
        assert p2[v] == u && st2[v] == clock && st2[u] == stamp[u];
      } else {
        var y := p[v];
        assert p2[v] == y && Linked(w, d, stamp, y, v);
        if d2[y] < d[y] {
          assert d2[y] + w[y][v] < d2[v];
        } else {
          assert st2[y] == stamp[y] && st2[v] == stamp[v];
        }
      }
    }
  }

  /** Every entry left in or added to the queue stays well-formed. */
  lemma RelaxPreservesQueue(w: seq<seq<int>>, d: seq<int>, q: seq<Node>, k: int)
    requires ValidMatrix(w) && |d| == |w| && QueueInv(w, d, q) && 0 <= k < |q|
    requires forall v :: 0 <= v < |w| ==> d[v] <= MAX_VALUE
    ensures var u, cd := q[k].airport, q[k].distance;
      QueueInv(w, RelaxedDistances(w, u, cd, d), q[..k] + q[k + 1..] + Pushes(w, u, cd, d, |w|))
  {
    var u, cd := q[k].airport, q[k].distance;
    var d2 := RelaxedDistances(w, u, cd, d);
    var rest := q[..k] + q[k + 1..];
    var pushed := Pushes(w, u, cd, d, |w|);
    QueueInvLowered(w, d, d2, q);
    QueueInvRemove(w, d2, q, k);
    PushesQueueInv(w, u, cd, d);
    QueueInvConcat(w, d2, rest, pushed);
  }

  lemma QueueInvLowered(w: seq<seq<int>>, d: seq<int>, d2: seq<int>, q: seq<Node>)
    requires |d| == |w| && |d2| == |w| && QueueInv(w, d, q)
    requires forall v :: 0 <= v < |w| ==> d2[v] <= d[v]
    ensures QueueInv(w, d2, q)
  {
  }

  lemma QueueInvRemove(w: seq<seq<int>>, d: seq<int>, q: seq<Node>, k: int)
    requires |d| == |w| && QueueInv(w, d, q) && 0 <= k < |q|
    ensures QueueInv(w, d, q[..k] + q[k + 1..])
  {
    var rest := q[..k] + q[k + 1..];
    forall j | 0 <= j < |rest|
      ensures rest[j] == (if j < k then q[j] else q[j + 1])
    {
    }
  }

  lemma QueueInvConcat(w: seq<seq<int>>, d: seq<int>, a: seq<Node>, b: seq<Node>)
    requires |d| == |w| && QueueInv(w, d, a) && QueueInv(w, d, b)
    ensures QueueInv(w, d, a + b)
  {
    forall j | 0 <= j < |a + b|
      ensures (a + b)[j] == (if j < |a| then a[j] else b[j - |a|])
    {
    }
  }

  lemma PushesQueueInv(w: seq<seq<int>>, u: int, cd: int, d: seq<int>)
    requires ValidMatrix(w) && 0 <= u < |w| && |d| == |w|
    requires forall v :: 0 <= v < |w| ==> d[v] <= MAX_VALUE
    ensures QueueInv(w, RelaxedDistances(w, u, cd, d), Pushes(w, u, cd, d, |w|))
  {
    var pushed := Pushes(w, u, cd, d, |w|);
    PushesMembers(w, u, cd, d, |w|);
    forall j | 0 <= j < |pushed|
      ensures 0 <= pushed[j].airport < |w|
      ensures RelaxedDistances(w, u, cd, d)[pushed[j].airport] <= pushed[j].distance < MAX_VALUE
    {
      assert pushed[j] in pushed;
    }
  }

  /** A member of q other than the polled one survives the poll. */
  lemma StaysQueued(q: seq<Node>, k: int, j: int)
    requires 0 <= k < |q| && 0 <= j < |q| && j != k
    ensures q[j] in q[..k] + q[k + 1..]
  {
    if j < k {
      assert (q[..k] + q[k + 1..])[j] == q[j];
    } else {
      assert (q[..k] + q[k + 1..])[j - 1] == q[j];
    }
  }

  /** Every node with a finite distance is still relaxed or queued after the
      iteration: lowered nodes were just queued, the polled node has just been
      relaxed, and the other queued entries are still there. */
  lemma RelaxPreservesFrontier(w: seq<seq<int>>, s: int, d: seq<int>, p: seq<int>, q: seq<Node>, k: int, stamp: seq<nat>, clock: nat)
    requires Inv(w, s, d, p, q, stamp, clock) && 0 <= k < |q|
    ensures var u, cd := q[k].airport, q[k].distance;
      Frontier(w, RelaxedDistances(w, u, cd, d), q[..k] + q[k + 1..] + Pushes(w, u, cd, d, |w|))
  {
    var u, cd := q[k].airport, q[k].distance;
    var d2 := RelaxedDistances(w, u, cd, d);
    var pushed := Pushes(w, u, cd, d, |w|);
    PushesMembers(w, u, cd, d, |w|);
    var q2 := q[..k] + q[k + 1..] + pushed;
    assert d2[u] == d[u];
    forall v | 0 <= v < |w| && d2[v] < MAX_VALUE
      ensures Relaxed(w, d2, v) || Node(v, d2[v]) in q2
    {
      if d2[v] < d[v] {
        assert Node(v, d2[v]) in pushed;
      } else if Relaxed(w, d, v) {
        assert Relaxed(w, d2, v);
      } else {
        var j :| 0 <= j < |q| && q[j] == Node(v, d[v]);
        if j == k {
          assert Relaxed(w, d2, v);
        } else {
          StaysQueued(q, k, j);
        }
      }
    }
  }

  /** One full iteration of the outer loop (poll entry k, relax from it)
      preserves the invariant. */
  lemma RelaxPreservesInv(w: seq<seq<int>>, s: int, d: seq<int>, p: seq<int>, q: seq<Node>, k: int, stamp: seq<nat>, clock: nat)
    requires Inv(w, s, d, p, q, stamp, clock) && 0 <= k < |q|
    ensures var u, cd := q[k].airport, q[k].distance;
      var d2 := RelaxedDistances(w, u, cd, d);
      Inv(w, s, d2, RelaxedPrevious(w, u, cd, d, p), q[..k] + q[k + 1..] + Pushes(w, u, cd, d, |w|),
          NewStamps(d, d2, stamp, clock), clock + 1)
  {
    RelaxPreservesTables(w, s, d, p, stamp, clock, q[k].airport, q[k].distance);
    RelaxPreservesQueue(w, d, q, k);
    RelaxPreservesFrontier(w, s, d, p, q, k, stamp, clock);
  }

  /** One iteration that does not stop, stated on the state it produces:
      the invariant holds again and the loop's measure (the total of the
      distance table plus the queue's length) has dropped. */
  lemma IterationStep(w: seq<seq<int>>, s: int, d: seq<int>, p: seq<int>, q: seq<Node>, k: int, stamp: seq<nat>, clock: nat,
                      d2: seq<int>, p2: seq<int>, q2: seq<Node>)
    requires Inv(w, s, d, p, q, stamp, clock) && 0 <= k < |q|
    requires d2 == RelaxedDistances(w, q[k].airport, q[k].distance, d)
    requires p2 == RelaxedPrevious(w, q[k].airport, q[k].distance, d, p)
    requires q2 == q[..k] + q[k + 1..] + Pushes(w, q[k].airport, q[k].distance, d, |w|)
    ensures Inv(w, s, d2, p2, q2, NewStamps(d, d2, stamp, clock), clock + 1)
    ensures 0 <= Sum(d2) + |q2| < Sum(d) + |q|
  {
    RelaxPreservesInv(w, s, d, p, q, k, stamp, clock);
    StepLowersMeasure(w, d, q, k, d2, q2);
  }

  lemma StepLowersMeasure(w: seq<seq<int>>, d: seq<int>, q: seq<Node>, k: int, d2: seq<int>, q2: seq<Node>)
    requires ValidMatrix(w) && |d| == |w| && 0 <= k < |q| && 0 <= q[k].airport < |w|
    requires d2 == RelaxedDistances(w, q[k].airport, q[k].distance, d)
    requires q2 == q[..k] + q[k + 1..] + Pushes(w, q[k].airport, q[k].distance, d, |w|)
    requires forall v :: 0 <= v < |w| ==> d2[v] >= 0
    ensures 0 <= Sum(d2) + |q2| < Sum(d) + |q|
  {
    var pushed := Pushes(w, q[k].airport, q[k].distance, d, |w|);
    RelaxLowersSum(w, q[k].airport, q[k].distance, d, |w|);
    assert d[..|w|] == d;
    assert d2[..|w|] == d2;
    assert Sum(d2) + |pushed| <= Sum(d);
    assert |q2| == |q| - 1 + |pushed|;
    SumNonNegative(d2);
  }

  /** The early exit (lines 68-69) is sound: when a least entry of the queue
      names node e, d[e] is at most the weight of every walk from s to e. */
  lemma EarlyExitMinimal(w: seq<seq<int>>, s: int, d: seq<int>, p: seq<int>, q: seq<Node>, k: int, stamp: seq<nat>, clock: nat)
    requires Inv(w, s, d, p, q, stamp, clock) && 0 <= k < |q|
    requires forall j :: 0 <= j < |q| ==> q[k].distance <= q[j].distance
    ensures forall path :: IsWalk(w, path, s, q[k].airport) ==> d[q[k].airport] <= Weight(w, path)
  {
    var e, bound := q[k].airport, q[k].distance;
    forall v | 0 <= v < |w| && d[v] < bound
      ensures Relaxed(w, d, v)
    {
    }
    forall path | IsWalk(w, path, s, e)
      ensures d[e] <= Weight(w, path)
    {
      WalkLowerBound(w, d, path, bound);
    }
  }

  /** When the queue runs dry every entry of the distance table is at most the
      weight of every walk from s to its node. */
  lemma ExhaustedMinimal(w: seq<seq<int>>, s: int, d: seq<int>, p: seq<int>, stamp: seq<nat>, clock: nat)
    requires Inv(w, s, d, p, [], stamp, clock)
    ensures forall v, path :: 0 <= v < |w| && IsWalk(w, path, s, v) ==> d[v] <= Weight(w, path)
  {
    forall v, path | 0 <= v < |w| && IsWalk(w, path, s, v)
      ensures d[v] <= Weight(w, path)
    {
      WalkLowerBound(w, d, path, MAX_VALUE);
    }
  }

  /** The measure that makes walking back along `p` terminate: d, and then the
      stamp, strictly decrease from a node to its predecessor. */
  ghost predicate Ranked(p: seq<int>, d: seq<int>, stamp: seq<nat>)
  {
    |d| == |p| && |stamp| == |p| &&
    (forall v :: 0 <= v < |p| ==> d[v] >= 0) &&
    (forall v :: 0 <= v < |p| && p[v] != -1 ==>
      0 <= p[v] < |p| && (d[p[v]] < d[v] || (d[p[v]] == d[v] && stamp[p[v]] < stamp[v])))
  }

  lemma TablesRanked(w: seq<seq<int>>, s: int, d: seq<int>, p: seq<int>, stamp: seq<nat>, clock: nat)
    requires TablesInv(w, s, d, p, stamp, clock)
    ensures Ranked(p, d, stamp)
  {
    forall v | 0 <= v < |p| && p[v] != -1
      ensures 0 <= p[v] < |p| && (d[p[v]] < d[v] || (d[p[v]] == d[v] && stamp[p[v]] < stamp[v]))
    {
      assert Linked(w, d, stamp, p[v], v);
    }
  }

  /** c lists the nodes met by following `p` back from v, oldest first: it ends
      at v, each node's predecessor entry is the node before it, and the first
      node has no predecessor. */
  ghost predicate IsPredecessorChain(p: seq<int>, c: seq<int>, v: int)
  {
    |c| > 0 && c[|c| - 1] == v &&
    (forall k :: 0 <= k < |c| ==> 0 <= c[k] < |p|) &&
    p[c[0]] == -1 &&
    (forall k :: 0 < k < |c| ==> p[c[k]] == c[k - 1])
  }

  /** A predecessor chain never visits a node twice: the first node has no
      predecessor, and two equal later nodes would have equal predecessors. */
  lemma {:induction false} ChainDistinct(p: seq<int>, c: seq<int>, v: int, i: int, j: int)
    requires IsPredecessorChain(p, c, v) && 0 <= i < j < |c|
    ensures c[i] != c[j]
    decreases i
  {
    assert p[c[j]] == c[j - 1] && 0 <= c[j - 1];
    if i > 0 {
      ChainDistinct(p, c, v, i - 1, j - 1);
      assert p[c[i]] == c[i - 1];
    }
  }

  /** The nodes visited by walking back along `p` from v (lines 88-92). */
  ghost function Chain(p: seq<int>, v: int, d: seq<int>, stamp: seq<nat>): (c: seq<int>)
    requires Ranked(p, d, stamp) && 0 <= v < |p|
    ensures IsPredecessorChain(p, c, v)
    decreases d[v], stamp[v]
  {
    if p[v] == -1 then [v] else Chain(p, p[v], d, stamp) + [v]
  }

  /** A predecessor chain is a path, and its weight is at most the growth in
      distance from its first to its last node. */
  lemma {:induction false} ChainWeight(w: seq<seq<int>>, s: int, d: seq<int>, p: seq<int>, stamp: seq<nat>, clock: nat, c: seq<int>)
    requires TablesInv(w, s, d, p, stamp, clock)
    requires |c| > 0 && forall k :: 0 <= k < |c| ==> 0 <= c[k] < |p|
    requires forall k :: 0 < k < |c| ==> p[c[k]] == c[k - 1]
    ensures IsPath(w, c) && Weight(w, c) + d[c[0]] <= d[c[|c| - 1]]
    decreases |c|
  {
    if |c| > 1 {
      var c' := c[..|c| - 1];
      ChainWeight(w, s, d, p, stamp, clock, c');
      var u, v := c[|c| - 2], c[|c| - 1];
      assert c'[|c'| - 1] == u && c'[0] == c[0];
      assert Linked(w, d, stamp, u, v);
      assert IsPath(w, c) by {
        forall k | 0 < k < |c| ensures w[c[k - 1]][c[k]] != MAX_VALUE {
          if k < |c| - 1 {
            assert c'[k - 1] == c[k - 1] && c'[k] == c[k];
          }
        }
      }
      assert c[..|c| - 1] == c';
    }
  }

  /** For a node with a finite distance, walking back along `p` arrives at the
      start, along existing edges, with total weight at most its distance. */
  lemma ChainFromStart(w: seq<seq<int>>, s: int, d: seq<int>, p: seq<int>, stamp: seq<nat>, clock: nat, e: int)
    requires TablesInv(w, s, d, p, stamp, clock) && Ranked(p, d, stamp)
    requires 0 <= e < |w| && d[e] < MAX_VALUE
    ensures var c := Chain(p, e, d, stamp); IsWalk(w, c, s, e) && Weight(w, c) <= d[e]
  {
    var c := Chain(p, e, d, stamp);
    ChainWeight(w, s, d, p, stamp, clock, c);
    assert p[c[0]] == -1;
  }

  /** For a node still at the sentinel, walking back along `p` stops at once. */
  lemma ChainOfUnreached(w: seq<seq<int>>, s: int, d: seq<int>, p: seq<int>, stamp: seq<nat>, clock: nat, e: int)
    requires TablesInv(w, s, d, p, stamp, clock) && Ranked(p, d, stamp)
    requires 0 <= e < |w| && d[e] == MAX_VALUE
    ensures Chain(p, e, d, stamp) == [e]
  {
  }

  /** What the tables say once the search has stopped with the end node's
      distance bounded by every walk: that distance is the shortest one, the
      predecessor chain of a reached end node is a walk from the start of
      exactly that weight, and an unreached end node's chain is the node alone. */
  lemma SearchOutcome(w: seq<seq<int>>, s: int, e: int, d: seq<int>, p: seq<int>, stamp: seq<nat>, clock: nat)
    requires TablesInv(w, s, d, p, stamp, clock) && Ranked(p, d, stamp) && 0 <= e < |w|
    requires forall c :: IsWalk(w, c, s, e) ==> d[e] <= Weight(w, c)
    ensures IsShortestDistance(w, s, e, d[e])
    ensures d[e] < MAX_VALUE ==>
      IsWalk(w, Chain(p, e, d, stamp), s, e) && Weight(w, Chain(p, e, d, stamp)) == d[e]
    ensures d[e] == MAX_VALUE ==> p[e] == -1 && Chain(p, e, d, stamp) == [e]
    ensures s == e ==> d[e] == 0 && Chain(p, e, d, stamp) == [e]
  {
    if d[e] < MAX_VALUE {
      ChainFromStart(w, s, d, p, stamp, clock, e);
    } else {
      ChainOfUnreached(w, s, d, p, stamp, clock, e);
    }
  }
}
