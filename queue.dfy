/** The entries of the search's priority queue (the nested `Node` class of
    Dijkstra.java), the order between them, and the queue itself: a collection
    that takes entries in any order and gives back a least one. */
module Queues {

  datatype Option<T> = None | Some(value: T)

  /** Java's Integer.compare: -1, 0 or 1 as x is below, equal to or above y. */
  function IntegerCompare(x: int, y: int): (c: int)
    ensures c == -1 || c == 0 || c == 1
    ensures c < 0 <==> x < y
    ensures c == 0 <==> x == y
  {
    if x < y then -1 else if x == y then 0 else 1
  }

  /** A queue entry: a node index and the tentative distance it was queued with. */
  datatype Node = Node(airport: int, distance: int)
  {
    /** Entries are ordered by distance alone; the node index plays no part. */
    function CompareTo(other: Node): (c: int)
      ensures c == -1 || c == 0 || c == 1
      ensures c < 0 <==> distance < other.distance
      ensures c > 0 <==> distance > other.distance
    {
      IntegerCompare(distance, other.distance)
    }
  }

  /** CompareTo is a total preorder: antisymmetric in sign, transitive, and blind
      to the node index. */
  lemma CompareToIsDistanceOrder(a: Node, b: Node, c: Node, i: int)
    ensures a.CompareTo(b) == -b.CompareTo(a)
    ensures a.CompareTo(b) <= 0 && b.CompareTo(c) <= 0 ==> a.CompareTo(c) <= 0
    ensures a.CompareTo(b) <= 0 || b.CompareTo(a) <= 0
    ensures Node(i, a.distance).CompareTo(b) == a.CompareTo(b)
  {
  }

  /** The index of the entry the queue gives back next: a least entry under
      CompareTo and, among equally small ones, the one queued first. */
  function FirstMinIndex(q: seq<Node>): (k: nat)
    requires q != []
    ensures k < |q|
    ensures forall j :: 0 <= j < |q| ==> q[k].CompareTo(q[j]) <= 0
    ensures forall j :: 0 <= j < k ==> q[j].CompareTo(q[k]) > 0
    decreases |q|
  {
    if |q| == 1 then 0
    else
      var k := FirstMinIndex(q[..|q| - 1]);
      if q[|q| - 1].CompareTo(q[k]) < 0 then |q| - 1 else k
  }

  /** The priority queue of the search. Entries are kept in the order they were
      offered; stale entries for a node are never removed early. */
  class NodeQueue {
    var entries: seq<Node>

    constructor ()
      ensures entries == []
    {
      entries := [];
    }

    predicate IsEmpty()
      reads this
    {
      entries == []
    }

    method Offer(n: Node)
      modifies this
      ensures entries == old(entries) + [n]
    {
      entries := entries + [n];
    }

    /** Removes and returns a least entry; on an empty queue returns None (Java's
        null) and changes nothing. */
    method Poll() returns (head: Option<Node>)
      modifies this
      ensures old(entries) == [] ==> head == None && entries == []
      ensures old(entries) != [] ==>
        var k := FirstMinIndex(old(entries));
        head == Some(old(entries)[k]) && entries == old(entries)[..k] + old(entries)[k + 1..]
    {
      if entries == [] {
        head := None;
      } else {
        var k := FirstMinIndex(entries);
        head := Some(entries[k]);
        entries := entries[..k] + entries[k + 1..];
      }
    }
  }
}
