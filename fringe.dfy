/** The heap frontier of A* and of the Dijkstra variant: the priority
    comparers of Search.cs and the dequeue of the heap that uses them.

    The heap holds arena indices of entries. Its implementation is not part of
    this model; what the searches rely on is its contract: it yields an entry
    that its comparer ranks at least as high as every other entry it holds. */
module Fringe {
  import opened Compare
  import opened PathTree

  /** AStarPriorityCompare and DijkstraPriorityCompare (the two are identical):
      they compare b's priority with a's, the reverse of the natural order, so
      `a` ranks above `b` exactly when its priority is smaller. */
  function PriorityCompare<Node>(a: Entry<Node>, b: Entry<Node>): (c: CompareResult)
    ensures c == Greater <==> a.priority < b.priority
    ensures c == Less <==> b.priority < a.priority
    ensures c != Less <==> a.priority <= b.priority
  {
    Comparison(b.priority, a.priority)
  }

  /** Every index in the frontier refers to an entry of the arena. */
  ghost predicate InArena<Node>(arena: seq<Entry<Node>>, fringe: seq<nat>)
  {
    forall x :: x in fringe ==> x < |arena|
  }

  /** No arena index occurs twice in the heap. */
  ghost predicate Distinct(s: seq<nat>)
  {
    forall p, q :: 0 <= p < q < |s| ==> s[p] != s[q]
  }

  /** The position of an entry in the heap that the comparer ranks at least
      as high as every other entry there. */
  method TopPosition<Node>(arena: seq<Entry<Node>>, fringe: seq<nat>) returns (best: nat)
    requires fringe != [] && forall k :: 0 <= k < |fringe| ==> fringe[k] < |arena|
    ensures best < |fringe|
    ensures forall k :: 0 <= k < |fringe| ==> PriorityCompare(arena[fringe[best]], arena[fringe[k]]) != Less
  {
    best := 0;
    for j := 1 to |fringe|
      invariant best < |fringe|
      invariant forall k :: 0 <= k < j ==> PriorityCompare(arena[fringe[best]], arena[fringe[k]]) != Less
    {
      if PriorityCompare(arena[fringe[j]], arena[fringe[best]]) == Greater {
        best := j;
      }
    }
  }

  /** Dequeue from a heap ordered by PriorityCompare: remove and return an
      entry that the comparer ranks at least as high as every entry in the
      heap, hence one of least priority; `rest` holds the others. The heap's
      tie-breaking is not known; this one takes the earliest such entry. */
  method DequeueMin<Node>(arena: seq<Entry<Node>>, fringe: seq<nat>) returns (c: nat, rest: seq<nat>)
    requires fringe != [] && InArena(arena, fringe)
    ensures c in fringe && c < |arena|
    ensures multiset(fringe) == multiset(rest) + multiset{c}
    ensures |rest| == |fringe| - 1 && InArena(arena, rest)
    ensures forall x :: x in fringe ==> PriorityCompare(arena[c], arena[x]) != Less
    ensures forall x :: x in fringe ==> arena[c].priority <= arena[x].priority
    ensures Distinct(fringe) ==> Distinct(rest) && c !in rest
  {
    assert forall k :: 0 <= k < |fringe| ==> fringe[k] in fringe;
    var best := TopPosition(arena, fringe);
    c := fringe[best];
    rest := fringe[..best] + fringe[best + 1..];
    assert fringe == fringe[..best] + [c] + fringe[best + 1..];
    assert forall p :: 0 <= p < |rest| ==> rest[p] == fringe[if p < best then p else p + 1];
  }
}
