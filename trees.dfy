/** The shape of the entry arenas the three graph searches build: which
    entries they push, with which priority and cost, and what the chains of
    those entries are (walks of the graph from the start, with their costs and
    depths). */
module SearchTrees {
  import opened Wrappers
  import opened PathTree

  function Last<T>(s: seq<T>): T
    requires s != []
  {
    s[|s| - 1]
  }

  /** Every node of `path` after the first is a neighbour of the one before it. */
  ghost predicate IsWalk<Node>(neighbors: Node -> seq<Node>, path: seq<Node>)
  {
    forall k :: 0 <= k < |path| - 1 ==> path[k + 1] in neighbors(path[k])
  }

  /** What is left of a walk after its first `j` nodes is a walk. */
  lemma WalkSuffix<Node>(neighbors: Node -> seq<Node>, path: seq<Node>, j: nat)
    requires IsWalk(neighbors, path) && j < |path|
    ensures IsWalk(neighbors, path[j..])
  {
    var rest := path[j..];
    forall q | 0 <= q < |rest| - 1
      ensures rest[q + 1] in neighbors(rest[q])
    {
      assert rest[q] == path[j + q] && rest[q + 1] == path[j + q + 1];
    }
  }

  /** The sum of the edge costs over consecutive pairs of `path`. */
  function PathCost<Node>(cost: (Node, Node) -> int, path: seq<Node>): int
    decreases |path|
  {
    if |path| <= 1 then 0
    else PathCost(cost, path[..|path| - 1]) + cost(path[|path| - 2], path[|path| - 1])
  }

  /** Entry `i` was pushed as a neighbour of the entry it was expanded from. */
  ghost predicate EdgeTo<Node>(tree: seq<Entry<Node>>, neighbors: Node -> seq<Node>, i: nat)
    requires i < |tree|
  {
    match tree[i].previous
    case None => true
    case Some(p) => p < i && tree[i].value in neighbors(tree[p].value)
  }

  /** The entries of a search in creation order: the first is the start entry,
      every other one is a neighbour of an earlier entry. */
  ghost predicate SearchTree<Node>(tree: seq<Entry<Node>>, start: Node, neighbors: Node -> seq<Node>)
  {
    && Rooted(tree)
    && tree[0].value == start
    && forall i :: 0 <= i < |tree| ==> EdgeTo(tree, neighbors, i)
  }

  /** The A* entry pushed for neighbour `v` of the entry `parent` at index `c`:
      its cost is the parent's plus the edge cost, its priority the heuristic
      of `v` plus that cost. */
  function AstarChild<Node>(parent: Entry<Node>, c: nat, v: Node, heuristic: Node -> int,
                            cost: (Node, Node) -> int): (e: Entry<Node>)
    ensures e.previous == Some(c) && e.value == v
    ensures e.cost - parent.cost == cost(parent.value, v)
    ensures e.priority - e.cost == heuristic(v)
  {
    var costValue := parent.cost + cost(parent.value, v);
    Entry(v, Some(c), heuristic(v) + costValue, costValue)
  }

  /** A* accounting of entry `i`: the start entry has cost 0 (and the default
      priority 0); every other entry is the A* child of its predecessor. */
  ghost predicate CostStep<Node>(tree: seq<Entry<Node>>, heuristic: Node -> int, cost: (Node, Node) -> int, i: nat)
    requires i < |tree|
  {
    match tree[i].previous
    case None => tree[i].cost == 0 && tree[i].priority == 0
    case Some(p) => p < i && tree[i] == AstarChild(tree[p], p, tree[i].value, heuristic, cost)
  }

  ghost predicate AstarTree<Node>(tree: seq<Entry<Node>>, start: Node, neighbors: Node -> seq<Node>,
                                  heuristic: Node -> int, cost: (Node, Node) -> int)
  {
    && SearchTree(tree, start, neighbors)
    && forall i :: 0 <= i < |tree| ==> CostStep(tree, heuristic, cost, i)
  }

  /** Priority of entry `i` in the Dijkstra variant: the heuristic of its node
      alone, with no cost accumulated along the path (the start entry keeps
      the default priority 0). */
  ghost predicate HeuristicStep<Node>(tree: seq<Entry<Node>>, heuristic: Node -> int, i: nat)
    requires i < |tree|
  {
    tree[i].priority == if tree[i].previous.None? then 0 else heuristic(tree[i].value)
  }

  ghost predicate DijkstraTree<Node>(tree: seq<Entry<Node>>, start: Node, neighbors: Node -> seq<Node>,
                                     heuristic: Node -> int)
  {
    && SearchTree(tree, start, neighbors)
    && forall i :: 0 <= i < |tree| ==> HeuristicStep(tree, heuristic, i)
  }

  /** Breadth-first order: entries are expanded in creation order, so an
      entry created later was expanded from an entry created no earlier. */
  ghost predicate FifoTree<Node>(tree: seq<Entry<Node>>, start: Node, neighbors: Node -> seq<Node>)
  {
    && SearchTree(tree, start, neighbors)
    && forall i, j :: 0 < i < j < |tree| ==> ParentIndex(tree[i]) <= ParentIndex(tree[j])
  }

  /** `arena` is `tree` followed by one entry per neighbour in `ns`, in order,
      each expanded from entry `c`. */
  ghost predicate Pushed<Node>(tree: seq<Entry<Node>>, arena: seq<Entry<Node>>, c: nat, ns: seq<Node>)
  {
    && |arena| == |tree| + |ns|
    && arena[..|tree|] == tree
    && forall i :: |tree| <= i < |arena| ==> arena[i].previous == Some(c) && arena[i].value == ns[i - |tree|]
  }

  /** A chain in a search tree is a walk of the graph from the start node. */
  lemma {:induction false} ChainFollowsEdges<Node>(tree: seq<Entry<Node>>, start: Node, neighbors: Node -> seq<Node>, i: nat)
    requires SearchTree(tree, start, neighbors) && i < |tree|
    ensures Chain(tree, i)[0] == start
    ensures IsWalk(neighbors, Chain(tree, i))
    decreases i
  {
    match tree[i].previous
    case None =>
    case Some(p) =>
      ChainFollowsEdges(tree, start, neighbors, p);
      assert EdgeTo(tree, neighbors, i);
      var c := Chain(tree, p);
      var path := Chain(tree, i);
      assert path == c + [tree[i].value];
      forall k | 0 <= k < |path| - 1
        ensures path[k + 1] in neighbors(path[k])
      {
        if k < |c| - 1 {
          assert path[k] == c[k] && path[k + 1] == c[k + 1];
        }
      }
  }

  /** Appending a node to a path adds the cost of the new last edge. */
  lemma PathCostAppend<Node>(cost: (Node, Node) -> int, path: seq<Node>, v: Node)
    requires path != []
    ensures PathCost(cost, path + [v]) == PathCost(cost, path) + cost(Last(path), v)
  {
    assert (path + [v])[..|path|] == path;
  }

  /** Cutting a path at its `j`-th node splits its cost between the part up
      to that node and the part from it. */
  lemma {:induction false} PathCostSplit<Node>(cost: (Node, Node) -> int, path: seq<Node>, j: nat)
    requires j < |path|
    ensures PathCost(cost, path) == PathCost(cost, path[..j + 1]) + PathCost(cost, path[j..])
    decreases |path|
  {
    if j < |path| - 1 {
      var init := path[..|path| - 1];
      PathCostSplit(cost, init, j);
      assert init[..j + 1] == path[..j + 1];
      assert path[j..][..|path| - j - 1] == init[j..];
    } else {
      assert path[..j + 1] == path;
    }
  }

  /** A* cost accounting: the cost an entry carries is the sum of the edge
      costs along its chain, and a pushed entry's priority is the heuristic of
      its node plus that sum. */
  lemma {:induction false} AccumulatedCost<Node>(tree: seq<Entry<Node>>, start: Node, neighbors: Node -> seq<Node>,
                                                heuristic: Node -> int, cost: (Node, Node) -> int, i: nat)
    requires AstarTree(tree, start, neighbors, heuristic, cost) && i < |tree|
    ensures tree[i].cost == PathCost(cost, Chain(tree, i))
    ensures i > 0 ==> tree[i].priority == heuristic(tree[i].value) + PathCost(cost, Chain(tree, i))
    decreases i
  {
    assert CostStep(tree, heuristic, cost, i);
    match tree[i].previous
    case None =>
    case Some(p) =>
      AccumulatedCost(tree, start, neighbors, heuristic, cost, p);
      PathCostAppend(cost, Chain(tree, p), tree[i].value);
  }

  /** In breadth-first order an entry created later is never shallower. */
  lemma {:induction false} FifoDepthMonotone<Node>(tree: seq<Entry<Node>>, start: Node, neighbors: Node -> seq<Node>,
                                                  i: nat, j: nat)
    requires FifoTree(tree, start, neighbors) && i <= j < |tree|
    ensures Depth(tree, i) <= Depth(tree, j)
    decreases j
  {
    if i != 0 && i != j {
      FifoDepthMonotone(tree, start, neighbors, ParentIndex(tree[i]), ParentIndex(tree[j]));
    }
  }

  /** Contrapositive: in breadth-first order a strictly shallower entry was
      created earlier. */
  lemma FifoShallowerFirst<Node>(tree: seq<Entry<Node>>, start: Node, neighbors: Node -> seq<Node>, i: nat, j: nat)
    requires FifoTree(tree, start, neighbors) && i < |tree| && j < |tree|
    requires Depth(tree, i) < Depth(tree, j)
    ensures i < j
  {
    if j <= i {
      FifoDepthMonotone(tree, start, neighbors, j, i);
    }
  }

  /** So the first `n` entries of a breadth-first arena come in non-decreasing depth. */
  lemma FifoDepthOrdered<Node>(tree: seq<Entry<Node>>, start: Node, neighbors: Node -> seq<Node>, n: nat)
    requires FifoTree(tree, start, neighbors) && n <= |tree|
    ensures forall i, j :: 0 <= i <= j < n ==> Depth(tree, i) <= Depth(tree, j)
  {
    forall i, j | 0 <= i <= j < n
      ensures Depth(tree, i) <= Depth(tree, j)
    {
      FifoDepthMonotone(tree, start, neighbors, i, j);
    }
  }

  /** Pushing one entry per neighbour of an existing entry keeps a search tree one. */
  lemma SearchTreePushed<Node>(tree: seq<Entry<Node>>, arena: seq<Entry<Node>>, start: Node,
                               neighbors: Node -> seq<Node>, c: nat)
    requires SearchTree(tree, start, neighbors) && c < |tree|
    requires Pushed(tree, arena, c, neighbors(tree[c].value))
    ensures SearchTree(arena, start, neighbors)
    ensures forall i :: 0 <= i < |tree| ==> arena[i] == tree[i]
  {
    var ns := neighbors(tree[c].value);
    forall i | 0 <= i < |tree|
      ensures arena[i] == tree[i]
    {
      assert arena[..|tree|][i] == tree[i];
    }
    forall i | 0 <= i < |arena|
      ensures EdgeTo(arena, neighbors, i)
      ensures arena[i].previous.Some? ==> arena[i].previous.value < i
      ensures 0 < i ==> arena[i].previous.Some?
    {
      if i < |tree| {
        assert EdgeTo(tree, neighbors, i);
      } else {
        assert ns[i - |tree|] in ns;
      }
    }
  }

  /** Pushing the A* children of an existing entry keeps the A* accounting. */
  lemma AstarTreePushed<Node>(tree: seq<Entry<Node>>, arena: seq<Entry<Node>>, start: Node, neighbors: Node -> seq<Node>,
                              heuristic: Node -> int, cost: (Node, Node) -> int, c: nat)
    requires AstarTree(tree, start, neighbors, heuristic, cost) && c < |tree|
    requires Pushed(tree, arena, c, neighbors(tree[c].value))
    requires forall i :: |tree| <= i < |arena| ==>
      arena[i] == AstarChild(tree[c], c, neighbors(tree[c].value)[i - |tree|], heuristic, cost)
    ensures AstarTree(arena, start, neighbors, heuristic, cost)
  {
    SearchTreePushed(tree, arena, start, neighbors, c);
    forall i | 0 <= i < |arena|
      ensures CostStep(arena, heuristic, cost, i)
    {
      if i < |tree| {
        assert CostStep(tree, heuristic, cost, i);
      }
    }
  }

  /** Pushing the Dijkstra children of an existing entry keeps their priorities. */
  lemma DijkstraTreePushed<Node>(tree: seq<Entry<Node>>, arena: seq<Entry<Node>>, start: Node,
                                 neighbors: Node -> seq<Node>, heuristic: Node -> int, c: nat)
    requires DijkstraTree(tree, start, neighbors, heuristic) && c < |tree|
    requires Pushed(tree, arena, c, neighbors(tree[c].value))
    requires forall i :: |tree| <= i < |arena| ==>
      arena[i].priority == heuristic(neighbors(tree[c].value)[i - |tree|])
    ensures DijkstraTree(arena, start, neighbors, heuristic)
  {
    SearchTreePushed(tree, arena, start, neighbors, c);
    forall i | 0 <= i < |arena|
      ensures HeuristicStep(arena, heuristic, i)
    {
      if i < |tree| {
        assert HeuristicStep(tree, heuristic, i);
      }
    }
  }

  /** Pushing the children of the entry being expanded keeps breadth-first
      order, provided no entry was expanded from a later one. */
  lemma FifoTreePushed<Node>(tree: seq<Entry<Node>>, arena: seq<Entry<Node>>, start: Node,
                             neighbors: Node -> seq<Node>, c: nat)
    requires FifoTree(tree, start, neighbors) && c < |tree|
    requires Pushed(tree, arena, c, neighbors(tree[c].value))
    requires forall i :: 0 < i < |tree| ==> ParentIndex(tree[i]) <= c
    ensures FifoTree(arena, start, neighbors)
    ensures forall i :: 0 < i < |arena| ==> ParentIndex(arena[i]) <= c
    ensures forall i :: |tree| <= i < |arena| ==> ParentIndex(arena[i]) == c
  {
    SearchTreePushed(tree, arena, start, neighbors, c);
  }
}
