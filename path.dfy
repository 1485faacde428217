/** The entries of a graph search and the reconstruction of a path from them
    (BaseAlgorithmNode, PathNode and BuildPath in Search.cs).

    The entries a search creates reference each other through `Previous`.
    Every predecessor is created before the entries expanded from it, so the
    entries are kept here in an arena, in creation order, and `Previous` is the
    arena index of the predecessor. */
module PathTree {
  import opened Wrappers

  /** One search entry: the node value, the arena index of the entry it was
      expanded from (None for the start entry), and the priority and
      accumulated cost of the heap-driven searches. Breadth-first entries have
      neither; they keep both at 0, and Dijkstra entries keep their cost at 0. */
  datatype Entry<Node> = Entry(value: Node, previous: Option<nat>, priority: int, cost: int)

  /** Every predecessor was created strictly before the entry that refers to it. */
  ghost predicate Linked<Node>(tree: seq<Entry<Node>>)
  {
    forall i :: 0 <= i < |tree| && tree[i].previous.Some? ==> tree[i].previous.value < i
  }

  /** A search tree: linked, and the first entry is the only one without a
      predecessor. */
  ghost predicate Rooted<Node>(tree: seq<Entry<Node>>)
  {
    && Linked(tree)
    && |tree| >= 1
    && tree[0].previous.None?
    && forall i :: 0 < i < |tree| ==> tree[i].previous.Some?
  }

  /** Index of the entry that `e` was expanded from; 0 for an entry without one. */
  function ParentIndex<Node>(e: Entry<Node>): nat
  {
    match e.previous
    case Some(p) => p
    case None => 0
  }

  /** The values along the `Previous` chain of entry `i`, from the entry with
      no predecessor down to `i` itself. */
  function Chain<Node>(tree: seq<Entry<Node>>, i: nat): (path: seq<Node>)
    requires Linked(tree) && i < |tree|
    ensures |path| >= 1 && path[|path| - 1] == tree[i].value
    decreases i
  {
    match tree[i].previous
    case None => [tree[i].value]
    case Some(p) => Chain(tree, p) + [tree[i].value]
  }

  /** Number of `Previous` links from entry `i` to the end of its chain. */
  function Depth<Node>(tree: seq<Entry<Node>>, i: nat): nat
    requires Linked(tree) && i < |tree|
    decreases i
  {
    match tree[i].previous
    case None => 0
    case Some(p) => Depth(tree, p) + 1
  }

  /** The chain has one value per entry on it: its length is the depth plus one. */
  lemma {:induction false} ChainLength<Node>(tree: seq<Entry<Node>>, i: nat)
    requires Linked(tree) && i < |tree|
    ensures |Chain(tree, i)| == Depth(tree, i) + 1
    decreases i
  {
    match tree[i].previous
    case None =>
    case Some(p) => ChainLength(tree, p);
  }

  /** An entry expanded from an entry whose chain is a prefix of `w`, for the
      next node of `w`, has the prefix one node longer as its chain. */
  lemma ChainStep<Node>(tree: seq<Entry<Node>>, e: nat, child: nat, w: seq<Node>, j: nat)
    requires Linked(tree) && e < |tree| && child < |tree| && j + 1 < |w|
    requires Chain(tree, e) == w[..j + 1]
    requires tree[child].previous == Some(e) && tree[child].value == w[j + 1]
    ensures Chain(tree, child) == w[..j + 2]
  {
    assert w[..j + 2] == w[..j + 1] + [w[j + 1]];
  }

  /** The scratch list BuildPath builds: a singly linked list of values. */
  datatype PathList<Node> = End | PathNode(value: Node, next: PathList<Node>)

  /** The values of a list, first node first. */
  function Values<Node>(list: PathList<Node>): seq<Node>
  {
    match list
    case End => []
    case PathNode(v, next) => [v] + Values(next)
  }

  /** Walk the `Previous` chain from entry `node` back to its root, prepending
      each value to the list, so that the list holds the chain root first. */
  method BuildPath<Node>(tree: seq<Entry<Node>>, node: nat) returns (start: PathList<Node>)
    requires Linked(tree) && node < |tree|
    ensures Values(start) == Chain(tree, node)
  {
    start := End;
    var current: Option<nat> := Some(node);
    while current.Some?
      invariant current.Some? ==> current.value < |tree|
      invariant Chain(tree, node) == (if current.Some? then Chain(tree, current.value) else []) + Values(start)
      decreases if current.Some? then current.value + 1 else 0
    {
      var temp := start;
      start := PathNode(tree[current.value].value, temp);
      current := tree[current.value].previous;
    }
  }

  /** The stepper BuildPath returns: hand each value of the list to the
      caller's step function, in list order. The result is what it receives. */
  method Walk<Node>(start: PathList<Node>) returns (emitted: seq<Node>)
    ensures emitted == Values(start)
  {
    emitted := [];
    var current := start;
    while current.PathNode?
      invariant emitted + Values(current) == Values(start)
      decreases current
    {
      emitted := emitted + [current.value];
      current := current.next;
    }
  }
}
