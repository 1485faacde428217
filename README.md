# Towel search toolkit, modelled in Dafny

This project models the search toolkit of the Towel library (`Search.cs`).
It has three parts.

- **Binary search.** The public `Binary` entry point, with its argument
  checks, and the internal halving loop over `[index, index + length)`. The
  loop is driven by a three-way comparison against an implicit target. It
  returns the position of a match, or the complement `~low` of the insertion
  point, written here as `-low - 1`.
- **Path reconstruction.** `BuildPath` follows the `Previous` links from an
  entry back to the start and prepends each value to a singly linked list.
  The stepper it returns then hands the values out in list order.
- **The three graph searches.**
  - A*: a heap ordered by the A* priority comparer. Entries carry an
    accumulated cost.
  - The Dijkstra variant: the same heap, but a child's priority is
    `heuristic(child)` alone, with no accumulated cost. It is modelled
    exactly as written.
  - Breadth-first search: a FIFO queue.

  All three push the start entry, then repeatedly take the next entry and
  ask `check` about its node. `Break` returns null, `Goal` returns the path
  to that entry, and `Continue` enqueues one new entry per neighbour.

**How the source maps onto the model.**
- **Entries.** The source links entries by reference through `Previous`. The
  model keeps them in an *arena*, a `seq<Entry>` in creation order, where
  `previous` is the index of the predecessor. The frontier (heap or queue) is
  a `seq<nat>` of arena indices.
- **Callbacks.** `neighbors` is a function `Node -> seq<Node>`, and `check`
  is `Node -> GraphSearchStatus`. `heuristic` and `cost` return `int`.
- **Results.** Each search returns an `Outcome`: `Found(path)` stands for the
  stepper the source returns, and `NotFound` for its null. Ghost outputs
  `tree` (every entry created) and `checked` (every node handed to `check`,
  in order) carry the contracts.
- **Fuel.** The source keeps no visited set, so on a cyclic graph without a
  reachable goal it never stops. Each search therefore takes a `fuel` bound
  on the number of checks. It reports `OutOfFuel` when that bound stops a
  search the source would have continued.

**Main results proved.**
- `Binary`:
  - it rejects null delegates and a non-positive length before reading any
    item;
  - a found position compares `Equal`;
  - over sorted items, a negative result encodes the insertion point;
  - over sorted items, the result is non-negative exactly when some item
    compares `Equal`;
  - the array overload searches the whole array through the same entry
    point, and fails the length check on an empty array.
- `BuildPath` emits exactly the chain of `Previous` values, start first.
- Every search, however it ends:
  - `Found` exactly when the last check answered `Goal`;
  - null exactly on `Break` or an empty frontier;
  - a found path starts at `start`, ends at the goal node and follows
    edges of the graph.
- The heap searches (A* and the Dijkstra variant):
  - each check is on an entry of least priority among those created and not
    yet checked;
  - a found path is the chain of the entry checked last.
- A*:
  - every entry's cost is the sum of the edge costs along its path, and the
    total cost returned is the cost of the returned path;
  - with an admissible heuristic that is never negative, no walk from the
    start to a goal node costs less than the returned path. Admissible means
    that, for every walk to a goal node, the heuristic of its first node is
    at most the walk's cost.
- The Dijkstra variant ranks entries by `heuristic(child)` alone. So the
  path it returns leads to a goal entry of least heuristic, and it need not
  be the shortest one.
- Breadth-first search:
  - it checks entries in creation order, hence along paths of
    non-decreasing length;
  - the path it finds has the fewest edges of any walk from the start to a
    node on which the check does not answer `Continue`.

## Model

| member | source | states |
|---|---|---|
| Compare.Comparison | Sources/Towel/Search.cs:191-203 | The default comparison the priority comparers call: Less, Equal or Greater exactly when the first number is smaller than, equal to or larger than the second. |
| BinarySearch.BinaryRange | Sources/Towel/Search.cs:37-63 | Every position read lies in `[index, index + length)`. A non-negative result lies in that range and compares Equal. A negative result is the complement of a position in `[index, index + length]`, and an empty range returns `~index` without reading. Over sorted items, a negative result's complement is the insertion point: everything before it compares Less, everything from it on compares Greater. |
| BinarySearch.BinaryArray | Sources/Towel/Search.cs:17-18 | The array overload: a null `compare` fails first, and an empty array fails the length check with length 0; it succeeds exactly otherwise. A result lies in `[-n - 1, n)` for an array of `n` items, and a found position holds an item that compares Equal. Over sorted items, the result is non-negative exactly when some item compares Equal, and otherwise its complement is the insertion point. |
| BinarySearch.Binary | Sources/Towel/Search.cs:26-35 | A null `get`, then a null `compare`, then `length <= 0` each fail with their argument error before any read, and it succeeds exactly when none applies. A result lies in `[-length - 1, length)` and reads stay in `[0, length)`. A found position compares Equal. Over sorted items, a negative result encodes the insertion point, and the result is non-negative exactly when some item compares Equal. |
| PathTree.Chain | Sources/Towel/Search.cs:150-189 | The chain of `Previous` values of an entry is non-empty and ends with the entry's own value. |
| PathTree.ChainLength | Sources/Towel/Search.cs:167-179 | The path has one value per entry on the `Previous` chain: its length is the number of links plus one. |
| PathTree.ChainStep | Sources/Towel/Search.cs:296-308 | An entry pushed from an entry whose path is a prefix of a walk, for the walk's next node, has that prefix one node longer as its path. |
| PathTree.BuildPath | Sources/Towel/Search.cs:167-179 | The linked list built by prepending along `Previous` holds the entry's chain: start value first, the entry's own value last. |
| PathTree.Walk | Sources/Towel/Search.cs:180-188 | The stepper hands out exactly the list's values, in list order. |
| Fringe.PriorityCompare | Sources/Towel/Search.cs:191-203 | The swapped comparison ranks `a` above `b` (Greater) exactly when `a` has the smaller priority, and below (Less) exactly when it has the larger one. |
| Fringe.TopPosition | Sources/Towel/Search.cs:283 | A position in the heap holding an entry that the comparer ranks at least as high as every entry there. |
| Fringe.DequeueMin | Sources/Towel/Search.cs:283 | The heap dequeue removes one element, leaves the rest as a multiset, and returns an entry no other heap entry outranks, which is one of least priority. |
| SearchTrees.AstarChild | Sources/Towel/Search.cs:299-306 | A child entry records its parent and neighbour. Its cost exceeds the parent's by the edge cost, and its priority exceeds its cost by the neighbour's heuristic. |
| SearchTrees.ChainFollowsEdges | Sources/Towel/Search.cs:296-308 | In any arena built by pushing neighbours, every entry's chain starts at `start` and each value on it is a neighbour of the one before. |
| SearchTrees.PathCostAppend | Sources/Towel/Search.cs:299 | Extending a path by one node adds the cost of that edge to the path's cost. |
| SearchTrees.WalkSuffix | Sources/Towel/Search.cs:296-308 | What is left of a walk after its first nodes is still a walk. |
| SearchTrees.PathCostSplit | Sources/Towel/Search.cs:299 | Cutting a path at one of its nodes splits its cost between the part up to that node and the part from it. |
| SearchTrees.AccumulatedCost | Sources/Towel/Search.cs:271-306 | In an A* arena, every entry's cost equals the sum of edge costs along its path, starting from the zero cost of the start entry. Every pushed entry's priority is the heuristic of its node plus that sum. |
| SearchTrees.SearchTreePushed | Sources/Towel/Search.cs:296-308 | Pushing one entry per neighbour of an existing entry leaves the old entries unchanged, and the result is still a search tree rooted at `start`. |
| SearchTrees.AstarTreePushed | Sources/Towel/Search.cs:296-308 | Pushing the A* children of an entry preserves the A* cost and priority accounting of the whole arena. |
| SearchTrees.DijkstraTreePushed | Sources/Towel/Search.cs:382-392 | Pushing children whose priority is the neighbour's heuristic preserves the invariant that every non-start entry's priority is its node's heuristic. |
| SearchTrees.FifoTreePushed | Sources/Towel/Search.cs:463-472 | Pushing the children of the entry being expanded, when no entry came from a later one, keeps breadth-first order. |
| SearchTrees.FifoDepthMonotone | Sources/Towel/Search.cs:438-472 | In breadth-first order, an entry created later is never shallower. |
| SearchTrees.FifoShallowerFirst | Sources/Towel/Search.cs:438-472 | In breadth-first order, a strictly shallower entry was created earlier. |
| SearchTrees.FifoDepthOrdered | Sources/Towel/Search.cs:438-472 | The entries of a breadth-first arena come in non-decreasing depth. |
| GraphSearch.GoalCheck | Sources/Towel/Search.cs:241-242 | The goal-predicate adapter answers Goal exactly where the predicate holds, and never Break. |
| GraphSearch.ReportedOutcome | Sources/Towel/Search.cs:265-313 | What a report means to a caller: a found path is a walk from `start` to a node the check answers Goal on; no fuel gives OutOfFuel; a Break on `start` gives null and a Goal on `start` a path. |
| GraphSearch.OutOfFuelReported | Sources/Towel/Search.cs:281-282 | When the fuel runs out with a non-empty frontier, the report is OutOfFuel with every check Continue and entries still waiting. |
| GraphSearch.ExhaustedReported | Sources/Towel/Search.cs:311-312 | When the frontier runs empty, every entry created was checked, and the search reports null. |
| GraphSearch.BreakReported | Sources/Towel/Search.cs:285-287 | A Break answer ends the search with null, whatever else is reachable. |
| GraphSearch.GoalReported | Sources/Towel/Search.cs:289-293 | A Goal answer ends the search with the dequeued entry's chain: a walk from `start` ending at the goal node. |
| GraphSearch.ContinueSearching | Sources/Towel/Search.cs:294-308 | A Continue answer followed by one push per neighbour keeps the shared loop invariant, with one check and one unit of fuel more spent. |
| GraphSearch.NotInPrefix | Sources/Towel/Search.cs:283 | An entry not among the first dequeues and different from the next one is not among the dequeues up to and including the next one. |
| GraphSearch.CreatedMonotone | Sources/Towel/Search.cs:296-308 | Entries are never removed from the arena: more checks, at least as many entries created. |
| GraphSearch.CreatedStep | Sources/Towel/Search.cs:296-308 | The k-th check adds exactly one entry per neighbour of its node to those created before it. |
| GraphSearch.HeapTop | Sources/Towel/Search.cs:283 | The entry the heap yields has not been dequeued before and ranks before every entry created and not yet dequeued. |
| GraphSearch.LeastFirstOrderExtend | Sources/Towel/Search.cs:283 | Dequeuing an entry that exists and was not dequeued before extends the dequeue order with a fresh entry. |
| GraphSearch.LeastFirstPriorityExtend | Sources/Towel/Search.cs:283 | Dequeuing an entry of least priority among those pending keeps every dequeue of least priority at its time, also after children are pushed. |
| GraphSearch.LeastFirstExtend | Sources/Towel/Search.cs:283-308 | One dequeue of a least-priority pending entry keeps the whole least-first dequeue order. |
| GraphSearch.ExpandedChildrenKept | Sources/Towel/Search.cs:283-293 | Dequeuing an entry without expanding it keeps every recorded child where it was, with its predecessor. |
| GraphSearch.ExpandedChildrenExtend | Sources/Towel/Search.cs:296-308 | Expanding the dequeued entry creates one child per neighbour at its known index, with the dequeued entry as predecessor. |
| GraphSearch.HeapFringeContinue | Sources/Towel/Search.cs:283-308 | After the dequeue and the pushes, the heap holds, once each, exactly the entries not dequeued yet. |
| GraphSearch.HeapContinue | Sources/Towel/Search.cs:281-308 | A Continue round keeps the heap invariant: the heap holds exactly the pending entries, each check was on a least-priority pending entry, and every expanded node's children have their entries. |
| GraphSearch.HeapStopped | Sources/Towel/Search.cs:283-293 | A Break or Goal on the dequeued entry ends with a least-first dequeue order whose last entry's chain is the found path. |
| GraphSearch.HeapUnfinished | Sources/Towel/Search.cs:281-312 | An empty heap or spent fuel ends with the least-first dequeue order of the checks so far. |
| GraphSearch.HeapPushedInArena | Sources/Towel/Search.cs:302-307 | Enqueueing newly created entries keeps every heap element an entry of the arena. |
| GraphSearch.AstarEnqueue | Sources/Towel/Search.cs:296-308 | One A* child per neighbour is created and enqueued, in neighbour order. The old arena and heap are kept as prefixes. |
| GraphSearch.AstarContinue | Sources/Towel/Search.cs:294-308 | After a Continue answer and the enqueue of the A* children, the A* loop invariant holds again. |
| GraphSearch.AStar | Sources/Towel/Search.cs:265-313 | It ends as every search promises (Found iff Goal, null iff Break or empty heap, a found path is a walk from `start` to a node the check answers Goal on). A Break on `start` itself yields null, even with a goal next to it. All entries keep the A* cost accounting. Each check is on an entry of least A* priority among those created and not yet checked, and a found path is the chain of the entry checked last. On Goal, `totalCost` is the summed edge cost of the returned path; on null it is 0. |
| GraphSearch.PrefixPending | Sources/Towel/Search.cs:265-313 | Before each check of a heap search that ends on a Goal, some entry created and not yet dequeued holds a prefix of any given walk from `start` to a goal node as its path. |
| GraphSearch.PendingChild | Sources/Towel/Search.cs:296-308 | When that pending entry is dequeued and expanded, its child for the walk's next node is created by that check and is not yet dequeued. |
| GraphSearch.PendingBound | Sources/Towel/Search.cs:299-306 | With an admissible, non-negative heuristic, an entry holding a prefix of a walk to a goal node has an A* priority no larger than that walk's cost. |
| GraphSearch.AstarOptimal | Sources/Towel/Search.cs:221-313 | The A* result is the shortest path the documentation promises, when the heuristic is admissible and never negative: no walk from `start` to a node the check answers Goal on costs less than the returned path, whose cost is `totalCost`. |
| GraphSearch.DijkstraEnqueue | Sources/Towel/Search.cs:382-392 | One entry per neighbour is created with the neighbour's heuristic as priority and enqueued, in neighbour order. The old arena and heap are kept as prefixes. |
| GraphSearch.DijkstraContinue | Sources/Towel/Search.cs:380-392 | After a Continue answer and the enqueue of the children, the Dijkstra loop invariant holds again. |
| GraphSearch.Dijkstra | Sources/Towel/Search.cs:353-396 | It ends as every search promises: a found path is a walk from `start` to a node the check answers Goal on, and a Break on `start` yields null. Every entry it created has the heuristic of its node as priority. Each check is on an entry of least heuristic among those created and not yet checked, and a found path is the chain of the entry checked last. |
| GraphSearch.FifoExpand | Sources/Towel/Search.cs:451-472 | Dequeuing the queue head and enqueueing its children at the back keeps the queue in creation order, with checks in creation order. |
| GraphSearch.BreadthFirstEnqueue | Sources/Towel/Search.cs:463-472 | One entry per neighbour is created and appended to the back of the queue, in order. The queue still holds the last entries created. |
| GraphSearch.ChildrenCreatedExtend | Sources/Towel/Search.cs:463-472 | Expanding the next node creates an entry for each of its neighbours, at a known index with that node as predecessor. Earlier children are untouched. |
| GraphSearch.BreadthFirstOutOfFuel | Sources/Towel/Search.cs:449-451 | The fuel running out keeps the breadth-first report. |
| GraphSearch.BreadthFirstExhausted | Sources/Towel/Search.cs:475 | An empty queue yields null with the breadth-first report. |
| GraphSearch.BreadthFirstHead | Sources/Towel/Search.cs:438-451 | The queue head is the entry created right after all those already checked, and the first one is the start entry. |
| GraphSearch.FifoCheckHead | Sources/Towel/Search.cs:451-452 | Checking the queue head keeps the k-th check on the k-th entry created. |
| GraphSearch.BreadthFirstBreak | Sources/Towel/Search.cs:453-456 | A Break on the queue head ends with null and the breadth-first report. |
| GraphSearch.BreadthFirstGoalReported | Sources/Towel/Search.cs:457-460 | A Goal on the queue head ends the search with that entry's chain. |
| GraphSearch.BreadthFirstGoalOrder | Sources/Towel/Search.cs:451-460 | When the queue head answers Goal, the checks stay in creation order and the expanded nodes are exactly those checked before it. The head is the entry checked last. |
| GraphSearch.BreadthFirstGoal | Sources/Towel/Search.cs:457-460 | A Goal on the queue head ends with the chain of the entry checked last. |
| GraphSearch.BreadthFirstContinue | Sources/Towel/Search.cs:461-472 | A Continue on the queue head, followed by enqueueing its children, keeps the breadth-first loop invariant. |
| GraphSearch.BreadthFirst | Sources/Towel/Search.cs:436-476 | It ends as every search promises: a found path is a walk from `start` to a node the check answers Goal on, and a Break on `start` yields null. It keeps breadth-first order. The k-th check is on the k-th entry created. Every neighbour of every expanded node got its entry. A found path is the chain of the entry checked last. |
| GraphSearch.WalkEntry | Sources/Towel/Search.cs:436-476 | Every walk from `start` shorter than the depth of the last checked entry is the chain of an entry checked and expanded before it. |
| GraphSearch.BreadthFirstDepthOrder | Sources/Towel/Search.cs:436-476 | Breadth-first search checks nodes along paths of non-decreasing length: a node checked later never has a shorter path. |
| GraphSearch.BreadthFirstShortest | Sources/Towel/Search.cs:436-476 | The path breadth-first search finds has the fewest edges: on the last node of every shorter walk from `start`, the check answers Continue. |

## Left out

- BinarySearch.BinaryArray: a null array is not modelled, because a Dafny sequence cannot be null. In the source, `array.Length` then throws a NullReferenceException. `WrapGetIndex` is not part of this model; it stands for reading the array by position.
- BinarySearch.BinaryRange: requires `index >= 0`. With a negative `index`, the sign of the result no longer tells a match from an insertion point. The public entry point only passes 0.
- **32-bit `int` overflow.** `index + length - 1` and the midpoint are computed on unbounded integers. `Binary` proves its results lie in `[-length - 1, length)`, so they fit whenever `length` does.
- **The `TowelBugException` branch of the halving loop** (Search.cs:57-60) is not modelled. A C# enum variable can hold values outside its named members, and the source throws on those. The Dafny `CompareResult` datatype has only its three values, so the model cannot express that input.
- **`HeapArray` and `QueueLinked`** are not part of this model. The heap is replaced by a sequence whose dequeue returns an entry the comparer ranks highest. The real heap's tie-breaking among equal priorities is unknown; the model takes the earliest such entry. The queue is a sequence dequeued at the front and appended at the back.
- **The lazy `Stepper`** is replaced by the sequence of values it hands to its step function.
- **Non-termination.** The source runs forever on a cyclic graph without a reachable goal. The model stops after `fuel` checks and reports `OutOfFuel`, so nothing about the runs after that bound is modelled.
- **Generic numerics.** `Numeric`, `Addition` and `Constant<Numeric>.Zero` are foreign generic arithmetic, modelled as `int`, `+` and `0`. Overflow and floating-point rounding in them are not modelled.
- **Overloads and the status struct.**
  - The `IGraph` and `Equate` overloads (Search.cs:244-262, 332-350, 415-433) are thin wrappers over types that are not part of this model.
  - The `[Obsolete]` documentation stubs have no behaviour.
  - The `Syntax.GraphSearchStatus` conversion struct (Search.cs:87-106) is replaced by the single `GraphSearchStatus` datatype.
  - `Syntax.Comparison` is not part of this model; `Compare.Comparison` stands for its default behaviour on numbers.
- GraphSearch.Dijkstra: does not promise the shortest path that the shared documentation announces (Search.cs:221). The source gives a child the priority `heuristic(neighbor)` alone (Search.cs:390), with no accumulated cost. Here is an example with goal nodes `g1` and `g2`. Let `0` have neighbours `1` and `g1`, and `1` have neighbour `g2`, with heuristics 0 for `1` and `g2` and 9 for `g1`. The search returns `[0, 1, g2]`, although `[0, g1]` has fewer edges. The model proves what the code does: least heuristic first.
- **Null callbacks in the graph searches.** The searches never test `neighbors`, `heuristic`, `cost` or `check` for null (Search.cs:265-313, 353-396, 436-476). A null delegate throws a NullReferenceException partway through the search. The model's callbacks are total functions, so that failure is not modelled.
- **Measurement types** (`Measurements/AngularAcceleration.cs`) are not part of this model. They are unit conversions over generic numerics.
