/** The three graph searches of Search.cs (A*, the Dijkstra variant and
    breadth-first search) over an implicit graph given by callbacks.

    All three run one state machine: push the start entry; while the frontier
    is not empty, take the next entry and ask `check` about its node; `Break`
    ends the search without a path, `Goal` ends it with the path to that entry,
    `Continue` pushes one new entry per neighbour. The source keeps no set of
    visited nodes, so on a cyclic graph without a reachable goal it never
    stops; the model therefore takes a `fuel` bound on the number of entries it
    takes from the frontier and reports `OutOfFuel` when that bound stops a
    search the source would have continued. */
module GraphSearch {
  import opened Wrappers
  import opened PathTree
  import opened Fringe
  import opened SearchTrees

  /** The answer of the per-node check. */
  datatype GraphSearchStatus = Continue | Break | Goal

  /** The adapter the overloads taking a goal predicate use: the node is the
      goal when the predicate holds, and the search never breaks. */
  function GoalCheck<Node(!new)>(goal: Node -> bool): (check: Node -> GraphSearchStatus)
    ensures forall n :: check(n) == Goal <==> goal(n)
    ensures forall n :: check(n) != Break
  {
    n => if goal(n) then Goal else Continue
  }

  /** What a search returns: the path the returned stepper emits, or the null
      the source returns, or (model only) that the fuel ran out first. */
  datatype Outcome<Node> = Found(path: seq<Node>) | NotFound | OutOfFuel

  /** How many entries expanding the nodes of `expanded` pushes: one per neighbour. */
  function ChildCount<Node>(neighbors: Node -> seq<Node>, expanded: seq<Node>): nat
  {
    if expanded == [] then 0
    else ChildCount(neighbors, expanded[..|expanded| - 1]) + |neighbors(Last(expanded))|
  }

  /** The checked nodes that were expanded: all of them except a last one on
      which the check answered Break or Goal. */
  ghost function Expanded<Node>(check: Node -> GraphSearchStatus, checked: seq<Node>): seq<Node>
  {
    if checked != [] && check(Last(checked)) != Continue then checked[..|checked| - 1] else checked
  }

  /** What every search promises about how it ended. `tree` holds every entry
      created and `checked` every node handed to `check`, in order.
      - at most `fuel` checks, the first on `start`;
      - every check before the last answered Continue;
      - exactly one entry per neighbour of every expanded node, plus the start;
      - Found exactly when the last check answered Goal;
      - NotFound (the source's null) exactly when the last check answered
        Break, or answered Continue and every entry created has been checked,
        that is, the frontier ran empty;
      - OutOfFuel only with entries still waiting in the frontier;
      - a found path starts with `start`, ends with the node the last check
        answered Goal on, and follows edges of the graph. */
  ghost predicate Reported<Node>(start: Node, neighbors: Node -> seq<Node>, check: Node -> GraphSearchStatus,
                                 fuel: nat, tree: seq<Entry<Node>>, checked: seq<Node>, result: Outcome<Node>)
  {
    && |checked| <= fuel
    && (fuel > 0 ==> checked != [] && checked[0] == start)
    && (forall k :: 0 <= k < |checked| - 1 ==> check(checked[k]) == Continue)
    && |checked| <= |tree|
    && |tree| == 1 + ChildCount(neighbors, Expanded(check, checked))
    && (result.Found? <==> checked != [] && check(Last(checked)) == Goal)
    && (result.NotFound? <==>
          checked != [] &&
          (check(Last(checked)) == Break || (check(Last(checked)) == Continue && |checked| == |tree|)))
    && (result.OutOfFuel? ==> |checked| == fuel < |tree|)
    && (result.Found? ==>
          result.path != [] && result.path[0] == start && Last(result.path) == Last(checked) &&
          IsWalk(neighbors, result.path))
  }

  /** What a report tells a caller about its outcome: a found path is a walk
      from `start` to a node on which the check answered Goal; no fuel means
      no check at all; a start on which the check answers Break or Goal ends
      the search at once, with no path or with a path. */
  lemma ReportedOutcome<Node>(start: Node, neighbors: Node -> seq<Node>, check: Node -> GraphSearchStatus,
                              fuel: nat, tree: seq<Entry<Node>>, checked: seq<Node>, result: Outcome<Node>)
    requires Reported(start, neighbors, check, fuel, tree, checked, result)
    ensures result.Found? ==>
      result.path != [] && result.path[0] == start && check(Last(result.path)) == Goal && IsWalk(neighbors, result.path)
    ensures fuel == 0 ==> result == OutOfFuel
    ensures 0 < fuel && check(start) == Break ==> result == NotFound
    ensures 0 < fuel && check(start) == Goal ==> result.Found?
  {
    if 0 < fuel && check(start) != Continue {
      assert |checked| == 1;
    }
  }

  /** The loop invariant the three searches share, at the head of the loop:
      every check so far answered Continue and expanded its node; each entry is
      either checked or waiting in the frontier; fuel is spent one per check. */
  ghost predicate Searching<Node>(start: Node, neighbors: Node -> seq<Node>, check: Node -> GraphSearchStatus,
                                  fuel: nat, fuelLeft: nat, arena: seq<Entry<Node>>, fringe: seq<nat>,
                                  checked: seq<Node>)
  {
    && |checked| + fuelLeft == fuel
    && |checked| + |fringe| == |arena|
    && (checked == [] ==> fringe == [0])
    && (checked != [] ==> checked[0] == start)
    && (forall k :: 0 <= k < |checked| ==> check(checked[k]) == Continue)
    && |arena| == 1 + ChildCount(neighbors, checked)
  }

  /** The fuel ran out with entries still in the frontier. */
  lemma OutOfFuelReported<Node>(start: Node, neighbors: Node -> seq<Node>, check: Node -> GraphSearchStatus,
                                fuel: nat, arena: seq<Entry<Node>>, fringe: seq<nat>, checked: seq<Node>)
    requires Searching(start, neighbors, check, fuel, 0, arena, fringe, checked) && fringe != []
    ensures Reported(start, neighbors, check, fuel, arena, checked, OutOfFuel)
  {
  }

  /** The frontier ran empty: every entry created was checked and expanded. */
  lemma ExhaustedReported<Node>(start: Node, neighbors: Node -> seq<Node>, check: Node -> GraphSearchStatus,
                                fuel: nat, fuelLeft: nat, arena: seq<Entry<Node>>, checked: seq<Node>)
    requires Searching(start, neighbors, check, fuel, fuelLeft, arena, [], checked)
    ensures Reported(start, neighbors, check, fuel, arena, checked, NotFound)
  {
  }

  /** The check on the dequeued node `v` answered Break: the search ends
      without a path. */
  lemma BreakReported<Node>(start: Node, neighbors: Node -> seq<Node>, check: Node -> GraphSearchStatus,
                            fuel: nat, fuelLeft: nat, arena: seq<Entry<Node>>, fringe: seq<nat>,
                            checked: seq<Node>, v: Node)
    requires Searching(start, neighbors, check, fuel, fuelLeft, arena, fringe, checked)
    requires fuelLeft > 0 && fringe != [] && (checked == [] ==> v == start)
    requires check(v) == Break
    ensures Reported(start, neighbors, check, fuel, arena, checked + [v], NotFound)
  {
    assert (checked + [v])[..|checked|] == checked;
  }

  /** The check on the node of entry `c`, just dequeued, answered Goal: the
      search ends with the chain of `c`. */
  lemma GoalReported<Node>(start: Node, neighbors: Node -> seq<Node>, check: Node -> GraphSearchStatus,
                           fuel: nat, fuelLeft: nat, arena: seq<Entry<Node>>, fringe: seq<nat>,
                           checked: seq<Node>, c: nat)
    requires Searching(start, neighbors, check, fuel, fuelLeft, arena, fringe, checked)
    requires SearchTree(arena, start, neighbors) && c < |arena|
    requires fuelLeft > 0 && fringe != [] && (checked == [] ==> c == 0)
    requires check(arena[c].value) == Goal
    ensures Reported(start, neighbors, check, fuel, arena, checked + [arena[c].value], Found(Chain(arena, c)))
  {
    ChainFollowsEdges(arena, start, neighbors, c);
    assert (checked + [arena[c].value])[..|checked|] == checked;
  }

  /** The check on the dequeued node `v` answered Continue and one entry per
      neighbour of `v` was pushed: the loop goes on. */
  lemma ContinueSearching<Node>(start: Node, neighbors: Node -> seq<Node>, check: Node -> GraphSearchStatus,
                                fuel: nat, fuelLeft: nat, arena: seq<Entry<Node>>, fringe: seq<nat>,
                                checked: seq<Node>, v: Node, arena': seq<Entry<Node>>, fringe': seq<nat>)
    requires Searching(start, neighbors, check, fuel, fuelLeft, arena, fringe, checked)
    requires fuelLeft > 0 && fringe != [] && (checked == [] ==> v == start)
    requires check(v) == Continue
    requires |arena'| == |arena| + |neighbors(v)| && |fringe'| == |fringe| - 1 + |neighbors(v)|
    ensures Searching(start, neighbors, check, fuel, fuelLeft - 1, arena', fringe', checked + [v])
  {
    assert (checked + [v])[..|checked|] == checked;
  }

  /** `fringe'` is `fringe` with the indices of the entries that `arena'`
      adds to `arena` enqueued after it, in creation order. */
  ghost predicate HeapPushed<Node>(arena: seq<Entry<Node>>, fringe: seq<nat>, arena': seq<Entry<Node>>, fringe': seq<nat>)
  {
    && |arena| <= |arena'| && arena'[..|arena|] == arena
    && |fringe'| == |fringe| + (|arena'| - |arena|) && fringe'[..|fringe|] == fringe
    && forall k :: |fringe| <= k < |fringe'| ==> fringe'[k] == |arena| - |fringe| + k
  }

  /** Enqueueing the new entries keeps every heap element an entry of the arena. */
  lemma HeapPushedInArena<Node>(arena: seq<Entry<Node>>, fringe: seq<nat>, arena': seq<Entry<Node>>, fringe': seq<nat>)
    requires InArena(arena, fringe) && HeapPushed(arena, fringe, arena', fringe')
    ensures InArena(arena', fringe')
  {
    forall x | x in fringe'
      ensures x < |arena'|
    {
      var k :| 0 <= k < |fringe'| && fringe'[k] == x;
      if k < |fringe| {
        assert fringe'[..|fringe|][k] == x && fringe[k] in fringe;
      }
    }
  }

  /** Number of entries that exist when the `k`-th check happens: the start
      entry and the children of the `k` nodes checked (and expanded) before. */
  function Created<Node>(neighbors: Node -> seq<Node>, checked: seq<Node>, k: nat): nat
    requires k <= |checked|
  {
    1 + ChildCount(neighbors, checked[..k])
  }

  /** More checks, more entries. */
  lemma {:induction false} CreatedMonotone<Node>(neighbors: Node -> seq<Node>, checked: seq<Node>, q: nat, k: nat)
    requires q <= k <= |checked|
    ensures Created(neighbors, checked, q) <= Created(neighbors, checked, k)
    decreases k
  {
    if q < k {
      CreatedMonotone(neighbors, checked, q, k - 1);
      assert checked[..k][..k - 1] == checked[..k - 1];
    }
  }

  /** An index missing from the first `k - 1` dequeues and different from
      the `k`-th is missing from the first `k`. */
  lemma NotInPrefix(order: seq<nat>, k: nat, x: nat)
    requires 0 < k <= |order| && x !in order[..k - 1] && x != order[k - 1]
    ensures x !in order[..k]
  {
    assert order[..k] == order[..k - 1] + [order[k - 1]];
  }

  /** The dequeue order of a heap search: the k-th check was on entry
      `order[k]`, which existed by then and had not been dequeued before, and
      no entry that existed by then and had not been dequeued before has a
      smaller priority. */
  ghost predicate LeastFirst<Node>(neighbors: Node -> seq<Node>, tree: seq<Entry<Node>>, checked: seq<Node>,
                                   order: seq<nat>)
  {
    && |order| == |checked|
    && (forall k :: 0 <= k < |order| ==> order[k] < Created(neighbors, checked, k) && order[k] !in order[..k])
    && (forall k :: 0 <= k < |order| ==> order[k] < |tree| && checked[k] == tree[order[k]].value)
    && (forall k, i :: 0 <= k < |order| && 0 <= i < Created(neighbors, checked, k) && i < |tree| && i !in order[..k] ==>
          tree[order[k]].priority <= tree[i].priority)
  }

  /** Every neighbour of the k-th expanded node has its entry, at its
      ChildIndex and expanded from the entry `order[k]` that node was checked on. */
  ghost predicate ExpandedChildren<Node>(neighbors: Node -> seq<Node>, tree: seq<Entry<Node>>, expanded: seq<Node>,
                                         order: seq<nat>)
  {
    forall k, m :: 0 <= k < |expanded| && k < |order| && 0 <= m < |neighbors(expanded[k])| ==>
      && ChildIndex(neighbors, expanded, k, m) < |tree|
      && tree[ChildIndex(neighbors, expanded, k, m)].previous == Some(order[k])
      && tree[ChildIndex(neighbors, expanded, k, m)].value == neighbors(expanded[k])[m]
  }

  /** The heap part of the loop invariant of A* and of the Dijkstra variant:
      the heap holds, once each, exactly the entries not dequeued yet. */
  ghost predicate HeapOrder<Node>(neighbors: Node -> seq<Node>, arena: seq<Entry<Node>>, fringe: seq<nat>,
                                  checked: seq<Node>, order: seq<nat>)
  {
    && InArena(arena, fringe)
    && Distinct(fringe)
    && (forall x :: x in fringe ==> x !in order)
    && (forall i :: 0 <= i < |arena| && i !in order ==> i in fringe)
    && LeastFirst(neighbors, arena, checked, order)
    && ExpandedChildren(neighbors, arena, checked, order)
  }

  /** What A* and the Dijkstra variant promise about their heap: the checks
      came in least-priority-first order, every expanded node's neighbours got
      entries, and a found path is the chain of the entry dequeued last. */
  ghost predicate HeapReported<Node>(neighbors: Node -> seq<Node>, check: Node -> GraphSearchStatus,
                                     tree: seq<Entry<Node>>, checked: seq<Node>, order: seq<nat>, result: Outcome<Node>)
  {
    && LeastFirst(neighbors, tree, checked, order)
    && ExpandedChildren(neighbors, tree, Expanded(check, checked), order)
    && (result.Found? ==> order != [] && Linked(tree) && Last(order) < |tree| && result.path == Chain(tree, Last(order)))
  }

  /** The entry the heap yields ranks before every entry not dequeued yet. */
  lemma HeapTop<Node>(neighbors: Node -> seq<Node>, arena: seq<Entry<Node>>, fringe: seq<nat>, checked: seq<Node>,
                      order: seq<nat>, c: nat)
    requires HeapOrder(neighbors, arena, fringe, checked, order)
    requires c in fringe && forall x :: x in fringe ==> arena[c].priority <= arena[x].priority
    ensures c < |arena| && c !in order
    ensures forall i :: 0 <= i < |arena| && i !in order ==> arena[c].priority <= arena[i].priority
  {
  }

  /** Dequeuing entry `c`, not dequeued before, extends the dequeue order;
      creating more entries does not change the order so far. */
  lemma LeastFirstOrderExtend<Node>(neighbors: Node -> seq<Node>, arena: seq<Entry<Node>>, arena': seq<Entry<Node>>,
                                    checked: seq<Node>, order: seq<nat>, c: nat)
    requires LeastFirst(neighbors, arena, checked, order)
    requires |arena| == 1 + ChildCount(neighbors, checked)
    requires |arena| <= |arena'| && arena'[..|arena|] == arena
    requires c < |arena| && c !in order
    ensures forall k :: 0 <= k < |order| + 1 ==>
      (order + [c])[k] < Created(neighbors, checked + [arena[c].value], k) && (order + [c])[k] !in (order + [c])[..k]
    ensures forall k :: 0 <= k < |order| + 1 ==>
      (order + [c])[k] < |arena'| && (checked + [arena[c].value])[k] == arena'[(order + [c])[k]].value
  {
    var checked', order' := checked + [arena[c].value], order + [c];
    var n := |order|;
    assert checked'[..n] == checked;
    forall k | 0 <= k < |order'|
      ensures order'[k] < Created(neighbors, checked', k) && order'[k] !in order'[..k]
      ensures order'[k] < |arena'| && checked'[k] == arena'[order'[k]].value
    {
      assert checked'[..k] == checked[..k];
      if k < n {
        assert order'[..k] == order[..k] && order'[k] == order[k];
        CreatedMonotone(neighbors, checked, k, n);
        assert arena'[order[k]] == arena'[..|arena|][order[k]];
      } else {
        assert order'[..k] == order;
      }
    }
  }

  /** Dequeuing entry `c`, of least priority among the entries not dequeued
      yet, keeps every dequeue of least priority at its time; creating more
      entries does not change that. */
  lemma LeastFirstPriorityExtend<Node>(neighbors: Node -> seq<Node>, arena: seq<Entry<Node>>, arena': seq<Entry<Node>>,
                                       checked: seq<Node>, order: seq<nat>, c: nat)
    requires LeastFirst(neighbors, arena, checked, order)
    requires |arena| == 1 + ChildCount(neighbors, checked)
    requires |arena| <= |arena'| && arena'[..|arena|] == arena
    requires c < |arena|
    requires forall i :: 0 <= i < |arena| && i !in order ==> arena[c].priority <= arena[i].priority
    ensures forall k, i :: 0 <= k < |order| + 1 && 0 <= i < Created(neighbors, checked + [arena[c].value], k) &&
                           i < |arena'| && i !in (order + [c])[..k] ==>
      arena'[(order + [c])[k]].priority <= arena'[i].priority
  {
    var checked', order' := checked + [arena[c].value], order + [c];
    var n := |order|;
    assert checked[..n] == checked;
    forall k, i | 0 <= k < |order'| && 0 <= i < Created(neighbors, checked', k) && i < |arena'| && i !in order'[..k]
      ensures arena'[order'[k]].priority <= arena'[i].priority
    {
      assert checked'[..k] == checked[..k];
      if k < n {
        assert order'[..k] == order[..k] && order'[k] == order[k];
        CreatedMonotone(neighbors, checked, k, n);
        assert i < Created(neighbors, checked, n) == |arena|;
        assert arena'[order[k]] == arena'[..|arena|][order[k]] && arena'[i] == arena'[..|arena|][i];
      } else {
        assert order'[..k] == order && checked[..k] == checked;
        assert arena'[c] == arena'[..|arena|][c] && arena'[i] == arena'[..|arena|][i];
      }
    }
  }

  /** Dequeuing entry `c`, of least priority among the entries not dequeued
      yet, extends the least-first order. */
  lemma LeastFirstExtend<Node>(neighbors: Node -> seq<Node>, arena: seq<Entry<Node>>, arena': seq<Entry<Node>>,
                               checked: seq<Node>, order: seq<nat>, c: nat)
    requires LeastFirst(neighbors, arena, checked, order)
    requires |arena| == 1 + ChildCount(neighbors, checked)
    requires |arena| <= |arena'| && arena'[..|arena|] == arena
    requires c < |arena| && c !in order
    requires forall i :: 0 <= i < |arena| && i !in order ==> arena[c].priority <= arena[i].priority
    ensures LeastFirst(neighbors, arena', checked + [arena[c].value], order + [c])
  {
    LeastFirstOrderExtend(neighbors, arena, arena', checked, order, c);
    LeastFirstPriorityExtend(neighbors, arena, arena', checked, order, c);
  }

  /** Creating more entries and dequeuing one more keeps the children of the
      nodes expanded so far where they are. */
  lemma ExpandedChildrenKept<Node>(neighbors: Node -> seq<Node>, arena: seq<Entry<Node>>, arena': seq<Entry<Node>>,
                                   expanded: seq<Node>, order: seq<nat>, c: nat)
    requires ExpandedChildren(neighbors, arena, expanded, order) && |expanded| <= |order|
    requires |arena| <= |arena'| && arena'[..|arena|] == arena
    ensures ExpandedChildren(neighbors, arena', expanded, order + [c])
  {
    forall k, m | 0 <= k < |expanded| && k < |order| + 1 && 0 <= m < |neighbors(expanded[k])|
      ensures ChildIndex(neighbors, expanded, k, m) < |arena'|
      ensures arena'[ChildIndex(neighbors, expanded, k, m)].previous == Some((order + [c])[k])
      ensures arena'[ChildIndex(neighbors, expanded, k, m)].value == neighbors(expanded[k])[m]
    {
      var i := ChildIndex(neighbors, expanded, k, m);
      assert arena'[i] == arena'[..|arena|][i] && (order + [c])[k] == order[k];
    }
  }

  /** Expanding the dequeued entry `c` creates one entry per neighbour of its
      node, at the next ChildIndex and expanded from `c`. */
  lemma ExpandedChildrenExtend<Node>(neighbors: Node -> seq<Node>, arena: seq<Entry<Node>>, arena': seq<Entry<Node>>,
                                     checked: seq<Node>, order: seq<nat>, c: nat)
    requires ExpandedChildren(neighbors, arena, checked, order) && |checked| == |order|
    requires |arena| == 1 + ChildCount(neighbors, checked) && c < |arena|
    requires Pushed(arena, arena', c, neighbors(arena[c].value))
    ensures ExpandedChildren(neighbors, arena', checked + [arena[c].value], order + [c])
  {
    var v := arena[c].value;
    var e, order' := checked + [v], order + [c];
    forall k, m | 0 <= k < |e| && k < |order'| && 0 <= m < |neighbors(e[k])|
      ensures ChildIndex(neighbors, e, k, m) < |arena'|
      ensures arena'[ChildIndex(neighbors, e, k, m)].previous == Some(order'[k])
      ensures arena'[ChildIndex(neighbors, e, k, m)].value == neighbors(e[k])[m]
    {
      assert e[..k] == checked[..k];
      if k < |checked| {
        var i := ChildIndex(neighbors, checked, k, m);
        assert e[k] == checked[k] && order'[k] == order[k] && ChildIndex(neighbors, e, k, m) == i;
        assert arena'[..|arena|][i] == arena[i];
      } else {
        var i := |arena| + m;
        assert checked[..k] == checked && e[k] == v && order'[k] == c && ChildIndex(neighbors, e, k, m) == i;
        assert arena'[i].value == neighbors(v)[i - |arena|];
      }
    }
  }

  /** Enqueueing the entries just created after dequeuing `c` keeps the heap
      holding, once each, exactly the entries not dequeued yet. */
  lemma HeapFringeContinue<Node>(arena: seq<Entry<Node>>, fringe: seq<nat>, order: seq<nat>, c: nat, rest: seq<nat>,
                                 arena': seq<Entry<Node>>, fringe': seq<nat>)
    requires InArena(arena, fringe) && Distinct(fringe)
    requires forall x :: x in fringe ==> x !in order
    requires forall i :: 0 <= i < |arena| && i !in order ==> i in fringe
    requires forall k :: 0 <= k < |order| ==> order[k] < |arena|
    requires c in fringe && multiset(fringe) == multiset(rest) + multiset{c}
    requires Distinct(rest) && c !in rest && InArena(arena, rest)
    requires HeapPushed(arena, rest, arena', fringe')
    ensures InArena(arena', fringe') && Distinct(fringe')
    ensures forall x :: x in fringe' ==> x !in order + [c]
    ensures forall i :: 0 <= i < |arena'| && i !in order + [c] ==> i in fringe'
  {
    HeapPushedInArena(arena, rest, arena', fringe');
    forall p | 0 <= p < |rest|
      ensures fringe'[p] == rest[p] && rest[p] in fringe && rest[p] < |arena|
    {
      assert fringe'[..|rest|][p] == rest[p] && rest[p] in rest;
      assert rest[p] in multiset(rest);
      assert rest[p] in multiset(fringe);
    }
    forall p, q | 0 <= p < q < |fringe'|
      ensures fringe'[p] != fringe'[q]
    {
    }
    forall x | x in fringe'
      ensures x !in order + [c]
    {
      var k :| 0 <= k < |fringe'| && fringe'[k] == x;
      if k >= |rest| {
        assert x >= |arena|;
      }
    }
    forall i | 0 <= i < |arena'| && i !in order + [c]
      ensures i in fringe'
    {
      if i < |arena| {
        assert i in fringe && i != c;
        assert i in multiset(fringe) && multiset{c}[i] == 0;
        assert i in multiset(rest);
        var p :| 0 <= p < |rest| && rest[p] == i;
        assert fringe'[p] == i;
      } else {
        assert fringe'[|rest| + (i - |arena|)] == i;
      }
    }
  }

  /** The check on the dequeued entry `c` answered Continue and the entries
      for its neighbours were created and enqueued: the heap part of the loop
      invariant holds again. */
  lemma HeapContinue<Node>(neighbors: Node -> seq<Node>, arena: seq<Entry<Node>>, fringe: seq<nat>,
                           checked: seq<Node>, order: seq<nat>, c: nat, rest: seq<nat>,
                           arena': seq<Entry<Node>>, fringe': seq<nat>)
    requires HeapOrder(neighbors, arena, fringe, checked, order) && |arena| == 1 + ChildCount(neighbors, checked)
    requires c in fringe && forall x :: x in fringe ==> arena[c].priority <= arena[x].priority
    requires multiset(fringe) == multiset(rest) + multiset{c} && InArena(arena, rest)
    requires Distinct(fringe) ==> Distinct(rest) && c !in rest
    requires HeapPushed(arena, rest, arena', fringe') && Pushed(arena, arena', c, neighbors(arena[c].value))
    ensures HeapOrder(neighbors, arena', fringe', checked + [arena[c].value], order + [c])
  {
    HeapTop(neighbors, arena, fringe, checked, order, c);
    HeapFringeContinue(arena, fringe, order, c, rest, arena', fringe');
    LeastFirstExtend(neighbors, arena, arena', checked, order, c);
    ExpandedChildrenExtend(neighbors, arena, arena', checked, order, c);
  }

  /** The check on the dequeued entry `c` answered Break or Goal: the search
      ends, with the chain of `c` if it found a path. */
  lemma HeapStopped<Node>(neighbors: Node -> seq<Node>, check: Node -> GraphSearchStatus, arena: seq<Entry<Node>>,
                          fringe: seq<nat>, checked: seq<Node>, order: seq<nat>, c: nat, result: Outcome<Node>)
    requires HeapOrder(neighbors, arena, fringe, checked, order) && |arena| == 1 + ChildCount(neighbors, checked)
    requires c in fringe && forall x :: x in fringe ==> arena[c].priority <= arena[x].priority
    requires check(arena[c].value) != Continue
    requires result.Found? ==> Linked(arena) && result.path == Chain(arena, c)
    ensures HeapReported(neighbors, check, arena, checked + [arena[c].value], order + [c], result)
  {
    var checked' := checked + [arena[c].value];
    HeapTop(neighbors, arena, fringe, checked, order, c);
    LeastFirstExtend(neighbors, arena, arena, checked, order, c);
    ExpandedChildrenKept(neighbors, arena, arena, checked, order, c);
    assert checked'[..|checked|] == checked;
    assert Expanded(check, checked') == checked;
  }

  /** The search ended without a goal and without a Break (the heap ran
      empty or the fuel ran out): every checked node was expanded. */
  lemma HeapUnfinished<Node>(neighbors: Node -> seq<Node>, check: Node -> GraphSearchStatus, arena: seq<Entry<Node>>,
                             fringe: seq<nat>, checked: seq<Node>, order: seq<nat>, result: Outcome<Node>)
    requires HeapOrder(neighbors, arena, fringe, checked, order)
    requires forall k :: 0 <= k < |checked| ==> check(checked[k]) == Continue
    requires !result.Found?
    ensures HeapReported(neighbors, check, arena, checked, order, result)
  {
    assert Expanded(check, checked) == checked;
  }

  /** The loop invariant of A*. */
  ghost predicate AstarSearching<Node>(start: Node, neighbors: Node -> seq<Node>, heuristic: Node -> int,
                                       cost: (Node, Node) -> int, check: Node -> GraphSearchStatus, fuel: nat,
                                       fuelLeft: nat, arena: seq<Entry<Node>>, fringe: seq<nat>, checked: seq<Node>,
                                       order: seq<nat>)
  {
    && AstarTree(arena, start, neighbors, heuristic, cost)
    && HeapOrder(neighbors, arena, fringe, checked, order)
    && Searching(start, neighbors, check, fuel, fuelLeft, arena, fringe, checked)
  }

  /** The neighbour loop of A*: one A* child of entry `c` per neighbour in
      `ns`, in order, each created and then enqueued. */
  method AstarEnqueue<Node>(arena: seq<Entry<Node>>, fringe: seq<nat>, current: Entry<Node>, c: nat, ns: seq<Node>,
                            heuristic: Node -> int, cost: (Node, Node) -> int)
    returns (arena': seq<Entry<Node>>, fringe': seq<nat>)
    ensures HeapPushed(arena, fringe, arena', fringe') && |arena'| == |arena| + |ns|
    ensures forall i :: |arena| <= i < |arena'| ==> arena'[i] == AstarChild(current, c, ns[i - |arena|], heuristic, cost)
  {
    arena', fringe' := arena, fringe;
    for j := 0 to |ns|
      invariant HeapPushed(arena, fringe, arena', fringe') && |arena'| == |arena| + j
      invariant forall i :: |arena| <= i < |arena'| ==> arena'[i] == AstarChild(current, c, ns[i - |arena|], heuristic, cost)
    {
      arena' := arena' + [AstarChild(current, c, ns[j], heuristic, cost)];
      fringe' := fringe' + [|arena'| - 1];
    }
  }

  /** The check on the dequeued entry `c` answered Continue and its A*
      children were enqueued: the A* loop goes on. */
  lemma AstarContinue<Node>(start: Node, neighbors: Node -> seq<Node>, heuristic: Node -> int,
                            cost: (Node, Node) -> int, check: Node -> GraphSearchStatus, fuel: nat,
                            fuelLeft: nat, arena: seq<Entry<Node>>, fringe: seq<nat>, checked: seq<Node>,
                            order: seq<nat>, c: nat, rest: seq<nat>, arena': seq<Entry<Node>>, fringe': seq<nat>)
    requires AstarSearching(start, neighbors, heuristic, cost, check, fuel, fuelLeft, arena, fringe, checked, order)
    requires fuelLeft > 0 && c in fringe && c < |arena| && |rest| == |fringe| - 1 && InArena(arena, rest)
    requires forall x :: x in fringe ==> arena[c].priority <= arena[x].priority
    requires multiset(fringe) == multiset(rest) + multiset{c} && (Distinct(fringe) ==> Distinct(rest) && c !in rest)
    requires check(arena[c].value) == Continue
    requires HeapPushed(arena, rest, arena', fringe') && |arena'| == |arena| + |neighbors(arena[c].value)|
    requires forall i :: |arena| <= i < |arena'| ==>
      arena'[i] == AstarChild(arena[c], c, neighbors(arena[c].value)[i - |arena|], heuristic, cost)
    ensures AstarSearching(start, neighbors, heuristic, cost, check, fuel, fuelLeft - 1, arena', fringe',
                           checked + [arena[c].value], order + [c])
  {
    assert Pushed(arena, arena', c, neighbors(arena[c].value));
    AstarTreePushed(arena, arena', start, neighbors, heuristic, cost, c);
    HeapContinue(neighbors, arena, fringe, checked, order, c, rest, arena', fringe');
    ContinueSearching(start, neighbors, check, fuel, fuelLeft, arena, fringe, checked, arena[c].value, arena', fringe');
  }

  /** A* (the Graph overload taking heuristic, cost and check): a heap ordered
      by PriorityCompare; a child's cost is its parent's plus the edge cost and
      its priority the heuristic plus that cost; on Goal the total cost is that
      of the returned path, on no path it is the default 0. */
  method AStar<Node>(start: Node, neighbors: Node -> seq<Node>, heuristic: Node -> int,
                     cost: (Node, Node) -> int, check: Node -> GraphSearchStatus, fuel: nat)
    returns (result: Outcome<Node>, totalCost: int, ghost tree: seq<Entry<Node>>, ghost checked: seq<Node>,
             ghost order: seq<nat>)
    ensures Reported(start, neighbors, check, fuel, tree, checked, result)
    ensures result.Found? ==>
      result.path != [] && result.path[0] == start && check(Last(result.path)) == Goal && IsWalk(neighbors, result.path)
    ensures fuel == 0 ==> result == OutOfFuel
    ensures 0 < fuel && check(start) == Break ==> result == NotFound
    ensures 0 < fuel && check(start) == Goal ==> result.Found?
    ensures AstarTree(tree, start, neighbors, heuristic, cost)
    ensures HeapReported(neighbors, check, tree, checked, order, result)
    ensures result.Found? ==> totalCost == PathCost(cost, result.path)
    ensures result.NotFound? ==> totalCost == 0
  {
    var arena := [Entry(start, None, 0, 0)];
    var fringe: seq<nat> := [0];
    var fuelLeft := fuel;
    checked, order := [], [];
    ghost var broken := false;
    while fringe != []
      invariant AstarSearching(start, neighbors, heuristic, cost, check, fuel, fuelLeft, arena, fringe, checked, order)
      invariant !broken
      decreases fuelLeft
    {
      if fuelLeft == 0 {
        OutOfFuelReported(start, neighbors, check, fuel, arena, fringe, checked);
        HeapUnfinished(neighbors, check, arena, fringe, checked, order, OutOfFuel);
        tree := arena;
        ReportedOutcome(start, neighbors, check, fuel, tree, checked, OutOfFuel);
        return OutOfFuel, 0, tree, checked, order;
      }
      var c, rest := DequeueMin(arena, fringe);
      var current := arena[c];
      assert checked == [] ==> c == 0 && current.value == start;
      var status := check(current.value);
      if status == Break {
        BreakReported(start, neighbors, check, fuel, fuelLeft, arena, fringe, checked, current.value);
        HeapStopped(neighbors, check, arena, fringe, checked, order, c, NotFound);
        checked, order := checked + [current.value], order + [c];
        broken := true;
        break;
      } else if status == Goal {
        var list := BuildPath(arena, c);
        var path := Walk(list);
        AccumulatedCost(arena, start, neighbors, heuristic, cost, c);
        GoalReported(start, neighbors, check, fuel, fuelLeft, arena, fringe, checked, c);
        HeapStopped(neighbors, check, arena, fringe, checked, order, c, Found(path));
        checked, order := checked + [current.value], order + [c];
        tree := arena;
        ReportedOutcome(start, neighbors, check, fuel, tree, checked, Found(path));
        return Found(path), current.cost, tree, checked, order;
      } else {
        var arena', fringe' := AstarEnqueue(arena, rest, current, c, neighbors(current.value), heuristic, cost);
        AstarContinue(start, neighbors, heuristic, cost, check, fuel, fuelLeft, arena, fringe, checked, order, c, rest, arena', fringe');
        arena, fringe := arena', fringe';
        checked, order := checked + [current.value], order + [c];
        fuelLeft := fuelLeft - 1;
      }
    }
    if !broken {
      ExhaustedReported(start, neighbors, check, fuel, fuelLeft, arena, checked);
      HeapUnfinished(neighbors, check, arena, fringe, checked, order, NotFound);
    }
    tree := arena;
    result, totalCost := NotFound, 0;
    ReportedOutcome(start, neighbors, check, fuel, tree, checked, result);
  }

  /** An admissible heuristic never overestimates: along every walk that ends
      on a node the check answers Goal on, the heuristic of the walk's first
      node is at most the walk's cost. */
  ghost predicate Admissible<Node(!new)>(neighbors: Node -> seq<Node>, check: Node -> GraphSearchStatus,
                                   heuristic: Node -> int, cost: (Node, Node) -> int)
  {
    forall w :: w != [] && IsWalk(neighbors, w) && check(Last(w)) == Goal ==> heuristic(w[0]) <= PathCost(cost, w)
  }

  /** Before the k-th check of a heap search that ended on a Goal, some
      entry created and not dequeued yet holds, as its chain, a prefix of any
      walk `w` from the start to a goal node: the start entry at first, and
      whenever that entry is dequeued its child for the next node of `w`. */
  lemma {:induction false} PrefixPending<Node>(start: Node, neighbors: Node -> seq<Node>, check: Node -> GraphSearchStatus,
                                               tree: seq<Entry<Node>>, checked: seq<Node>, order: seq<nat>,
                                               w: seq<Node>, k: nat)
      returns (e: nat, j: nat)
    requires SearchTree(tree, start, neighbors)
    requires checked != [] && check(Last(checked)) == Goal
    requires forall q :: 0 <= q < |checked| - 1 ==> check(checked[q]) == Continue
    requires LeastFirst(neighbors, tree, checked, order)
    requires ExpandedChildren(neighbors, tree, Expanded(check, checked), order)
    requires w != [] && w[0] == start && IsWalk(neighbors, w) && check(Last(w)) == Goal
    requires k < |checked|
    ensures e < Created(neighbors, checked, k) && e < |tree| && e !in order[..k]
    ensures j < |w| && Chain(tree, e) == w[..j + 1]
    decreases k
  {
    if k == 0 {
      e, j := 0, 0;
    } else {
      e, j := PrefixPending(start, neighbors, check, tree, checked, order, w, k - 1);
      CreatedMonotone(neighbors, checked, k - 1, k);
      if order[k - 1] != e {
        NotInPrefix(order, k, e);
      } else {
        assert checked[k - 1] == w[j] by {
          assert w[..j + 1][j] == w[j];
        }
        assert check(checked[k - 1]) == Continue;
        assert j < |w| - 1 && w[j + 1] in neighbors(w[j]);
        var child := PendingChild(neighbors, check, tree, checked, order, w, k, e, j);
        ChainStep(tree, e, child, w, j);
        e, j := child, j + 1;
      }
    }
  }

  /** The entries created by the k-th check are those created before it plus
      one per neighbour of its node. */
  lemma CreatedStep<Node>(neighbors: Node -> seq<Node>, checked: seq<Node>, k: nat)
    requires 0 < k <= |checked|
    ensures Created(neighbors, checked, k) == Created(neighbors, checked, k - 1) + |neighbors(checked[k - 1])|
  {
    assert checked[..k][..k - 1] == checked[..k - 1];
  }

  /** When the pending entry `e`, holding the prefix of `w` up to its `j`-th
      node, is dequeued by the k-th check and expanded, its child for the next
      node of `w` is created then and has not been dequeued. */
  lemma PendingChild<Node>(neighbors: Node -> seq<Node>, check: Node -> GraphSearchStatus, tree: seq<Entry<Node>>,
                           checked: seq<Node>, order: seq<nat>, w: seq<Node>, k: nat, e: nat, j: nat)
      returns (child: nat)
    requires checked != [] && check(Last(checked)) != Continue && 0 < k < |checked|
    requires LeastFirst(neighbors, tree, checked, order)
    requires ExpandedChildren(neighbors, tree, Expanded(check, checked), order)
    requires order[k - 1] == e && j + 1 < |w| && checked[k - 1] == w[j] && w[j + 1] in neighbors(w[j])
    ensures child < |tree| && child !in order[..k]
    ensures Created(neighbors, checked, k - 1) <= child < Created(neighbors, checked, k)
    ensures tree[child].previous == Some(e) && tree[child].value == w[j + 1]
  {
    var v := checked[k - 1];
    var m :| 0 <= m < |neighbors(v)| && neighbors(v)[m] == w[j + 1];
    var expanded := Expanded(check, checked);
    assert expanded[..k - 1] == checked[..k - 1];
    assert expanded[k - 1] == v;
    child := ChildIndex(neighbors, expanded, k - 1, m);
    CreatedStep(neighbors, checked, k);
    forall q | 0 <= q < k
      ensures order[q] != child
    {
      CreatedMonotone(neighbors, checked, q, k - 1);
    }
  }

  /** A* returns a cheapest path: when the heuristic is admissible and never
      negative, no walk from the start to a node the check answers Goal on
      costs less than the path found, whose cost the search reports. */
  lemma AstarOptimal<Node(!new)>(start: Node, neighbors: Node -> seq<Node>, heuristic: Node -> int,
                           cost: (Node, Node) -> int, check: Node -> GraphSearchStatus, fuel: nat,
                           tree: seq<Entry<Node>>, checked: seq<Node>, order: seq<nat>, result: Outcome<Node>,
                           w: seq<Node>)
    requires Reported(start, neighbors, check, fuel, tree, checked, result)
    requires AstarTree(tree, start, neighbors, heuristic, cost)
    requires HeapReported(neighbors, check, tree, checked, order, result)
    requires result.Found?
    requires Admissible(neighbors, check, heuristic, cost) && forall n :: 0 <= heuristic(n)
    requires w != [] && w[0] == start && IsWalk(neighbors, w) && check(Last(w)) == Goal
    ensures PathCost(cost, result.path) <= PathCost(cost, w)
  {
    var g := |checked| - 1;
    var goal := order[g];
    var e, j := PrefixPending(start, neighbors, check, tree, checked, order, w, g);
    assert tree[goal].priority <= tree[e].priority;
    PendingBound(start, neighbors, heuristic, cost, check, tree, w, e, j);
    AccumulatedCost(tree, start, neighbors, heuristic, cost, goal);
    assert result.path == Chain(tree, goal);
    assert tree[goal].cost == PathCost(cost, result.path);
    if goal == 0 {
      assert CostStep(tree, heuristic, cost, 0);
      assert heuristic(w[0]) <= PathCost(cost, w);
    } else {
      assert 0 <= heuristic(tree[goal].value);
      assert tree[goal].cost <= tree[goal].priority;
    }
  }

  /** An entry whose chain is a prefix of a walk to a goal node has an A*
      priority no larger than the cost of that walk, when the heuristic is
      admissible and never negative. */
  lemma PendingBound<Node(!new)>(start: Node, neighbors: Node -> seq<Node>, heuristic: Node -> int,
                                 cost: (Node, Node) -> int, check: Node -> GraphSearchStatus,
                                 tree: seq<Entry<Node>>, w: seq<Node>, e: nat, j: nat)
    requires AstarTree(tree, start, neighbors, heuristic, cost) && e < |tree|
    requires Admissible(neighbors, check, heuristic, cost) && forall n :: 0 <= heuristic(n)
    requires w != [] && IsWalk(neighbors, w) && check(Last(w)) == Goal
    requires j < |w| && Chain(tree, e) == w[..j + 1]
    ensures tree[e].priority <= PathCost(cost, w)
  {
    AccumulatedCost(tree, start, neighbors, heuristic, cost, e);
    if e == 0 {
      assert CostStep(tree, heuristic, cost, 0);
      assert heuristic(w[0]) <= PathCost(cost, w);
    } else {
      var rest := w[j..];
      WalkSuffix(neighbors, w, j);
      assert Last(rest) == Last(w);
      assert heuristic(rest[0]) <= PathCost(cost, rest);
      PathCostSplit(cost, w, j);
      assert tree[e].value == w[j] by {
        assert w[..j + 1][j] == w[j];
      }
    }
  }

  /** The loop invariant of the Dijkstra variant. */
  ghost predicate DijkstraSearching<Node>(start: Node, neighbors: Node -> seq<Node>, heuristic: Node -> int,
                                          check: Node -> GraphSearchStatus, fuel: nat, fuelLeft: nat,
                                          arena: seq<Entry<Node>>, fringe: seq<nat>, checked: seq<Node>,
                                          order: seq<nat>)
  {
    && DijkstraTree(arena, start, neighbors, heuristic)
    && HeapOrder(neighbors, arena, fringe, checked, order)
    && Searching(start, neighbors, check, fuel, fuelLeft, arena, fringe, checked)
  }

  /** The neighbour loop of the Dijkstra variant: one entry per neighbour in
      `ns`, in order, expanded from entry `c`, with the neighbour's heuristic
      as priority and no cost, each created and then enqueued. */
  method DijkstraEnqueue<Node>(arena: seq<Entry<Node>>, fringe: seq<nat>, c: nat, ns: seq<Node>, heuristic: Node -> int)
    returns (arena': seq<Entry<Node>>, fringe': seq<nat>)
    ensures HeapPushed(arena, fringe, arena', fringe') && |arena'| == |arena| + |ns|
    ensures forall i :: |arena| <= i < |arena'| ==>
      arena'[i] == Entry(ns[i - |arena|], Some(c), heuristic(ns[i - |arena|]), 0)
  {
    arena', fringe' := arena, fringe;
    for j := 0 to |ns|
      invariant HeapPushed(arena, fringe, arena', fringe') && |arena'| == |arena| + j
      invariant forall i :: |arena| <= i < |arena'| ==>
        arena'[i] == Entry(ns[i - |arena|], Some(c), heuristic(ns[i - |arena|]), 0)
    {
      arena' := arena' + [Entry(ns[j], Some(c), heuristic(ns[j]), 0)];
      fringe' := fringe' + [|arena'| - 1];
    }
  }

  /** The check on the dequeued entry `c` answered Continue and its children
      were enqueued: the Dijkstra loop goes on. */
  lemma DijkstraContinue<Node>(start: Node, neighbors: Node -> seq<Node>, heuristic: Node -> int,
                               check: Node -> GraphSearchStatus, fuel: nat, fuelLeft: nat,
                               arena: seq<Entry<Node>>, fringe: seq<nat>, checked: seq<Node>, order: seq<nat>,
                               c: nat, rest: seq<nat>, arena': seq<Entry<Node>>, fringe': seq<nat>)
    requires DijkstraSearching(start, neighbors, heuristic, check, fuel, fuelLeft, arena, fringe, checked, order)
    requires fuelLeft > 0 && c in fringe && c < |arena| && |rest| == |fringe| - 1 && InArena(arena, rest)
    requires forall x :: x in fringe ==> arena[c].priority <= arena[x].priority
    requires multiset(fringe) == multiset(rest) + multiset{c} && (Distinct(fringe) ==> Distinct(rest) && c !in rest)
    requires check(arena[c].value) == Continue
    requires HeapPushed(arena, rest, arena', fringe') && |arena'| == |arena| + |neighbors(arena[c].value)|
    requires forall i :: |arena| <= i < |arena'| ==>
      arena'[i] == Entry(neighbors(arena[c].value)[i - |arena|], Some(c), heuristic(neighbors(arena[c].value)[i - |arena|]), 0)
    ensures DijkstraSearching(start, neighbors, heuristic, check, fuel, fuelLeft - 1, arena', fringe',
                              checked + [arena[c].value], order + [c])
  {
    assert Pushed(arena, arena', c, neighbors(arena[c].value));
    DijkstraTreePushed(arena, arena', start, neighbors, heuristic, c);
    HeapContinue(neighbors, arena, fringe, checked, order, c, rest, arena', fringe');
    ContinueSearching(start, neighbors, check, fuel, fuelLeft, arena, fringe, checked, arena[c].value, arena', fringe');
  }

  /** The Dijkstra variant (the Graph overload taking heuristic and check):
      the same heap as A*, but a child's priority is the heuristic of its node
      alone, with no accumulated cost, exactly as the source computes it. */
  method Dijkstra<Node>(start: Node, neighbors: Node -> seq<Node>, heuristic: Node -> int,
                        check: Node -> GraphSearchStatus, fuel: nat)
    returns (result: Outcome<Node>, ghost tree: seq<Entry<Node>>, ghost checked: seq<Node>,
             ghost order: seq<nat>)
    ensures Reported(start, neighbors, check, fuel, tree, checked, result)
    ensures result.Found? ==>
      result.path != [] && result.path[0] == start && check(Last(result.path)) == Goal && IsWalk(neighbors, result.path)
    ensures fuel == 0 ==> result == OutOfFuel
    ensures 0 < fuel && check(start) == Break ==> result == NotFound
    ensures 0 < fuel && check(start) == Goal ==> result.Found?
    ensures DijkstraTree(tree, start, neighbors, heuristic)
    ensures HeapReported(neighbors, check, tree, checked, order, result)
  {
    var arena := [Entry(start, None, 0, 0)];
    var fringe: seq<nat> := [0];
    var fuelLeft := fuel;
    checked, order := [], [];
    ghost var broken := false;
    while fringe != []
      invariant DijkstraSearching(start, neighbors, heuristic, check, fuel, fuelLeft, arena, fringe, checked, order)
      invariant !broken
      decreases fuelLeft
    {
      if fuelLeft == 0 {
        OutOfFuelReported(start, neighbors, check, fuel, arena, fringe, checked);
        HeapUnfinished(neighbors, check, arena, fringe, checked, order, OutOfFuel);
        tree := arena;
        ReportedOutcome(start, neighbors, check, fuel, tree, checked, OutOfFuel);
        return OutOfFuel, tree, checked, order;
      }
      var c, rest := DequeueMin(arena, fringe);
      var current := arena[c];
      assert checked == [] ==> c == 0 && current.value == start;
      var status := check(current.value);
      if status == Break {
        BreakReported(start, neighbors, check, fuel, fuelLeft, arena, fringe, checked, current.value);
        HeapStopped(neighbors, check, arena, fringe, checked, order, c, NotFound);
        checked, order := checked + [current.value], order + [c];
        broken := true;
        break;
      } else if status == Goal {
        var list := BuildPath(arena, c);
        var path := Walk(list);
        GoalReported(start, neighbors, check, fuel, fuelLeft, arena, fringe, checked, c);
        HeapStopped(neighbors, check, arena, fringe, checked, order, c, Found(path));
        checked, order := checked + [current.value], order + [c];
        tree := arena;
        ReportedOutcome(start, neighbors, check, fuel, tree, checked, Found(path));
        return Found(path), tree, checked, order;
      } else {
        var arena', fringe' := DijkstraEnqueue(arena, rest, c, neighbors(current.value), heuristic);
        DijkstraContinue(start, neighbors, heuristic, check, fuel, fuelLeft, arena, fringe, checked, order, c, rest, arena', fringe');
        arena, fringe := arena', fringe';
        checked, order := checked + [current.value], order + [c];
        fuelLeft := fuelLeft - 1;
      }
    }
    if !broken {
      ExhaustedReported(start, neighbors, check, fuel, fuelLeft, arena, checked);
      HeapUnfinished(neighbors, check, arena, fringe, checked, order, NotFound);
    }
    tree := arena;
    result := NotFound;
    ReportedOutcome(start, neighbors, check, fuel, tree, checked, result);
  }

  /** The FIFO queue of breadth-first search: it holds the entries created
      and not yet checked, in creation order; the k-th check was on the k-th
      entry created; every entry was expanded from an already checked one. */
  ghost predicate FifoQueue<Node>(arena: seq<Entry<Node>>, fringe: seq<nat>, checked: seq<Node>)
  {
    && |checked| <= |arena|
    && (forall k :: 0 <= k < |fringe| ==> fringe[k] == |checked| + k)
    && (forall k :: 0 <= k < |checked| ==> checked[k] == arena[k].value)
    && (forall i :: 0 < i < |arena| ==> ParentIndex(arena[i]) < |checked|)
  }

  /** Dequeuing the head and pushing its children keeps the queue FIFO. */
  lemma FifoExpand<Node>(arena0: seq<Entry<Node>>, fringe0: seq<nat>, checked: seq<Node>,
                         arena: seq<Entry<Node>>, fringe: seq<nat>)
    requires FifoQueue(arena0, fringe0, checked) && fringe0 != [] && fringe0[0] < |arena0|
    requires |arena0| <= |arena| && arena[..|arena0|] == arena0
    requires forall k :: 0 <= k < |fringe| ==> fringe[k] == |checked| + 1 + k
    requires forall i :: |arena0| <= i < |arena| ==> ParentIndex(arena[i]) == |checked|
    ensures FifoQueue(arena, fringe, checked + [arena0[fringe0[0]].value])
  {
    var checked' := checked + [arena0[fringe0[0]].value];
    forall k | 0 <= k < |checked'|
      ensures checked'[k] == arena[k].value
    {
      assert arena[k] == arena0[k];
    }
    forall i | 0 < i < |arena|
      ensures ParentIndex(arena[i]) < |checked'|
    {
      if i < |arena0| {
        assert arena[i] == arena0[i];
      }
    }
  }

  /** `arena'` and `fringe'` are `arena` and `fringe` after one breadth-first
      entry (no priority, no cost) per neighbour in `ns`, each expanded from
      entry `c`, has been created and enqueued at the back, in order. */
  ghost predicate Enqueued<Node>(arena: seq<Entry<Node>>, fringe: seq<nat>, c: nat, ns: seq<Node>,
                                 arena': seq<Entry<Node>>, fringe': seq<nat>)
  {
    && Pushed(arena, arena', c, ns)
    && (forall i :: |arena| <= i < |arena'| ==> arena'[i].priority == 0 && arena'[i].cost == 0)
    && |fringe'| == |fringe| + |ns|
    && forall k :: 0 <= k < |fringe'| ==> fringe'[k] == |arena'| - |fringe'| + k
  }

  /** The neighbour loop of breadth-first search. The queue holds the last
      entries created, in creation order, and still does afterwards. */
  method BreadthFirstEnqueue<Node>(arena: seq<Entry<Node>>, fringe: seq<nat>, c: nat, ns: seq<Node>)
    returns (arena': seq<Entry<Node>>, fringe': seq<nat>)
    requires forall k :: 0 <= k < |fringe| ==> fringe[k] == |arena| - |fringe| + k
    ensures Enqueued(arena, fringe, c, ns, arena', fringe')
  {
    arena', fringe' := arena, fringe;
    for j := 0 to |ns|
      invariant |arena'| == |arena| + j && arena'[..|arena|] == arena
      invariant forall i :: |arena| <= i < |arena'| ==> arena'[i] == Entry(ns[i - |arena|], Some(c), 0, 0)
      invariant |fringe'| == |fringe| + j
      invariant forall k :: 0 <= k < |fringe'| ==> fringe'[k] == |arena'| - |fringe'| + k
    {
      arena' := arena' + [Entry(ns[j], Some(c), 0, 0)];
      fringe' := fringe' + [|arena'| - 1];
    }
  }

  /** Where breadth-first search creates the child for neighbour `m` of the
      `k`-th expanded node: after the start entry and the children of the
      nodes expanded before it. */
  function ChildIndex<Node>(neighbors: Node -> seq<Node>, expanded: seq<Node>, k: nat, m: nat): nat
    requires k <= |expanded|
  {
    1 + ChildCount(neighbors, expanded[..k]) + m
  }

  /** Every neighbour of every expanded node has its entry in the tree, at
      its ChildIndex and expanded from the entry the node was checked on. */
  ghost predicate ChildrenCreated<Node>(neighbors: Node -> seq<Node>, tree: seq<Entry<Node>>, expanded: seq<Node>)
  {
    forall k, m :: 0 <= k < |expanded| && 0 <= m < |neighbors(expanded[k])| ==>
      && ChildIndex(neighbors, expanded, k, m) < |tree|
      && tree[ChildIndex(neighbors, expanded, k, m)].previous == Some(k)
      && tree[ChildIndex(neighbors, expanded, k, m)].value == neighbors(expanded[k])[m]
  }

  /** Expanding the next entry in creation order creates its children. */
  lemma ChildrenCreatedExtend<Node>(neighbors: Node -> seq<Node>, arena: seq<Entry<Node>>, checked: seq<Node>,
                                    v: Node, arena': seq<Entry<Node>>)
    requires ChildrenCreated(neighbors, arena, checked)
    requires |arena| == 1 + ChildCount(neighbors, checked)
    requires Pushed(arena, arena', |checked|, neighbors(v))
    ensures ChildrenCreated(neighbors, arena', checked + [v])
  {
    var e := checked + [v];
    forall k, m | 0 <= k < |e| && 0 <= m < |neighbors(e[k])|
      ensures ChildIndex(neighbors, e, k, m) < |arena'|
      ensures arena'[ChildIndex(neighbors, e, k, m)].previous == Some(k)
      ensures arena'[ChildIndex(neighbors, e, k, m)].value == neighbors(e[k])[m]
    {
      assert e[..k] == checked[..k];
      if k < |checked| {
        var i := ChildIndex(neighbors, checked, k, m);
        assert e[k] == checked[k] && ChildIndex(neighbors, e, k, m) == i;
        assert arena'[..|arena|][i] == arena[i];
      } else {
        var i := |arena| + m;
        assert checked[..k] == checked && e[k] == v && ChildIndex(neighbors, e, k, m) == i;
        assert arena'[i].value == neighbors(v)[i - |arena|];
      }
    }
  }

  /** The loop invariant of breadth-first search: the shared one, breadth-first
      order of the entries, the FIFO queue and the children of every expanded
      entry. */
  ghost predicate BreadthFirstSearching<Node>(start: Node, neighbors: Node -> seq<Node>, check: Node -> GraphSearchStatus,
                                              fuel: nat, fuelLeft: nat, arena: seq<Entry<Node>>, fringe: seq<nat>,
                                              checked: seq<Node>)
  {
    && FifoTree(arena, start, neighbors)
    && Searching(start, neighbors, check, fuel, fuelLeft, arena, fringe, checked)
    && FifoQueue(arena, fringe, checked)
    && ChildrenCreated(neighbors, arena, checked)
  }

  /** What breadth-first search promises beyond Reported: breadth-first order
      of the entries, checks in creation order, the children of every
      expanded node, and a found path that is the chain of the entry checked
      last. */
  ghost predicate BreadthFirstReported<Node>(start: Node, neighbors: Node -> seq<Node>, check: Node -> GraphSearchStatus,
                                             fuel: nat, tree: seq<Entry<Node>>, checked: seq<Node>, result: Outcome<Node>)
  {
    && Reported(start, neighbors, check, fuel, tree, checked, result)
    && FifoTree(tree, start, neighbors)
    && (forall k :: 0 <= k < |checked| ==> checked[k] == tree[k].value)
    && ChildrenCreated(neighbors, tree, Expanded(check, checked))
    && (result.Found? ==> result.path == Chain(tree, |checked| - 1))
  }

  /** The fuel ran out with entries still in the queue. */
  lemma BreadthFirstOutOfFuel<Node>(start: Node, neighbors: Node -> seq<Node>, check: Node -> GraphSearchStatus,
                                    fuel: nat, arena: seq<Entry<Node>>, fringe: seq<nat>, checked: seq<Node>)
    requires BreadthFirstSearching(start, neighbors, check, fuel, 0, arena, fringe, checked) && fringe != []
    ensures BreadthFirstReported(start, neighbors, check, fuel, arena, checked, OutOfFuel)
  {
    OutOfFuelReported(start, neighbors, check, fuel, arena, fringe, checked);
  }

  /** The queue ran empty: every entry created was checked and expanded. */
  lemma BreadthFirstExhausted<Node>(start: Node, neighbors: Node -> seq<Node>, check: Node -> GraphSearchStatus,
                                    fuel: nat, fuelLeft: nat, arena: seq<Entry<Node>>, checked: seq<Node>)
    requires BreadthFirstSearching(start, neighbors, check, fuel, fuelLeft, arena, [], checked)
    ensures BreadthFirstReported(start, neighbors, check, fuel, arena, checked, NotFound)
  {
    ExhaustedReported(start, neighbors, check, fuel, fuelLeft, arena, checked);
  }

  /** The head of the queue is the entry created right after the checked ones. */
  lemma BreadthFirstHead<Node>(start: Node, neighbors: Node -> seq<Node>, check: Node -> GraphSearchStatus,
                               fuel: nat, fuelLeft: nat, arena: seq<Entry<Node>>, fringe: seq<nat>, checked: seq<Node>)
    requires BreadthFirstSearching(start, neighbors, check, fuel, fuelLeft, arena, fringe, checked) && fringe != []
    ensures fringe[0] == |checked| < |arena|
    ensures checked == [] ==> arena[fringe[0]].value == start
    ensures forall k :: 0 <= k < |fringe| - 1 ==> fringe[1..][k] == |arena| - |fringe[1..]| + k
  {
  }

  /** Checking the head of the queue keeps the checks in creation order. */
  lemma FifoCheckHead<Node>(arena: seq<Entry<Node>>, fringe: seq<nat>, checked: seq<Node>)
    requires FifoQueue(arena, fringe, checked) && fringe != [] && fringe[0] < |arena|
    ensures forall k :: 0 <= k < |checked| + 1 ==> (checked + [arena[fringe[0]].value])[k] == arena[k].value
  {
  }

  /** The check on the head of the queue answered Break: no path. */
  lemma BreadthFirstBreak<Node>(start: Node, neighbors: Node -> seq<Node>, check: Node -> GraphSearchStatus,
                                fuel: nat, fuelLeft: nat, arena: seq<Entry<Node>>, fringe: seq<nat>, checked: seq<Node>)
    requires BreadthFirstSearching(start, neighbors, check, fuel, fuelLeft, arena, fringe, checked)
    requires fuelLeft > 0 && fringe != [] && fringe[0] < |arena|
    requires check(arena[fringe[0]].value) == Break
    ensures BreadthFirstReported(start, neighbors, check, fuel, arena, checked + [arena[fringe[0]].value], NotFound)
  {
    BreadthFirstHead(start, neighbors, check, fuel, fuelLeft, arena, fringe, checked);
    BreakReported(start, neighbors, check, fuel, fuelLeft, arena, fringe, checked, arena[fringe[0]].value);
    FifoCheckHead(arena, fringe, checked);
    assert (checked + [arena[fringe[0]].value])[..|checked|] == checked;
  }

  /** The check on the head of the queue answered Goal: the search reports
      the chain of the head. */
  lemma BreadthFirstGoalReported<Node>(start: Node, neighbors: Node -> seq<Node>, check: Node -> GraphSearchStatus,
                                       fuel: nat, fuelLeft: nat, arena: seq<Entry<Node>>, fringe: seq<nat>,
                                       checked: seq<Node>)
    requires BreadthFirstSearching(start, neighbors, check, fuel, fuelLeft, arena, fringe, checked)
    requires fuelLeft > 0 && fringe != [] && fringe[0] < |arena|
    requires check(arena[fringe[0]].value) == Goal
    ensures Reported(start, neighbors, check, fuel, arena, checked + [arena[fringe[0]].value], Found(Chain(arena, fringe[0])))
  {
    BreadthFirstHead(start, neighbors, check, fuel, fuelLeft, arena, fringe, checked);
    GoalReported(start, neighbors, check, fuel, fuelLeft, arena, fringe, checked, fringe[0]);
  }

  /** The check on the head of the queue answered Goal: the checks are still
      in creation order, the expanded nodes are the ones checked before, and
      the head is the entry checked last. */
  lemma BreadthFirstGoalOrder<Node>(start: Node, neighbors: Node -> seq<Node>, check: Node -> GraphSearchStatus,
                                    fuel: nat, fuelLeft: nat, arena: seq<Entry<Node>>, fringe: seq<nat>,
                                    checked: seq<Node>)
    requires BreadthFirstSearching(start, neighbors, check, fuel, fuelLeft, arena, fringe, checked)
    requires fuelLeft > 0 && fringe != [] && fringe[0] < |arena|
    requires check(arena[fringe[0]].value) == Goal
    ensures forall k :: 0 <= k < |checked| + 1 ==> (checked + [arena[fringe[0]].value])[k] == arena[k].value
    ensures ChildrenCreated(neighbors, arena, Expanded(check, checked + [arena[fringe[0]].value]))
    ensures fringe[0] == |checked + [arena[fringe[0]].value]| - 1
  {
    var checked' := checked + [arena[fringe[0]].value];
    BreadthFirstHead(start, neighbors, check, fuel, fuelLeft, arena, fringe, checked);
    FifoCheckHead(arena, fringe, checked);
    assert checked'[..|checked|] == checked;
  }

  /** The check on the head of the queue answered Goal: the path to it. */
  lemma BreadthFirstGoal<Node>(start: Node, neighbors: Node -> seq<Node>, check: Node -> GraphSearchStatus,
                               fuel: nat, fuelLeft: nat, arena: seq<Entry<Node>>, fringe: seq<nat>, checked: seq<Node>)
    requires BreadthFirstSearching(start, neighbors, check, fuel, fuelLeft, arena, fringe, checked)
    requires fuelLeft > 0 && fringe != [] && fringe[0] < |arena|
    requires check(arena[fringe[0]].value) == Goal
    ensures BreadthFirstReported(start, neighbors, check, fuel, arena, checked + [arena[fringe[0]].value],
                                 Found(Chain(arena, fringe[0])))
  {
    BreadthFirstGoalReported(start, neighbors, check, fuel, fuelLeft, arena, fringe, checked);
    BreadthFirstGoalOrder(start, neighbors, check, fuel, fuelLeft, arena, fringe, checked);
  }

  /** The check on the head of the queue answered Continue and its children
      were enqueued: the loop goes on. */
  lemma BreadthFirstContinue<Node>(start: Node, neighbors: Node -> seq<Node>, check: Node -> GraphSearchStatus,
                                   fuel: nat, fuelLeft: nat, arena: seq<Entry<Node>>, fringe: seq<nat>, checked: seq<Node>,
                                   arena': seq<Entry<Node>>, fringe': seq<nat>)
    requires BreadthFirstSearching(start, neighbors, check, fuel, fuelLeft, arena, fringe, checked)
    requires fuelLeft > 0 && fringe != [] && fringe[0] < |arena|
    requires check(arena[fringe[0]].value) == Continue
    requires Enqueued(arena, fringe[1..], fringe[0], neighbors(arena[fringe[0]].value), arena', fringe')
    ensures BreadthFirstSearching(start, neighbors, check, fuel, fuelLeft - 1, arena', fringe', checked + [arena[fringe[0]].value])
  {
    var c := fringe[0];
    BreadthFirstHead(start, neighbors, check, fuel, fuelLeft, arena, fringe, checked);
    FifoTreePushed(arena, arena', start, neighbors, c);
    ContinueSearching(start, neighbors, check, fuel, fuelLeft, arena, fringe, checked, arena[c].value, arena', fringe');
    FifoExpand(arena, fringe, checked, arena', fringe');
    ChildrenCreatedExtend(neighbors, arena, checked, arena[c].value, arena');
  }

  /** Breadth-first search (the Graph overload taking only check): a FIFO
      queue, so entries are checked in exactly the order they were created,
      and hence (FifoDepthOrdered) in non-decreasing depth. */
  method BreadthFirst<Node>(start: Node, neighbors: Node -> seq<Node>, check: Node -> GraphSearchStatus, fuel: nat)
    returns (result: Outcome<Node>, ghost tree: seq<Entry<Node>>, ghost checked: seq<Node>)
    ensures Reported(start, neighbors, check, fuel, tree, checked, result)
    ensures result.Found? ==>
      result.path != [] && result.path[0] == start && check(Last(result.path)) == Goal && IsWalk(neighbors, result.path)
    ensures fuel == 0 ==> result == OutOfFuel
    ensures 0 < fuel && check(start) == Break ==> result == NotFound
    ensures 0 < fuel && check(start) == Goal ==> result.Found?
    ensures FifoTree(tree, start, neighbors)
    ensures forall k :: 0 <= k < |checked| ==> checked[k] == tree[k].value
    ensures ChildrenCreated(neighbors, tree, Expanded(check, checked))
    ensures result.Found? ==> result.path == Chain(tree, |checked| - 1)
  {
    var arena := [Entry(start, None, 0, 0)];
    var fringe: seq<nat> := [0];
    var fuelLeft := fuel;
    checked := [];
    ghost var broken := false;
    while fringe != []
      invariant BreadthFirstSearching(start, neighbors, check, fuel, fuelLeft, arena, fringe, checked)
      invariant !broken
      decreases fuelLeft
    {
      if fuelLeft == 0 {
        BreadthFirstOutOfFuel(start, neighbors, check, fuel, arena, fringe, checked);
        tree := arena;
        return OutOfFuel, tree, checked;
      }
      BreadthFirstHead(start, neighbors, check, fuel, fuelLeft, arena, fringe, checked);
      var c := fringe[0];
      var current := arena[c];
      var status := check(current.value);
      if status == Break {
        BreadthFirstBreak(start, neighbors, check, fuel, fuelLeft, arena, fringe, checked);
        checked := checked + [current.value];
        broken := true;
        break;
      } else if status == Goal {
        var list := BuildPath(arena, c);
        var path := Walk(list);
        BreadthFirstGoal(start, neighbors, check, fuel, fuelLeft, arena, fringe, checked);
        checked := checked + [current.value];
        tree := arena;
        return Found(path), tree, checked;
      } else {
        var arena', fringe' := BreadthFirstEnqueue(arena, fringe[1..], c, neighbors(current.value));
        BreadthFirstContinue(start, neighbors, check, fuel, fuelLeft, arena, fringe, checked, arena', fringe');
        arena, fringe := arena', fringe';
        checked := checked + [current.value];
        fuelLeft := fuelLeft - 1;
      }
    }
    if !broken {
      BreadthFirstExhausted(start, neighbors, check, fuel, fuelLeft, arena, checked);
    }
    tree := arena;
    result := NotFound;
  }

  /** Every walk from the start that is shorter than the depth of the entry
      checked last is the chain of an entry checked (and expanded) before it. */
  lemma {:induction false} WalkEntry<Node>(start: Node, neighbors: Node -> seq<Node>, tree: seq<Entry<Node>>,
                                           checked: seq<Node>, w: seq<Node>) returns (i: nat)
    requires FifoTree(tree, start, neighbors) && checked != [] && |checked| <= |tree|
    requires forall k :: 0 <= k < |checked| ==> checked[k] == tree[k].value
    requires ChildrenCreated(neighbors, tree, checked[..|checked| - 1])
    requires w != [] && w[0] == start && IsWalk(neighbors, w)
    requires |w| - 1 < Depth(tree, |checked| - 1)
    ensures i < |checked| - 1 && Chain(tree, i) == w
    decreases |w|
  {
    var g := |checked| - 1;
    if |w| == 1 {
      i := 0;
      FifoShallowerFirst(tree, start, neighbors, 0, g);
    } else {
      var w' := w[..|w| - 1];
      assert IsWalk(neighbors, w') by {
        forall k | 0 <= k < |w'| - 1
          ensures w'[k + 1] in neighbors(w'[k])
        {
          assert w'[k] == w[k] && w'[k + 1] == w[k + 1];
        }
      }
      var p := WalkEntry(start, neighbors, tree, checked, w');
      var v := w[|w| - 1];
      assert w[|w| - 2] == Last(w') == tree[p].value == checked[p];
      assert v in neighbors(checked[p]);
      var m :| 0 <= m < |neighbors(checked[p])| && neighbors(checked[p])[m] == v;
      var expanded := checked[..g];
      assert expanded[p] == checked[p];
      i := ChildIndex(neighbors, expanded, p, m);
      assert tree[i].previous == Some(p) && tree[i].value == v;
      assert Chain(tree, i) == w' + [v] == w;
      ChainLength(tree, p);
      assert Depth(tree, i) == |w| - 1;
      FifoShallowerFirst(tree, start, neighbors, i, g);
    }
  }

  /** Breadth-first search finds a path with the fewest edges: on every walk
      from the start with fewer nodes than the path found, the check answers
      Continue on the last node, so no shorter walk reaches a goal (or a
      Break). */
  lemma BreadthFirstShortest<Node>(start: Node, neighbors: Node -> seq<Node>, check: Node -> GraphSearchStatus,
                                   fuel: nat, tree: seq<Entry<Node>>, checked: seq<Node>, result: Outcome<Node>,
                                   w: seq<Node>)
    requires BreadthFirstReported(start, neighbors, check, fuel, tree, checked, result) && result.Found?
    requires w != [] && w[0] == start && IsWalk(neighbors, w) && |w| < |result.path|
    ensures check(Last(w)) == Continue
  {
    var g := |checked| - 1;
    ChainLength(tree, g);
    var i := WalkEntry(start, neighbors, tree, checked, w);
    assert checked[i] == tree[i].value == Last(Chain(tree, i)) == Last(w);
  }

  /** Breadth-first search checks nodes in order of the length of the paths
      it holds to them: a node checked later never has a shorter path. */
  lemma BreadthFirstDepthOrder<Node>(start: Node, neighbors: Node -> seq<Node>, check: Node -> GraphSearchStatus,
                                     fuel: nat, tree: seq<Entry<Node>>, checked: seq<Node>, result: Outcome<Node>)
    requires BreadthFirstReported(start, neighbors, check, fuel, tree, checked, result)
    ensures forall i, j :: 0 <= i <= j < |checked| ==> |Chain(tree, i)| <= |Chain(tree, j)|
  {
    FifoDepthOrdered(tree, start, neighbors, |checked|);
    forall i, j | 0 <= i <= j < |checked|
      ensures |Chain(tree, i)| <= |Chain(tree, j)|
    {
      ChainLength(tree, i);
      ChainLength(tree, j);
    }
  }
}
