/** Breadth-first search over a graph given only by a `children` function and an
    `isTarget` test. The graph may be infinite or generated on demand, so the search is
    run with a budget of rounds (one round per node taken off the queue). */
module BreadthFirstSearch {
  import opened Wrappers
  import BinaryNode
  import DoublyLinkedList
  import Queue

  /** What `search` comes back with: the first target dequeued, `null` once the queue
      runs dry, or neither within the budget of rounds. */
  datatype Outcome<N> = Found(node: N) | NotFound | OutOfFuel

  /** `y` can be reached from `source` along at most `j` child links. */
  ghost predicate Within<N(!new)>(children: N -> seq<N>, source: N, y: N, j: nat)
    decreases j
  {
    if j == 0 then y == source
    else Within(children, source, y, j - 1) || exists z :: Within(children, source, z, j - 1) && y in children(z)
  }

  /** `y` can be reached from `source` at all. */
  ghost predicate Reachable<N(!new)>(children: N -> seq<N>, source: N, y: N) {
    exists j: nat :: Within(children, source, y, j)
  }

  /** Allowing more links never loses a node. */
  lemma {:induction false} WithinMono<N(!new)>(children: N -> seq<N>, source: N, y: N, i: nat, j: nat)
    requires i <= j && Within(children, source, y, i)
    ensures Within(children, source, y, j)
    decreases j - i
  {
    if i < j {
      WithinMono(children, source, y, i, j - 1);
    }
  }

  /** The inner loop: the children not yet visited, in the order `children` lists them. */
  function Unvisited<N(==,!new)>(kids: seq<N>, visited: set<N>): (r: seq<N>)
    ensures |r| <= |kids|
    ensures forall c :: c in r <==> c in kids && c !in visited
  {
    if kids == [] then []
    else (if kids[0] in visited then [] else [kids[0]]) + Unvisited(kids[1..], visited)
  }

  /** The depths of `n` children queued from a node at depth `d`. */
  function Deeper(n: nat, d: nat): seq<nat>
  {
    seq(n, _ => d + 1)
  }

  /** Every visited node keeps its children close: each child is visited at most one level
      deeper, or waits in the queue at most one level deeper. */
  ghost predicate Closed<N(!new)>(children: N -> seq<N>, queue: seq<N>, depths: seq<nat>, level: map<N, nat>)
    requires |depths| == |queue|
  {
    forall v, c :: v in level && c in children(v) ==>
      (c in level && level[c] <= level[v] + 1) ||
      (exists i :: 0 <= i < |queue| && queue[i] == c && depths[i] <= level[v] + 1)
  }

  /** The breadth-first argument: once every queued node sits at depth `bound` or more,
      every node within fewer than `bound` links has been visited, at a level no deeper
      than its distance. */
  lemma {:induction false} VisitedBelow<N(!new)>(children: N -> seq<N>, source: N, queue: seq<N>, depths: seq<nat>,
                                           level: map<N, nat>, bound: nat, y: N, j: nat)
    requires |depths| == |queue| && Closed(children, queue, depths, level)
    requires source in level && level[source] == 0
    requires forall k :: 0 <= k < |depths| ==> depths[k] >= bound
    requires Within(children, source, y, j) && j < bound
    ensures y in level && level[y] <= j
    decreases j
  {
    if j > 0 {
      if Within(children, source, y, j - 1) {
        VisitedBelow(children, source, queue, depths, level, bound, y, j - 1);
      } else {
        var z :| Within(children, source, z, j - 1) && y in children(z);
        VisitedBelow(children, source, queue, depths, level, bound, z, j - 1);
      }
    }
  }

  /** The loop invariant of `search`: `depths` gives the depth each queued node was reached
      at, `level` the depth each visited node was first visited at, and `current` the
      depth of the last node taken off the queue. The queue is in depth order and spans at
      most two consecutive depths, every queued or visited node is reachable within its
      depth, no visited node is a target, and every visited node's children are visited or
      queued at most one level deeper. Before the first round only the source is queued. */
  ghost predicate SearchState<N(!new)>(children: N -> seq<N>, source: N, isTarget: N -> bool, visited: set<N>,
                                       queue: seq<N>, depths: seq<nat>, level: map<N, nat>, current: nat, rounds: nat)
  {
    && |depths| == |queue| && visited == level.Keys
    && (forall i, k :: 0 <= i <= k < |depths| ==> depths[i] <= depths[k])
    && (forall k :: 0 <= k < |depths| ==> depths[k] <= depths[0] + 1 && current <= depths[k])
    && (forall k :: 0 <= k < |queue| ==> Within(children, source, queue[k], depths[k]))
    && (forall v :: v in level ==> !isTarget(v) && Within(children, source, v, level[v]) && level[v] <= current)
    && ((source in level && level[source] == 0) || (rounds == 0 && queue == [source] && depths == [0]))
    && Closed(children, queue, depths, level)
  }

  /** A round that takes a non-target off the front of the queue, marks it visited and
      appends its unvisited children one level deeper keeps the invariant of `search`. */
  lemma RoundAdvanced<N(!new)>(children: N -> seq<N>, source: N, isTarget: N -> bool, v0: set<N>, q0: seq<N>,
                               d0: seq<nat>, l0: map<N, nat>, c0: nat, rounds: nat, added: seq<N>,
                               visited: set<N>, queue: seq<N>, depths: seq<nat>, level: map<N, nat>)
    requires SearchState(children, source, isTarget, v0, q0, d0, l0, c0, rounds)
    requires |q0| > 0 && !isTarget(q0[0])
    requires level == if q0[0] in v0 then l0 else l0[q0[0] := d0[0]]
    requires visited == v0 + {q0[0]}
    requires forall c :: c in added <==> c in children(q0[0]) && c !in visited
    requires queue == q0[1..] + added && depths == d0[1..] + Deeper(|added|, d0[0])
    ensures SearchState(children, source, isTarget, visited, queue, depths, level, d0[0], rounds + 1)
  {
    var node, d := q0[0], d0[0];
    assert visited == level.Keys;
    assert source in level && level[source] == 0;
    assert forall k :: 0 <= k < |d0| ==> d0[k] <= d + 1;
    QueueAdvanced(children, source, q0, d0, node, d, added, queue, depths);
    assert forall c :: c in added <==> c in children(node) && c !in level;
    assert forall v :: v in l0 ==> !isTarget(v) && Within(children, source, v, l0[v]) && l0[v] <= d;
    VisitedAdvanced(children, source, isTarget, q0, d0, l0, node, d, added, queue, depths, level);
  }

  /** The rounds of `search` with a first-in-first-out queue, from a given queue and
      visited set: each round takes the front node, returns it when it is a target, and
      otherwise marks it visited and appends its unvisited children. The budget `fuel`
      counts rounds; `OutOfFuel` comes back only when it is spent with nodes still queued. */
  function SearchRounds<N(==,!new)>(queue: seq<N>, visited: set<N>, children: N -> seq<N>,
                                    isTarget: N -> bool, fuel: nat): (r: Outcome<N>)
    ensures r.Found? ==> isTarget(r.node)
    ensures r.OutOfFuel? ==> |queue| > 0
    ensures |queue| > 0 && fuel > 0 && isTarget(queue[0]) ==> r == Found(queue[0])
    decreases fuel
  {
    if |queue| == 0 then NotFound
    else if fuel == 0 then OutOfFuel
    else if isTarget(queue[0]) then Found(queue[0])
    else
      var seen := visited + {queue[0]};
      SearchRounds(queue[1..] + Unvisited(children(queue[0]), seen), seen, children, isTarget, fuel - 1)
  }

  /** One round of `SearchRounds` on a non-target front node leads to the queue `next` and
      visited set `seen` it builds. */
  lemma RoundsStep<N(!new)>(queue: seq<N>, visited: set<N>, next: seq<N>, seen: set<N>, children: N -> seq<N>,
                            isTarget: N -> bool, fuel: nat)
    requires |queue| > 0 && fuel > 0 && !isTarget(queue[0])
    requires seen == visited + {queue[0]} && next == queue[1..] + Unvisited(children(queue[0]), seen)
    ensures SearchRounds(queue, visited, children, isTarget, fuel) == SearchRounds(next, seen, children, isTarget, fuel - 1)
  {
  }

  /** A search that ends within its budget ends the same way with any larger budget: the
      budget only cuts off runs, it never changes their answer. */
  lemma {:induction false} MoreFuelSameOutcome<N(!new)>(queue: seq<N>, visited: set<N>, children: N -> seq<N>,
                                                  isTarget: N -> bool, fuel: nat, more: nat)
    requires fuel <= more && !SearchRounds(queue, visited, children, isTarget, fuel).OutOfFuel?
    ensures SearchRounds(queue, visited, children, isTarget, more) == SearchRounds(queue, visited, children, isTarget, fuel)
    decreases fuel
  {
    if |queue| > 0 && !isTarget(queue[0]) {
      var seen := visited + {queue[0]};
      var next := queue[1..] + Unvisited(children(queue[0]), seen);
      MoreFuelSameOutcome(next, seen, children, isTarget, fuel - 1, more - 1);
    }
  }

  /** From 0 with children 1 and 2 and target 2, the search with a first-in-first-out
      queue returns 2 in its third round. */
  lemma TwoChildrenFound(children: int -> seq<int>, isTarget: int -> bool)
    requires forall n :: children(n) == if n == 0 then [1, 2] else []
    requires forall n :: isTarget(n) == (n == 2)
    ensures SearchRounds([0], {}, children, isTarget, 3) == Found(2)
    ensures forall more: nat :: more >= 3 ==> SearchRounds([0], {}, children, isTarget, more) == Found(2)
  {
    assert Unvisited([1, 2], {0}) == [1, 2] by {
      assert [1, 2][1..] == [2] && [2][1..] == [];
    }
    assert Unvisited(children(1), {0, 1}) == [];
    assert [0][1..] + [1, 2] == [1, 2] && [1, 2][1..] + [] == [2];
    assert {} + {0} == {0} && {0} + {1} == {0, 1};
    assert SearchRounds([2], {0, 1}, children, isTarget, 1) == Found(2);
    assert SearchRounds([1, 2], {0}, children, isTarget, 2) == Found(2);
    forall more: nat | more >= 3
      ensures SearchRounds([0], {}, children, isTarget, more) == Found(2)
    {
      MoreFuelSameOutcome([0], {}, children, isTarget, 3, more);
    }
  }

  /** `search(source, children, isTarget)`, for at most `fuel` rounds. The queue is a FIFO
      sequence and the visited set a set; `children` and `isTarget` are pure. A found node
      is a reachable target, and no target is closer to `source` than it (the queue hands
      nodes out level by level); `NotFound` means no reachable node is a target; a target
      source is found in the first round. */
  method Search<N(==,!new)>(source: N, children: N -> seq<N>, isTarget: N -> bool, fuel: nat) returns (r: Outcome<N>)
    ensures r.Found? ==> isTarget(r.node) && Reachable(children, source, r.node)
    ensures r.Found? ==> forall y, j: nat :: isTarget(y) && Within(children, source, y, j) ==>
      Within(children, source, r.node, j)
    ensures r.NotFound? ==> forall y :: Reachable(children, source, y) ==> !isTarget(y)
    ensures isTarget(source) && fuel >= 1 ==> r == Found(source)
    ensures r == SearchRounds([source], {}, children, isTarget, fuel)
  {
    var visited: set<N> := {};
    var toVisit: seq<N> := [source];
    // The depth each queued node was reached at, and the depth each node was first
    // visited at.
    ghost var depths: seq<nat> := [0];
    ghost var level: map<N, nat> := map[];
    ghost var current: nat := 0;
    var rounds := 0;
    ghost var answer := SearchRounds([source], {}, children, isTarget, fuel);
    while |toVisit| > 0
      invariant 0 <= rounds <= fuel
      invariant SearchState(children, source, isTarget, visited, toVisit, depths, level, current, rounds)
      invariant SearchRounds(toVisit, visited, children, isTarget, fuel - rounds) == answer
      decreases fuel - rounds
    {
      if rounds == fuel {
        return OutOfFuel;
      }
      var node := toVisit[0];
      ghost var d := depths[0];
      if isTarget(node) {
        FirstTargetIsClosest(children, source, isTarget, toVisit, depths, level, node, d);
        return Found(node);
      }
      ghost var q0, d0, l0, c0 := toVisit, depths, level, current;
      var v0 := visited;
      toVisit := toVisit[1..];
      depths := depths[1..];
      if node !in visited {
        level := level[node := d];
      }
      visited := visited + {node};
      current := d;
      var added := Unvisited(children(node), visited);
      toVisit := toVisit + added;
      depths := depths + Deeper(|added|, d);
      assert toVisit == q0[1..] + added;
      RoundAdvanced(children, source, isTarget, v0, q0, d0, l0, c0, rounds, added, visited, toVisit, depths, level);
      RoundsStep(q0, v0, toVisit, visited, children, isTarget, fuel - rounds);
      rounds := rounds + 1;
    }
    AllVisited(children, source, isTarget, level);
    return NotFound;
  }

  /** When the front of the queue is a target, no target is nearer to `source`. */
  lemma FirstTargetIsClosest<N(!new)>(children: N -> seq<N>, source: N, isTarget: N -> bool, queue: seq<N>,
                                depths: seq<nat>, level: map<N, nat>, node: N, d: nat)
    requires |queue| > 0 && |depths| == |queue| && node == queue[0] && d == depths[0]
    requires forall i, k :: 0 <= i <= k < |depths| ==> depths[i] <= depths[k]
    requires Within(children, source, node, d)
    requires forall v :: v in level ==> !isTarget(v)
    requires (source in level && level[source] == 0) || (queue == [source] && depths == [0])
    requires Closed(children, queue, depths, level)
    ensures Reachable(children, source, node)
    ensures forall y, j: nat :: isTarget(y) && Within(children, source, y, j) ==> Within(children, source, node, j)
  {
    forall y, j: nat | isTarget(y) && Within(children, source, y, j)
      ensures Within(children, source, node, j)
    {
      if j < d {
        VisitedBelow(children, source, queue, depths, level, d, y, j);
      } else {
        WithinMono(children, source, node, d, j);
      }
    }
  }

  /** With the queue empty, every reachable node has been visited and failed the test. */
  lemma AllVisited<N(!new)>(children: N -> seq<N>, source: N, isTarget: N -> bool, level: map<N, nat>)
    requires source in level && level[source] == 0
    requires Closed(children, [], [], level)
    requires forall v :: v in level ==> !isTarget(v)
    ensures forall y :: Reachable(children, source, y) ==> !isTarget(y)
  {
    forall y | Reachable(children, source, y)
      ensures !isTarget(y)
    {
      var j: nat :| Within(children, source, y, j);
      VisitedBelow(children, source, [], [], level, j + 1, y, j);
    }
  }

  /** One round that takes `node` (queued at depth `d`) off the front and appends the
      unvisited children at depth `d + 1` keeps the queue in depth order, spanning at most
      two consecutive depths, each entry reachable within its depth. */
  lemma QueueAdvanced<N(!new)>(children: N -> seq<N>, source: N, q0: seq<N>, d0: seq<nat>,
                               node: N, d: nat, added: seq<N>, queue: seq<N>, depths: seq<nat>)
    requires |q0| > 0 && |d0| == |q0| && node == q0[0] && d == d0[0]
    requires forall i, k :: 0 <= i <= k < |d0| ==> d0[i] <= d0[k]
    requires forall k :: 0 <= k < |d0| ==> d0[k] <= d + 1
    requires forall k :: 0 <= k < |q0| ==> Within(children, source, q0[k], d0[k])
    requires forall c :: c in added ==> c in children(node)
    requires queue == q0[1..] + added && depths == d0[1..] + Deeper(|added|, d)
    ensures |depths| == |queue|
    ensures forall i, k :: 0 <= i <= k < |depths| ==> depths[i] <= depths[k]
    ensures forall k :: 0 <= k < |depths| ==> depths[k] <= depths[0] + 1 && d <= depths[k]
    ensures forall k :: 0 <= k < |queue| ==> Within(children, source, queue[k], depths[k])
  {
    assert Within(children, source, node, d);
    forall k | 0 <= k < |queue|
      ensures Within(children, source, queue[k], depths[k])
    {
      if k < |q0| - 1 {
        assert queue[k] == q0[k + 1] && depths[k] == d0[k + 1];
      } else {
        assert queue[k] in added && depths[k] == d + 1;
      }
    }
  }

  /** The same round keeps every visited node a failed, reachable one no deeper than
      `d`, and keeps the visited nodes closed. */
  lemma VisitedAdvanced<N(!new)>(children: N -> seq<N>, source: N, isTarget: N -> bool, q0: seq<N>, d0: seq<nat>,
                                 l0: map<N, nat>, node: N, d: nat, added: seq<N>, queue: seq<N>, depths: seq<nat>,
                                 level: map<N, nat>)
    requires |q0| > 0 && |d0| == |q0| && node == q0[0] && d == d0[0] && !isTarget(node)
    requires forall v :: v in l0 ==> !isTarget(v) && Within(children, source, v, l0[v]) && l0[v] <= d
    requires Within(children, source, node, d)
    requires Closed(children, q0, d0, l0)
    requires level == if node in l0 then l0 else l0[node := d]
    requires forall c :: c in added <==> c in children(node) && c !in level
    requires queue == q0[1..] + added && depths == d0[1..] + Deeper(|added|, d)
    ensures forall v :: v in level ==> !isTarget(v) && Within(children, source, v, level[v]) && level[v] <= d
    ensures Closed(children, queue, depths, level)
  {
    forall v, c | v in level && c in children(v)
      ensures (c in level && level[c] <= level[v] + 1) ||
              (exists i :: 0 <= i < |queue| && queue[i] == c && depths[i] <= level[v] + 1)
    {
      if v in l0 {
        assert level[v] == l0[v];
        if !(c in l0 && l0[c] <= l0[v] + 1) {
          var i :| 0 <= i < |q0| && q0[i] == c && d0[i] <= l0[v] + 1;
          if i > 0 {
            assert queue[i - 1] == c && depths[i - 1] == d0[i];
          }
        }
      } else if c !in level {
        var i :| 0 <= i < |added| && added[i] == c;
        assert queue[|q0| - 1 + i] == c;
      }
    }
  }

  // ---------------------------------------------------------------------------
  // `search` as written, over the `Queue` view of `DoublyLinkedList`, whose `dequeue`
  // (`remove(0)` as written) leaves a stale tail once the queue is drained.

  /** The rounds of `search` as written, from a given queue and visited set: each round
      dequeues a node, returns it when it is a target, and otherwise marks it visited and
      enqueues its unvisited children; an exception from the queue ends the search. */
  function SearchRoundsAsWritten<N(==,!new)>(queue: Queue.ListState<N>, visited: set<N>, children: N -> seq<N>,
                                       isTarget: N -> bool, fuel: nat): (r: Result<Outcome<N>>)
    requires DoublyLinkedList.Closed(queue)
    ensures r.Ok? && r.value.Found? ==> isTarget(r.value.node)
    decreases fuel
  {
    if queue.size == 0 then Ok(NotFound)
    else if fuel == 0 then Ok(OutOfFuel)
    else
      var d := Queue.DequeueAsWritten(queue);
      match d.result
      case Err(e) => Err(e)
      case Ok(node) =>
        if isTarget(node) then Ok(Found(node))
        else
          var seen := visited + {node};
          SearchRoundsAsWritten(Queue.EnqueueEach(d.list, Unvisited(children(node), seen)), seen,
                                children, isTarget, fuel - 1)
  }

  /** `search(source, children, isTarget)` as written, for at most `fuel` rounds. */
  function SearchAsWritten<N(==,!new)>(source: N, children: N -> seq<N>, isTarget: N -> bool, fuel: nat): (r: Result<Outcome<N>>)
    ensures r.Ok? && r.value.Found? ==> isTarget(r.value.node)
  {
    SearchRoundsAsWritten(Queue.Enqueue(Queue.NewInstance(), source), {}, children, isTarget, fuel)
  }

  /** As written, `search` throws `NullPointerException` whenever the source is not a
      target and has two or more children other than itself: the first `dequeue` empties
      the queue but leaves its tail on the removed node, the children are appended behind
      that stale tail while the root stays null, and the second `dequeue` walks from the
      null root. `Search` instead finds a nearest target or reports that none is
      reachable. */
  lemma TwoChildrenAsWrittenThrow<N(!new)>(source: N, children: N -> seq<N>, isTarget: N -> bool, fuel: nat)
    requires !isTarget(source) && fuel >= 2
    requires |Unvisited(children(source), {source})| >= 2
    ensures SearchAsWritten(source, children, isTarget, fuel) == Err(NullPointer)
  {
    var q0 := Queue.Enqueue(Queue.NewInstance(), source);
    Queue.DrainedAsWritten(source);
    var d := Queue.DequeueAsWritten(q0);
    var q1 := Queue.EnqueueEach(d.list, Unvisited(children(source), {source}));
    Queue.NullRootDequeueThrows(q1);
    assert SearchRoundsAsWritten(q1, {source}, children, isTarget, fuel - 1) == Err(NullPointer);
    assert {} + {source} == {source};
    assert SearchAsWritten(source, children, isTarget, fuel)
        == SearchRoundsAsWritten(q1, {source}, children, isTarget, fuel - 1);
  }

  /** The smallest such graph: from 0, children 1 and 2, with 2 the target. As written
      `search` throws; 2 is reachable in one link, so `Search` cannot report `NotFound`,
      and what it finds is 2. */
  lemma TwoChildrenExample(children: int -> seq<int>, isTarget: int -> bool)
    requires forall n :: children(n) == if n == 0 then [1, 2] else []
    requires forall n :: isTarget(n) == (n == 2)
    ensures SearchAsWritten(0, children, isTarget, 3) == Err(NullPointer)
    ensures Reachable(children, 0, 2) && isTarget(2)
  {
    assert Unvisited(children(0), {0}) == [1, 2];
    TwoChildrenAsWrittenThrow(0, children, isTarget, 3);
    assert Within(children, 0, 0, 0);
    assert Within(children, 0, 2, 1);
  }
}
