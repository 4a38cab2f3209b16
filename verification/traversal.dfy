/**
 * The depth-bounded walks as a specification: one pop of the pending list
 * at a time, recording a node the first time it is popped and, below the
 * depth bound, adding its successors one level deeper. The stack walk pops
 * the last entry, the queue walk the first; everything else is shared.
 */
module Traversal {
  import opened CodeGraph

  /** Which end of the pending list is popped: `pop()` or `pop(0)`. */
  datatype Discipline = Lifo | Fifo

  /** A pending (node, level) pair. */
  type Entry = (NodeId, nat)

  /** The depth bound as the walks use it: a negative depth expands nothing, like 0. */
  function Horizon(depth: int): (h: nat)
    ensures depth >= 0 ==> h == depth
    ensures depth <= 0 ==> h == 0
  {
    if depth < 0 then 0 else depth
  }

  /** The list comprehension `[(n, level) for n in ns]`. */
  function Tagged(ns: seq<NodeId>, level: nat): (r: seq<Entry>)
    ensures |r| == |ns|
  {
    if ns == [] then [] else [(ns[0], level)] + Tagged(ns[1..], level)
  }

  /** Entry i of the comprehension pairs ns[i] with level. */
  lemma {:induction false} TaggedIndex(ns: seq<NodeId>, level: nat)
    ensures forall i :: 0 <= i < |ns| ==> Tagged(ns, level)[i] == (ns[i], level)
    decreases |ns|
  {
    if ns != [] {
      TaggedIndex(ns[1..], level);
      var r := Tagged(ns, level);
      assert r == [(ns[0], level)] + Tagged(ns[1..], level);
      forall i | 0 < i < |ns| ensures r[i] == (ns[i], level) {
        assert r[i] == Tagged(ns[1..], level)[i - 1];
      }
    }
  }

  /** The comprehension holds (m, level) exactly for the members m of ns. */
  lemma TaggedMembers(ns: seq<NodeId>, level: nat)
    ensures forall m :: m in ns ==> (m, level) in Tagged(ns, level)
    ensures forall e :: e in Tagged(ns, level) ==> e.1 == level && e.0 in ns
  {
    var r := Tagged(ns, level);
    TaggedIndex(ns, level);
    forall m | m in ns ensures (m, level) in r {
      var i :| 0 <= i < |ns| && ns[i] == m;
      assert r[i] == (m, level);
    }
    forall e | e in r ensures e.1 == level && e.0 in ns {
      var i :| 0 <= i < |r| && r[i] == e;
      assert r[i] == (ns[i], level);
    }
  }

  function Elements(s: seq<NodeId>): set<NodeId> {
    set x | x in s
  }

  /** Every entry that can still be expanded names a node of the graph. */
  predicate Expandable(g: Graph, depth: int, pending: seq<Entry>) {
    forall e :: e in pending ==> e.0 in g || e.1 >= depth
  }

  /** The entry a pop removes: the last one for a stack, the first for a queue. */
  function Top(order: Discipline, pending: seq<Entry>): Entry
    requires pending != []
  {
    if order == Lifo then pending[|pending| - 1] else pending[0]
  }

  /** What a pop leaves behind, in order. */
  function Rest(order: Discipline, pending: seq<Entry>): seq<Entry>
    requires pending != []
  {
    if order == Lifo then pending[..|pending| - 1] else pending[1..]
  }

  /** A pop splits the pending list into the entry removed and the rest, one shorter. */
  lemma PopMembers(order: Discipline, pending: seq<Entry>)
    requires pending != []
    ensures Top(order, pending) in pending
    ensures |Rest(order, pending)| == |pending| - 1
    ensures forall e :: e in pending <==> e == Top(order, pending) || e in Rest(order, pending)
  {
    if order == Lifo {
      assert pending == Rest(order, pending) + [Top(order, pending)];
    } else {
      assert pending == [Top(order, pending)] + Rest(order, pending);
    }
  }

  /** Both parts of a pop come from the pending list. */
  lemma PopFrom(order: Discipline, pending: seq<Entry>)
    requires pending != []
    ensures Top(order, pending) in pending
    ensures forall e :: e in Rest(order, pending) ==> e in pending
  {
    PopMembers(order, pending);
  }

  /** The visited list after one pop: the popped node is appended unless already there. */
  function StepVisited(order: Discipline, pending: seq<Entry>, visited: seq<NodeId>): seq<NodeId>
    requires pending != []
  {
    var e := Top(order, pending);
    if e.0 in visited then visited else visited + [e.0]
  }

  /**
   * The pending list after one pop: what is left, extended with the popped
   * node's successors one level deeper when the node is new and its level
   * is below depth.
   */
  function StepPending(g: Graph, depth: int, order: Discipline, pending: seq<Entry>, visited: seq<NodeId>): seq<Entry>
    requires pending != [] && Expandable(g, depth, pending)
  {
    var e := Top(order, pending);
    PopMembers(order, pending);
    if e.0 !in visited && e.1 < depth then Rest(order, pending) + Tagged(g[e.0], e.1 + 1) else Rest(order, pending)
  }

  /** The pending list after one pop, by case, in terms of Top and Rest. */
  lemma StepPendingCases(g: Graph, depth: int, order: Discipline, pending: seq<Entry>, visited: seq<NodeId>)
    requires pending != [] && Expandable(g, depth, pending)
    ensures var top := Top(order, pending);
      && (top.0 !in visited && top.1 < depth ==>
            top.0 in g && StepPending(g, depth, order, pending, visited) == Rest(order, pending) + Tagged(g[top.0], top.1 + 1))
      && (!(top.0 !in visited && top.1 < depth) ==> StepPending(g, depth, order, pending, visited) == Rest(order, pending))
  {
    PopMembers(order, pending);
  }

  /** One pop from the back of a stack, spelled out. */
  lemma LifoStep(g: Graph, depth: int, stack: seq<Entry>, visited: seq<NodeId>)
    requires stack != [] && Expandable(g, depth, stack)
    ensures var top, rest := stack[|stack| - 1], stack[..|stack| - 1];
      && (top.0 !in visited && top.1 < depth ==> top.0 in g)
      && StepVisited(Lifo, stack, visited) == (if top.0 in visited then visited else visited + [top.0])
      && StepPending(g, depth, Lifo, stack, visited)
           == (if top.0 !in visited && top.1 < depth then rest + Tagged(g[top.0], top.1 + 1) else rest)
  {
    assert Top(Lifo, stack) == stack[|stack| - 1] && Rest(Lifo, stack) == stack[..|stack| - 1];
    StepPendingCases(g, depth, Lifo, stack, visited);
  }

  /** One pop keeps every pending entry expandable. */
  lemma StepExpandable(g: Graph, depth: int, order: Discipline, pending: seq<Entry>, visited: seq<NodeId>)
    requires WellFormed(g) && pending != [] && Expandable(g, depth, pending)
    ensures Expandable(g, depth, StepPending(g, depth, order, pending, visited))
  {
    var top := Top(order, pending);
    PopMembers(order, pending);
    StepPendingCases(g, depth, order, pending, visited);
    if top.0 !in visited && top.1 < depth {
      TaggedMembers(g[top.0], top.1 + 1);
    }
  }

  lemma ElementsAppend(s: seq<NodeId>, x: NodeId)
    ensures Elements(s + [x]) == Elements(s) + {x}
  {
  }

  lemma CardinalityRemove(keys: set<NodeId>, seen: set<NodeId>, x: NodeId)
    ensures x in keys && x !in seen ==> |keys - (seen + {x})| < |keys - seen|
    ensures x !in keys ==> keys - (seen + {x}) == keys - seen
  {
    if x in keys && x !in seen {
      assert keys - (seen + {x}) == (keys - seen) - {x};
    }
  }

  /**
   * One pop either records a new node of the graph, or leaves the graph's
   * unrecorded nodes alone and shortens the pending list.
   */
  lemma StepProgress(g: Graph, depth: int, order: Discipline, pending: seq<Entry>, visited: seq<NodeId>)
    requires WellFormed(g) && pending != [] && Expandable(g, depth, pending)
    ensures var before, after := g.Keys - Elements(visited), g.Keys - Elements(StepVisited(order, pending, visited));
      |after| < |before| || (after == before && |StepPending(g, depth, order, pending, visited)| < |pending|)
  {
    var e, rest := Top(order, pending), Rest(order, pending);
    PopMembers(order, pending);
    if e.0 in visited {
      assert StepVisited(order, pending, visited) == visited;
      assert StepPending(g, depth, order, pending, visited) == rest;
    } else {
      assert StepVisited(order, pending, visited) == visited + [e.0];
      ElementsAppend(visited, e.0);
      CardinalityRemove(g.Keys, Elements(visited), e.0);
      if e.0 !in g {
        assert e in pending;
        assert StepPending(g, depth, order, pending, visited) == rest;
      }
    }
  }

  /** The walk run to the end: the visited list once nothing is pending. */
  function Walk(g: Graph, depth: int, order: Discipline, pending: seq<Entry>, visited: seq<NodeId>): seq<NodeId>
    requires WellFormed(g) && Expandable(g, depth, pending)
    decreases |g.Keys - Elements(visited)|, |pending|
  {
    if pending == [] then visited
    else
      StepExpandable(g, depth, order, pending, visited);
      StepProgress(g, depth, order, pending, visited);
      Walk(g, depth, order, StepPending(g, depth, order, pending, visited), StepVisited(order, pending, visited))
  }

  /** The walk from query alone at level 0 with nothing visited: what `dfs` and `bfs` return. */
  function Explore(g: Graph, query: NodeId, depth: int, order: Discipline): seq<NodeId>
    requires WellFormed(g) && (query in g || depth <= 0)
  {
    Walk(g, depth, order, [(query, 0)], [])
  }

  /** The walk only appends: the visited list so far is a prefix of the result. */
  lemma {:induction false} WalkExtends(g: Graph, depth: int, order: Discipline, pending: seq<Entry>, visited: seq<NodeId>)
    requires WellFormed(g) && Expandable(g, depth, pending)
    ensures visited <= Walk(g, depth, order, pending, visited)
    decreases |g.Keys - Elements(visited)|, |pending|
  {
    if pending != [] {
      StepExpandable(g, depth, order, pending, visited);
      StepProgress(g, depth, order, pending, visited);
      WalkExtends(g, depth, order, StepPending(g, depth, order, pending, visited), StepVisited(order, pending, visited));
    }
  }

  /** A node is recorded only if it is not there yet, so no node is recorded twice. */
  lemma {:induction false} WalkNoDuplicates(g: Graph, depth: int, order: Discipline, pending: seq<Entry>, visited: seq<NodeId>)
    requires WellFormed(g) && Expandable(g, depth, pending)
    requires NoDuplicates(visited)
    ensures NoDuplicates(Walk(g, depth, order, pending, visited))
    decreases |g.Keys - Elements(visited)|, |pending|
  {
    if pending != [] {
      StepExpandable(g, depth, order, pending, visited);
      StepProgress(g, depth, order, pending, visited);
      WalkNoDuplicates(g, depth, order, StepPending(g, depth, order, pending, visited), StepVisited(order, pending, visited));
    }
  }

  /** A member of a prefix is a member of the whole. */
  lemma PrefixMember(a: seq<NodeId>, b: seq<NodeId>, x: NodeId)
    requires a <= b && x in a
    ensures x in b
  {
    var i :| 0 <= i < |a| && a[i] == x;
    assert b[i] == x;
  }

  /** After one pop, each entry that was pending is still pending or has its node recorded. */
  lemma StepKeeps(g: Graph, depth: int, order: Discipline, pending: seq<Entry>, visited: seq<NodeId>)
    requires pending != [] && Expandable(g, depth, pending)
    ensures forall e :: e in pending ==>
      e.0 in StepVisited(order, pending, visited) || e in StepPending(g, depth, order, pending, visited)
  {
    var top, rest := Top(order, pending), Rest(order, pending);
    PopMembers(order, pending);
    assert top.0 in StepVisited(order, pending, visited);
    StepPendingCases(g, depth, order, pending, visited);
    if top.0 !in visited && top.1 < depth {
      var pushed := Tagged(g[top.0], top.1 + 1);
      assert forall e :: e in rest ==> e in rest + pushed;
    }
  }

  /** Every node that is pending is eventually recorded. */
  lemma {:induction false} WalkCovers(g: Graph, depth: int, order: Discipline, pending: seq<Entry>, visited: seq<NodeId>)
    requires WellFormed(g) && Expandable(g, depth, pending)
    ensures forall e :: e in pending ==> e.0 in Walk(g, depth, order, pending, visited)
    decreases |g.Keys - Elements(visited)|, |pending|
  {
    if pending != [] {
      StepExpandable(g, depth, order, pending, visited);
      StepProgress(g, depth, order, pending, visited);
      var pending', visited' := StepPending(g, depth, order, pending, visited), StepVisited(order, pending, visited);
      var r := Walk(g, depth, order, pending', visited');
      assert Walk(g, depth, order, pending, visited) == r;
      WalkCovers(g, depth, order, pending', visited');
      WalkExtends(g, depth, order, pending', visited');
      StepKeeps(g, depth, order, pending, visited);
      forall e | e in pending ensures e.0 in r {
        if e !in pending' {
          PrefixMember(visited', r, e.0);
        }
      }
    }
  }

  /** Pending entries whose levels are within the bound and whose nodes are that many hops from query. */
  ghost predicate EntriesWithin(g: Graph, query: NodeId, depth: int, pending: seq<Entry>) {
    forall e :: e in pending ==> e.1 <= Horizon(depth) && Within(g, query, e.0, e.1)
  }

  /** The successors of a node within level hops, tagged one level deeper, are within the bound while level is below it. */
  lemma TaggedWithin(g: Graph, query: NodeId, depth: int, node: NodeId, level: nat)
    requires node in g && level < depth && Within(g, query, node, level)
    ensures EntriesWithin(g, query, depth, Tagged(g[node], level + 1))
  {
    TaggedMembers(g[node], level + 1);
    forall e | e in Tagged(g[node], level + 1)
      ensures e.1 <= Horizon(depth) && Within(g, query, e.0, e.1)
    {
      WithinStep(g, query, level, node, e.0);
    }
  }

  lemma EntriesWithinConcat(g: Graph, query: NodeId, depth: int, a: seq<Entry>, b: seq<Entry>)
    requires EntriesWithin(g, query, depth, a) && EntriesWithin(g, query, depth, b)
    ensures EntriesWithin(g, query, depth, a + b)
  {
    assert forall e :: e in a + b ==> e in a || e in b;
  }

  lemma EntriesWithinSub(g: Graph, query: NodeId, depth: int, a: seq<Entry>, b: seq<Entry>)
    requires forall e :: e in a ==> e in b
    requires EntriesWithin(g, query, depth, b)
    ensures EntriesWithin(g, query, depth, a)
  {
  }

  /** What is left, extended with the popped node's successors, stays within the bound. */
  lemma ExpansionWithin(g: Graph, query: NodeId, depth: int, rest: seq<Entry>, top: Entry)
    requires top.0 in g && top.1 < depth && Within(g, query, top.0, top.1)
    requires EntriesWithin(g, query, depth, rest)
    ensures EntriesWithin(g, query, depth, rest + Tagged(g[top.0], top.1 + 1))
  {
    TaggedWithin(g, query, depth, top.0, top.1);
    EntriesWithinConcat(g, query, depth, rest, Tagged(g[top.0], top.1 + 1));
  }

  lemma StepPendingWithin(g: Graph, query: NodeId, depth: int, order: Discipline, pending: seq<Entry>, visited: seq<NodeId>)
    requires pending != [] && Expandable(g, depth, pending)
    requires EntriesWithin(g, query, depth, pending)
    ensures EntriesWithin(g, query, depth, StepPending(g, depth, order, pending, visited))
  {
    var top, rest := Top(order, pending), Rest(order, pending);
    StepPendingCases(g, depth, order, pending, visited);
    PopFrom(order, pending);
    EntriesWithinSub(g, query, depth, rest, pending);
    if top.0 !in visited && top.1 < depth {
      ExpansionWithin(g, query, depth, rest, top);
    }
  }

  lemma StepVisitedWithin(g: Graph, query: NodeId, depth: int, order: Discipline, pending: seq<Entry>, visited: seq<NodeId>)
    requires pending != [] && EntriesWithin(g, query, depth, pending)
    requires forall x :: x in visited ==> Within(g, query, x, Horizon(depth))
    ensures forall x :: x in StepVisited(order, pending, visited) ==> Within(g, query, x, Horizon(depth))
  {
    var top := Top(order, pending);
    PopMembers(order, pending);
    WithinMonotone(g, query, top.0, top.1, Horizon(depth));
  }

  /** Every node the walk records is within depth hops of query. */
  lemma {:induction false} WalkWithin(g: Graph, query: NodeId, depth: int, order: Discipline,
                                      pending: seq<Entry>, visited: seq<NodeId>)
    requires WellFormed(g) && Expandable(g, depth, pending)
    requires EntriesWithin(g, query, depth, pending)
    requires forall x :: x in visited ==> Within(g, query, x, Horizon(depth))
    ensures forall x :: x in Walk(g, depth, order, pending, visited) ==> Within(g, query, x, Horizon(depth))
    decreases |g.Keys - Elements(visited)|, |pending|
  {
    if pending != [] {
      StepExpandable(g, depth, order, pending, visited);
      StepProgress(g, depth, order, pending, visited);
      StepPendingWithin(g, query, depth, order, pending, visited);
      StepVisitedWithin(g, query, depth, order, pending, visited);
      WalkWithin(g, query, depth, order, StepPending(g, depth, order, pending, visited), StepVisited(order, pending, visited));
    }
  }

  /*
   * The queue walk. Besides the visited list, the proofs below keep a ghost
   * map from each recorded node to the level at which it was recorded.
   */

  /** The level map after one pop: the popped node gets its level if it is new. */
  ghost function NextLevels(order: Discipline, pending: seq<Entry>, visited: seq<NodeId>, levels: map<NodeId, nat>): map<NodeId, nat>
    requires pending != []
  {
    var e := Top(order, pending);
    if e.0 in visited then levels else levels[e.0 := e.1]
  }

  /** levels covers exactly the recorded nodes, and they were recorded in non-decreasing level. */
  ghost predicate RecordedInLevelOrder(visited: seq<NodeId>, levels: map<NodeId, nat>) {
    && (forall x :: x in levels <==> x in visited)
    && (forall i, j :: 0 <= i < j < |visited| ==> levels[visited[i]] <= levels[visited[j]])
  }

  /** The queue's levels never decrease from front to back and span at most one. */
  ghost predicate LevelsSpanOne(queue: seq<Entry>) {
    && (forall i, j :: 0 <= i < j < |queue| ==> queue[i].1 <= queue[j].1)
    && (queue != [] ==> forall e :: e in queue ==> e.1 <= queue[0].1 + 1)
  }

  /** No recorded node has a level beyond the front of the queue. */
  ghost predicate Behind(levels: map<NodeId, nat>, queue: seq<Entry>) {
    queue != [] ==> forall x :: x in levels ==> levels[x] <= queue[0].1
  }

  /**
   * Each successor of a recorded node below the bound is recorded at most
   * one level deeper, or still waits in the queue exactly one level deeper.
   */
  ghost predicate Closed(g: Graph, depth: int, levels: map<NodeId, nat>, queue: seq<Entry>) {
    forall x, m :: x in levels && levels[x] < depth && IsSucc(g, x, m) ==>
      (m in levels && levels[m] <= levels[x] + 1) || (m, levels[x] + 1) in queue
  }

  ghost predicate QueueInvariant(g: Graph, query: NodeId, depth: int,
                                 queue: seq<Entry>, visited: seq<NodeId>, levels: map<NodeId, nat>) {
    && RecordedInLevelOrder(visited, levels)
    && (visited == [] ==> queue == [(query, 0)])
    && (visited != [] ==> query in levels && levels[query] == 0)
    && (forall x :: x in levels ==> Within(g, query, x, levels[x]))
    && EntriesWithin(g, query, depth, queue)
    && LevelsSpanOne(queue)
    && Behind(levels, queue)
    && Closed(g, depth, levels, queue)
  }

  lemma FifoStep(g: Graph, depth: int, queue: seq<Entry>, visited: seq<NodeId>)
    requires queue != [] && Expandable(g, depth, queue)
    ensures Top(Fifo, queue) == queue[0] && Rest(Fifo, queue) == queue[1..]
    ensures queue[0].0 !in visited && queue[0].1 < depth ==>
      queue[0].0 in g && StepPending(g, depth, Fifo, queue, visited) == queue[1..] + Tagged(g[queue[0].0], queue[0].1 + 1)
    ensures !(queue[0].0 !in visited && queue[0].1 < depth) ==> StepPending(g, depth, Fifo, queue, visited) == queue[1..]
  {
    assert Top(Fifo, queue) == queue[0] && Rest(Fifo, queue) == queue[1..];
    StepPendingCases(g, depth, Fifo, queue, visited);
  }

  lemma RecordedStep(queue: seq<Entry>, visited: seq<NodeId>, levels: map<NodeId, nat>)
    requires queue != [] && RecordedInLevelOrder(visited, levels) && Behind(levels, queue)
    ensures RecordedInLevelOrder(StepVisited(Fifo, queue, visited), NextLevels(Fifo, queue, visited, levels))
  {
    var top := queue[0];
    if top.0 !in visited {
      var visited', levels' := visited + [top.0], levels[top.0 := top.1];
      assert StepVisited(Fifo, queue, visited) == visited';
      forall i, j | 0 <= i < j < |visited'| ensures levels'[visited'[i]] <= levels'[visited'[j]] {
        if j < |visited| {
          assert visited'[i] == visited[i] && visited'[j] == visited[j];
          assert visited[i] != top.0 && visited[j] != top.0;
        } else {
          assert visited'[i] == visited[i] && visited[i] in levels;
        }
      }
    }
  }

  lemma SpanStep(queue: seq<Entry>, pushed: seq<Entry>)
    requires queue != [] && LevelsSpanOne(queue)
    requires forall e :: e in pushed ==> e.1 == queue[0].1 + 1
    ensures LevelsSpanOne(queue[1..] + pushed)
    ensures queue[1..] + pushed != [] ==> queue[0].1 <= (queue[1..] + pushed)[0].1
  {
    var rest := queue[1..];
    var next := rest + pushed;
    assert forall i :: 0 <= i < |rest| ==> rest[i] == queue[i + 1];
    assert forall i :: |rest| <= i < |next| ==> next[i] == pushed[i - |rest|] && next[i] in pushed;
    assert forall i :: 0 <= i < |rest| ==> next[i] == rest[i];
    assert forall e :: e in next ==> e in rest || e in pushed;
    assert forall e :: e in rest ==> e in queue;
    if next != [] {
      assert queue[0].1 <= next[0].1;
    }
  }

  /** The pending list after a queue pop: the rest, then the pushed successors. */
  lemma FifoPending(g: Graph, depth: int, queue: seq<Entry>, visited: seq<NodeId>)
    returns (pushed: seq<Entry>)
    requires queue != [] && Expandable(g, depth, queue)
    ensures StepPending(g, depth, Fifo, queue, visited) == queue[1..] + pushed
    ensures forall e :: e in pushed ==> e.1 == queue[0].1 + 1
    ensures queue[0].0 !in visited && queue[0].1 < depth ==>
      forall m :: IsSucc(g, queue[0].0, m) ==> (m, queue[0].1 + 1) in pushed
  {
    FifoStep(g, depth, queue, visited);
    if queue[0].0 !in visited && queue[0].1 < depth {
      pushed := Tagged(g[queue[0].0], queue[0].1 + 1);
      TaggedMembers(g[queue[0].0], queue[0].1 + 1);
    } else {
      pushed := [];
    }
  }

  lemma ClosedStep(g: Graph, depth: int, top: Entry, rest: seq<Entry>, pushed: seq<Entry>,
                   levels: map<NodeId, nat>, levels': map<NodeId, nat>)
    requires forall x :: x in levels ==> levels[x] <= top.1
    requires Closed(g, depth, levels, [top] + rest)
    requires levels' == if top.0 in levels then levels else levels[top.0 := top.1]
    requires top.0 !in levels && top.1 < depth ==> forall m :: IsSucc(g, top.0, m) ==> (m, top.1 + 1) in pushed
    ensures Closed(g, depth, levels', rest + pushed)
  {
    forall x, m | x in levels' && levels'[x] < depth && IsSucc(g, x, m)
      ensures (m in levels' && levels'[m] <= levels'[x] + 1) || (m, levels'[x] + 1) in rest + pushed
    {
      if x in levels {
        assert (m in levels && levels[m] <= levels[x] + 1) || (m, levels[x] + 1) in [top] + rest;
      }
    }
  }

  /** One pop keeps the level map ordered and the queue's levels in step with it. */
  /** One pop keeps the level map ordered and behind the queue, and the queue spanning one level. */
  lemma QueueStepLevels(g: Graph, depth: int, queue: seq<Entry>, visited: seq<NodeId>, levels: map<NodeId, nat>)
    requires queue != [] && Expandable(g, depth, queue)
    requires RecordedInLevelOrder(visited, levels) && LevelsSpanOne(queue) && Behind(levels, queue)
    ensures var queue', levels' := StepPending(g, depth, Fifo, queue, visited), NextLevels(Fifo, queue, visited, levels);
      && RecordedInLevelOrder(StepVisited(Fifo, queue, visited), levels')
      && LevelsSpanOne(queue')
      && Behind(levels', queue')
  {
    var top := queue[0];
    var pushed := FifoPending(g, depth, queue, visited);
    var levels' := NextLevels(Fifo, queue, visited, levels);
    assert levels' == if top.0 in visited then levels else levels[top.0 := top.1];
    RecordedStep(queue, visited, levels);
    SpanStep(queue, pushed);
  }

  /** One pop keeps every successor of a shallow recorded node recorded or queued. */
  lemma QueueStepClosed(g: Graph, depth: int, queue: seq<Entry>, visited: seq<NodeId>, levels: map<NodeId, nat>)
    requires queue != [] && Expandable(g, depth, queue)
    requires RecordedInLevelOrder(visited, levels) && Behind(levels, queue) && Closed(g, depth, levels, queue)
    ensures Closed(g, depth, NextLevels(Fifo, queue, visited, levels), StepPending(g, depth, Fifo, queue, visited))
  {
    var top, rest := queue[0], queue[1..];
    assert queue == [top] + rest;
    var pushed := FifoPending(g, depth, queue, visited);
    var levels' := NextLevels(Fifo, queue, visited, levels);
    assert levels' == if top.0 in levels then levels else levels[top.0 := top.1];
    ClosedStep(g, depth, top, rest, pushed, levels, levels');
  }

  /** One pop keeps query first at level 0 and every level an upper bound on the hops. */
  lemma QueueStepReach(g: Graph, query: NodeId, depth: int, queue: seq<Entry>, visited: seq<NodeId>, levels: map<NodeId, nat>)
    requires WellFormed(g) && queue != [] && Expandable(g, depth, queue)
    requires QueueInvariant(g, query, depth, queue, visited, levels)
    ensures var visited', levels' := StepVisited(Fifo, queue, visited), NextLevels(Fifo, queue, visited, levels);
      && (visited' == [] ==> StepPending(g, depth, Fifo, queue, visited) == [(query, 0)])
      && (visited' != [] ==> query in levels' && levels'[query] == 0)
      && (forall x :: x in levels' ==> Within(g, query, x, levels'[x]))
      && EntriesWithin(g, query, depth, StepPending(g, depth, Fifo, queue, visited))
  {
    assert queue[0] in queue;
    StepPendingWithin(g, query, depth, Fifo, queue, visited);
  }

  /** One pop of the queue walk keeps the queue invariant. */
  lemma QueueStep(g: Graph, query: NodeId, depth: int, queue: seq<Entry>, visited: seq<NodeId>, levels: map<NodeId, nat>)
    requires WellFormed(g) && queue != [] && Expandable(g, depth, queue)
    requires QueueInvariant(g, query, depth, queue, visited, levels)
    ensures QueueInvariant(g, query, depth, StepPending(g, depth, Fifo, queue, visited),
                           StepVisited(Fifo, queue, visited), NextLevels(Fifo, queue, visited, levels))
  {
    QueueStepLevels(g, depth, queue, visited, levels);
    QueueStepClosed(g, depth, queue, visited, levels);
    QueueStepReach(g, query, depth, queue, visited, levels);
  }

  /** Running the queue walk to the end keeps the queue invariant, with some final level map. */
  lemma {:induction false} QueueWalk(g: Graph, query: NodeId, depth: int,
                                     queue: seq<Entry>, visited: seq<NodeId>, levels: map<NodeId, nat>)
    returns (final: map<NodeId, nat>)
    requires WellFormed(g) && Expandable(g, depth, queue)
    requires QueueInvariant(g, query, depth, queue, visited, levels)
    ensures QueueInvariant(g, query, depth, [], Walk(g, depth, Fifo, queue, visited), final)
    decreases |g.Keys - Elements(visited)|, |queue|
  {
    if queue == [] {
      final := levels;
    } else {
      StepExpandable(g, depth, Fifo, queue, visited);
      StepProgress(g, depth, Fifo, queue, visited);
      QueueStep(g, query, depth, queue, visited, levels);
      final := QueueWalk(g, query, depth, StepPending(g, depth, Fifo, queue, visited),
                         StepVisited(Fifo, queue, visited), NextLevels(Fifo, queue, visited, levels));
    }
  }

  lemma QueueStart(g: Graph, query: NodeId, depth: int)
    ensures QueueInvariant(g, query, depth, [(query, 0)], [], map[])
  {
    WithinQuery(g, query, 0);
  }

  /** Once the queue is empty, every node within depth hops has a level no larger than its distance. */
  lemma {:induction false} QueueComplete(g: Graph, query: NodeId, depth: int,
                                         visited: seq<NodeId>, levels: map<NodeId, nat>, m: NodeId, k: nat)
    requires QueueInvariant(g, query, depth, [], visited, levels)
    requires k <= Horizon(depth) && Within(g, query, m, k)
    ensures m in levels && levels[m] <= k
    decreases k
  {
    if k > 0 {
      if Within(g, query, m, k - 1) {
        QueueComplete(g, query, depth, visited, levels, m, k - 1);
      } else {
        var n :| IsSucc(g, n, m) && Within(g, query, n, k - 1);
        QueueComplete(g, query, depth, visited, levels, n, k - 1);
        assert levels[n] < depth;
      }
    }
  }

  /** The first step of any walk records query and pushes its successors at level 1 when depth allows. */
  lemma ExploreFirstStep(g: Graph, query: NodeId, depth: int, order: Discipline)
    requires WellFormed(g) && (query in g || depth <= 0)
    ensures Expandable(g, depth, FirstPending(g, query, depth))
    ensures Explore(g, query, depth, order) == Walk(g, depth, order, FirstPending(g, query, depth), [query])
  {
    var start: seq<Entry> := [(query, 0)];
    assert Top(order, start) == (query, 0) && Rest(order, start) == [];
    assert StepVisited(order, start, []) == [query];
    assert StepPending(g, depth, order, start, []) == FirstPending(g, query, depth);
    StepExpandable(g, depth, order, start, []);
  }

  /** What is pending after the first step: query's successors at level 1, or nothing when depth is at most 0. */
  function FirstPending(g: Graph, query: NodeId, depth: int): seq<Entry>
    requires query in g || depth <= 0
  {
    if 0 < depth then Tagged(g[query], 1) else []
  }

  /** Both walks return query first. */
  lemma ExploreStartsWithQuery(g: Graph, query: NodeId, depth: int, order: Discipline)
    requires WellFormed(g) && (query in g || depth <= 0)
    ensures var r := Explore(g, query, depth, order); |r| > 0 && r[0] == query
  {
    ExploreFirstStep(g, query, depth, order);
    WalkExtends(g, depth, order, FirstPending(g, query, depth), [query]);
  }

  /** Neither walk records a node twice. */
  lemma ExploreNoDuplicates(g: Graph, query: NodeId, depth: int, order: Discipline)
    requires WellFormed(g) && (query in g || depth <= 0)
    ensures NoDuplicates(Explore(g, query, depth, order))
  {
    WalkNoDuplicates(g, depth, order, [(query, 0)], []);
  }

  /** Every node either walk records is at most depth hops from query (query alone when depth is at most 0). */
  lemma ExploreWithinDepth(g: Graph, query: NodeId, depth: int, order: Discipline)
    requires WellFormed(g) && (query in g || depth <= 0)
    ensures forall x :: x in Explore(g, query, depth, order) ==> Within(g, query, x, Horizon(depth))
  {
    WithinQuery(g, query, 0);
    WalkWithin(g, query, depth, order, [(query, 0)], []);
  }

  /** With depth at most 0 nothing is expanded: the result is query alone, whether or not it is a node. */
  lemma ExploreZeroDepth(g: Graph, query: NodeId, depth: int, order: Discipline)
    requires WellFormed(g) && depth <= 0
    ensures Explore(g, query, depth, order) == [query]
  {
    ExploreFirstStep(g, query, depth, order);
  }

  /** With depth at least 1 both walks record every direct successor of query. */
  lemma ExploreFirstHop(g: Graph, query: NodeId, depth: int, order: Discipline)
    requires WellFormed(g) && query in g && depth >= 1
    ensures forall m :: IsSucc(g, query, m) ==> m in Explore(g, query, depth, order)
  {
    ExploreFirstStep(g, query, depth, order);
    TaggedMembers(g[query], 1);
    WalkCovers(g, depth, order, Tagged(g[query], 1), [query]);
  }

  /** The queue walk's final levels are the shortest distances, and it records nodes in that order. */
  lemma QueueLevels(g: Graph, query: NodeId, depth: int) returns (levels: map<NodeId, nat>)
    requires WellFormed(g) && (query in g || depth <= 0)
    ensures QueueInvariant(g, query, depth, [], Explore(g, query, depth, Fifo), levels)
  {
    QueueStart(g, query, depth);
    levels := QueueWalk(g, query, depth, [(query, 0)], [], map[]);
  }

  /** The queue walk records exactly the nodes at most depth hops from query. */
  lemma BfsExact(g: Graph, query: NodeId, depth: int)
    requires WellFormed(g) && (query in g || depth <= 0)
    ensures forall m :: m in Explore(g, query, depth, Fifo) <==> Within(g, query, m, Horizon(depth))
  {
    var r := Explore(g, query, depth, Fifo);
    var levels := QueueLevels(g, query, depth);
    ExploreWithinDepth(g, query, depth, Fifo);
    forall m | Within(g, query, m, Horizon(depth)) ensures m in r {
      QueueComplete(g, query, depth, r, levels, m, Horizon(depth));
    }
  }

  /**
   * The queue walk records nodes nearest first: whenever a node is at most k
   * hops from query, so is every node recorded before it.
   */
  lemma BfsNearestFirst(g: Graph, query: NodeId, depth: int, i: nat, j: nat, k: nat)
    requires WellFormed(g) && (query in g || depth <= 0)
    requires i < j < |Explore(g, query, depth, Fifo)|
    requires Within(g, query, Explore(g, query, depth, Fifo)[j], k)
    ensures Within(g, query, Explore(g, query, depth, Fifo)[i], k)
  {
    var r := Explore(g, query, depth, Fifo);
    var levels := QueueLevels(g, query, depth);
    ExploreWithinDepth(g, query, depth, Fifo);
    assert r[i] in r && r[j] in r;
    if k <= Horizon(depth) {
      QueueComplete(g, query, depth, r, levels, r[j], k);
    } else {
      QueueComplete(g, query, depth, r, levels, r[j], Horizon(depth));
    }
    WithinMonotone(g, query, r[i], levels[r[i]], k);
  }

  /** A graph on which the two walks differ: c is two hops from q, by way of a. */
  const Diamond: Graph := map["q" := ["a", "b"], "b" := ["a"], "a" := ["c"], "c" := []]

  lemma DiamondShape()
    ensures WellFormed(Diamond) && "q" in Diamond
  {
  }

  lemma DiamondDistance()
    ensures Within(Diamond, "q", "c", 2)
  {
    assert IsSucc(Diamond, "q", "a") && IsSucc(Diamond, "a", "c");
    assert Within(Diamond, "q", "a", 1);
  }

  /** One pop, with its outcome given: the walk goes on from the new pending and visited lists. */
  lemma WalkPop(g: Graph, depth: int, order: Discipline, pending: seq<Entry>, visited: seq<NodeId>,
                pending': seq<Entry>, visited': seq<NodeId>)
    requires WellFormed(g) && pending != [] && Expandable(g, depth, pending)
    requires StepPending(g, depth, order, pending, visited) == pending'
    requires StepVisited(order, pending, visited) == visited'
    ensures Expandable(g, depth, pending')
    ensures Walk(g, depth, order, pending, visited) == Walk(g, depth, order, pending', visited')
  {
    StepExpandable(g, depth, order, pending, visited);
  }

  /* The stack walk on Diamond with depth 2, one pop per lemma. */

  lemma DiamondPopQ()
    ensures Walk(Diamond, 2, Lifo, [("q", 0)], []) == Walk(Diamond, 2, Lifo, [("a", 1), ("b", 1)], ["q"])
  {
    DiamondShape();
    var start: seq<Entry> := [("q", 0)];
    assert Top(Lifo, start) == ("q", 0) && Rest(Lifo, start) == [];
    assert Diamond["q"] == ["a", "b"] && ["a", "b"][1..] == ["b"];
    assert Tagged(["b"], 1) == [("b", 1)];
    assert Tagged(Diamond["q"], 1) == [("a", 1), ("b", 1)];
    StepPendingCases(Diamond, 2, Lifo, start, []);
    WalkPop(Diamond, 2, Lifo, [("q", 0)], [], [("a", 1), ("b", 1)], ["q"]);
  }

  lemma DiamondPopB()
    ensures Walk(Diamond, 2, Lifo, [("a", 1), ("b", 1)], ["q"]) == Walk(Diamond, 2, Lifo, [("a", 1), ("a", 2)], ["q", "b"])
  {
    DiamondShape();
    var stack: seq<Entry> := [("a", 1), ("b", 1)];
    assert stack[..1] == [("a", 1)];
    assert Top(Lifo, stack) == ("b", 1) && Rest(Lifo, stack) == [("a", 1)];
    assert Tagged(Diamond["b"], 2) == [("a", 2)];
    assert StepPending(Diamond, 2, Lifo, stack, ["q"]) == [("a", 1), ("a", 2)];
    WalkPop(Diamond, 2, Lifo, [("a", 1), ("b", 1)], ["q"], [("a", 1), ("a", 2)], ["q", "b"]);
  }

  lemma DiamondPopA()
    ensures Walk(Diamond, 2, Lifo, [("a", 1), ("a", 2)], ["q", "b"]) == ["q", "b", "a"]
  {
    DiamondShape();
    var v: seq<NodeId> := ["q", "b", "a"];
    assert StepPending(Diamond, 2, Lifo, [("a", 1), ("a", 2)], ["q", "b"]) == [("a", 1)];
    WalkPop(Diamond, 2, Lifo, [("a", 1), ("a", 2)], ["q", "b"], [("a", 1)], v);
    assert StepPending(Diamond, 2, Lifo, [("a", 1)], v) == [];
    WalkPop(Diamond, 2, Lifo, [("a", 1)], v, [], v);
  }

  /**
   * The stack walk is not complete: on Diamond with depth 2, a is first
   * popped through b at level 2, so its successor c is never pushed.
   */
  lemma DfsMissesNodeWithinDepth()
    ensures Within(Diamond, "q", "c", 2)
    ensures Explore(Diamond, "q", 2, Lifo) == ["q", "b", "a"]
  {
    DiamondDistance();
    DiamondShape();
    DiamondPopQ();
    DiamondPopB();
    DiamondPopA();
  }
}
