/**
 * The four traversals of the code graph: direct neighbours, the neighbours
 * of neighbours, and the depth-bounded stack and queue walks.
 */
module Searcher {
  import opened Wrappers
  import opened CodeGraph
  import opened Traversal

  /**
   * The successors of query in adjacency order, or None when query is not a
   * node (networkx raises, and the lookup turns that into None).
   */
  function OneHopNeighbors(g: Graph, query: NodeId): (r: Option<seq<NodeId>>)
    ensures r.None? <==> query !in g
    ensures r.Some? ==> r.value == g[query]
    ensures r.Some? ==> forall m :: m in r.value <==> IsSucc(g, query, m)
    ensures r.Some? && WellFormed(g) ==> NoDuplicates(r.value) && forall m :: m in r.value ==> m in g
  {
    if query in g then Some(g[query]) else None
  }

  /** The successor lists of ns laid end to end, as repeated `extend` builds them. */
  function Concat(g: Graph, ns: seq<NodeId>): seq<NodeId>
    requires forall n :: n in ns ==> n in g
  {
    if ns == [] then [] else Concat(g, ns[..|ns| - 1]) + g[ns[|ns| - 1]]
  }

  /** A node is in the concatenation exactly when it is a successor of one of ns. */
  lemma {:induction false} ConcatMembers(g: Graph, ns: seq<NodeId>, m: NodeId)
    requires forall n :: n in ns ==> n in g
    ensures m in Concat(g, ns) <==> exists n :: n in ns && IsSucc(g, n, m)
    decreases |ns|
  {
    if ns != [] {
      var init, last := ns[..|ns| - 1], ns[|ns| - 1];
      assert ns == init + [last];
      assert forall n :: n in init ==> n in ns;
      ConcatMembers(g, init, m);
      if m in Concat(g, ns) {
        if m in Concat(g, init) {
          var n :| n in init && IsSucc(g, n, m);
          assert n in ns;
        } else {
          assert IsSucc(g, last, m);
        }
      }
      if exists n :: n in ns && IsSucc(g, n, m) {
        var n :| n in ns && IsSucc(g, n, m);
        assert n in init + [last];
        if n != last {
          assert m in Concat(g, init);
        }
      }
    }
  }

  /**
   * The nodes two edges away from query, each once, in no promised order
   * (the source passes them through a Python set). Query itself and its
   * direct successors are not excluded.
   */
  method TwoHopNeighbors(g: Graph, query: NodeId) returns (r: seq<NodeId>)
    requires WellFormed(g)
    requires query in g
    ensures NoDuplicates(r)
    ensures forall m :: m in r <==> exists n :: IsSucc(g, query, n) && IsSucc(g, n, m)
  {
    var oneHop := OneHopNeighbors(g, query).value;
    var twoHop: seq<NodeId> := [];
    for i := 0 to |oneHop|
      invariant twoHop == Concat(g, oneHop[..i])
    {
      assert oneHop[..i + 1][..i] == oneHop[..i];
      twoHop := twoHop + OneHopNeighbors(g, oneHop[i]).value;
    }
    assert oneHop[..|oneHop|] == oneHop;
    forall m ensures m in twoHop <==> exists n :: IsSucc(g, query, n) && IsSucc(g, n, m) {
      ConcatMembers(g, oneHop, m);
    }
    // list(set(two_hop)): drop repeats, then list the survivors in any order
    var pending := set m | m in twoHop;
    r := [];
    while pending != {}
      invariant NoDuplicates(r)
      invariant forall m :: m in r ==> m !in pending
      invariant forall m :: m in twoHop <==> m in r || m in pending
      decreases |pending|
    {
      var m :| m in pending;
      r := r + [m];
      pending := pending - {m};
    }
  }

  /**
   * The depth-bounded stack walk. A node is recorded when it is popped for
   * the first time; its successors are pushed, one level deeper, only while
   * its level is below depth. The result is Explore's stack walk: query
   * first, no node twice, every node within depth hops, query alone when
   * depth is at most 0, and every direct successor of query when depth is at
   * least 1.
   */
  method Dfs(g: Graph, query: NodeId, depth: int) returns (visited: seq<NodeId>)
    requires WellFormed(g)
    requires query in g || depth <= 0
    ensures visited == Explore(g, query, depth, Lifo)
    ensures |visited| > 0 && visited[0] == query
    ensures NoDuplicates(visited)
    ensures forall x :: x in visited ==> Within(g, query, x, Horizon(depth))
    ensures depth <= 0 ==> visited == [query]
    ensures depth >= 1 ==> forall m :: IsSucc(g, query, m) ==> m in visited
  {
    visited := [];
    var stack: seq<Entry> := [(query, 0)];
    while stack != []
      invariant Expandable(g, depth, stack)
      invariant Walk(g, depth, Lifo, stack, visited) == Explore(g, query, depth, Lifo)
      decreases |g.Keys - Elements(visited)|, |stack|
    {
      StepExpandable(g, depth, Lifo, stack, visited);
      StepProgress(g, depth, Lifo, stack, visited);
      LifoStep(g, depth, stack, visited);
      ghost var stack', visited' := StepPending(g, depth, Lifo, stack, visited), StepVisited(Lifo, stack, visited);
      var node, level := stack[|stack| - 1].0, stack[|stack| - 1].1;
      stack := stack[..|stack| - 1];
      if node !in visited {
        visited := visited + [node];
        if level < depth {
          stack := stack + Tagged(OneHopNeighbors(g, node).value, level + 1);
        }
      }
      assert stack == stack' && visited == visited';
    }
    ExploreStartsWithQuery(g, query, depth, Lifo);
    ExploreNoDuplicates(g, query, depth, Lifo);
    ExploreWithinDepth(g, query, depth, Lifo);
    if depth <= 0 {
      ExploreZeroDepth(g, query, depth, Lifo);
    } else {
      ExploreFirstHop(g, query, depth, Lifo);
    }
  }

  /**
   * The depth-bounded queue walk: the same loop as Dfs, popping from the
   * front. Besides what Dfs promises, it records exactly the nodes within
   * depth hops of query, nearest first.
   */
  method Bfs(g: Graph, query: NodeId, depth: int) returns (visited: seq<NodeId>)
    requires WellFormed(g)
    requires query in g || depth <= 0
    ensures visited == Explore(g, query, depth, Fifo)
    ensures |visited| > 0 && visited[0] == query
    ensures NoDuplicates(visited)
    ensures forall m :: m in visited <==> Within(g, query, m, Horizon(depth))
    ensures forall i, j, k :: 0 <= i < j < |visited| && Within(g, query, visited[j], k) ==> Within(g, query, visited[i], k)
    ensures depth <= 0 ==> visited == [query]
  {
    visited := [];
    var queue: seq<Entry> := [(query, 0)];
    while queue != []
      invariant Expandable(g, depth, queue)
      invariant Walk(g, depth, Fifo, queue, visited) == Explore(g, query, depth, Fifo)
      decreases |g.Keys - Elements(visited)|, |queue|
    {
      StepExpandable(g, depth, Fifo, queue, visited);
      StepProgress(g, depth, Fifo, queue, visited);
      FifoStep(g, depth, queue, visited);
      ghost var queue', visited' := StepPending(g, depth, Fifo, queue, visited), StepVisited(Fifo, queue, visited);
      var node, level := queue[0].0, queue[0].1;
      queue := queue[1..];
      if node !in visited {
        visited := visited + [node];
        if level < depth {
          queue := queue + Tagged(OneHopNeighbors(g, node).value, level + 1);
        }
      }
      assert queue == queue' && visited == visited';
    }
    ExploreStartsWithQuery(g, query, depth, Fifo);
    ExploreNoDuplicates(g, query, depth, Fifo);
    BfsExact(g, query, depth);
    forall i, j, k | 0 <= i < j < |visited| && Within(g, query, visited[j], k)
      ensures Within(g, query, visited[i], k)
    {
      BfsNearestFirst(g, query, depth, i, j, k);
    }
    if depth <= 0 {
      ExploreZeroDepth(g, query, depth, Fifo);
    }
  }
}
