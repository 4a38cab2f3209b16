/**
 * The searcher object: a code graph, loaded once, and the neighbour queries
 * answered against it.
 */
module GraphSearcher {
  import opened Wrappers
  import opened CodeGraph
  import Searcher

  class RepoGraphSearcher {
    /** The code graph. Reading it from the output folder is not part of this model. */
    const graph: Graph

    /** A graph built by the constructor always has closed, repeat-free successor lists. */
    predicate Valid() {
      WellFormed(graph)
    }

    constructor (graph: Graph)
      requires WellFormed(graph)
      ensures this.graph == graph && Valid()
    {
      this.graph := graph;
    }

    /** The direct successors of query in the loaded graph, or None when query is not a node. */
    function OneHopNeighbors(query: NodeId): (r: Option<seq<NodeId>>)
      requires Valid()
      ensures r.None? <==> query !in graph
      ensures r.Some? ==> NoDuplicates(r.value) && forall m :: m in r.value <==> IsSucc(graph, query, m)
    {
      Searcher.OneHopNeighbors(graph, query)
    }

    /** The nodes two edges from query in the loaded graph, each once. */
    method TwoHopNeighbors(query: NodeId) returns (r: seq<NodeId>)
      requires Valid() && query in graph
      ensures NoDuplicates(r)
      ensures forall m :: m in r <==> exists n :: IsSucc(graph, query, n) && IsSucc(graph, n, m)
    {
      r := Searcher.TwoHopNeighbors(graph, query);
    }
  }
}
