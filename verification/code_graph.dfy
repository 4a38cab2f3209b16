/**
 * The directed code graph the searcher walks, as the adjacency view a
 * networkx MultiDiGraph gives of itself: every node id maps to its
 * successors, in the order their first edge was inserted, each successor
 * listed once however many parallel edges lead to it.
 */
module CodeGraph {

  type NodeId = string

  type Graph = map<NodeId, seq<NodeId>>

  predicate NoDuplicates<T(==)>(s: seq<T>) {
    forall i, j :: 0 <= i < j < |s| ==> s[i] != s[j]
  }

  /** There is an edge from a to b. */
  predicate IsSucc(g: Graph, a: NodeId, b: NodeId) {
    a in g && b in g[a]
  }

  /**
   * What networkx guarantees of its own adjacency: successor lists have no
   * repeats, and every endpoint of an edge is itself a node.
   */
  predicate WellFormed(g: Graph) {
    forall a :: a in g ==> NoDuplicates(g[a]) && forall b :: b in g[a] ==> b in g
  }

  /** m is within k hops of q: the hop-by-hop growth of the neighbourhood of q. */
  ghost predicate Within(g: Graph, q: NodeId, m: NodeId, k: nat)
    decreases k
  {
    if k == 0 then m == q
    else Within(g, q, m, k - 1) || exists n :: IsSucc(g, n, m) && Within(g, q, n, k - 1)
  }

  /** A non-empty walk along edges of g. */
  predicate IsPath(g: Graph, p: seq<NodeId>) {
    |p| > 0 && forall i :: 0 <= i < |p| - 1 ==> IsSucc(g, p[i], p[i + 1])
  }

  /** A walk from q to m that takes at most k edges. */
  ghost predicate PathWithin(g: Graph, q: NodeId, m: NodeId, k: nat, p: seq<NodeId>) {
    IsPath(g, p) && p[0] == q && p[|p| - 1] == m && |p| <= k + 1
  }

  lemma {:induction false} WithinMonotone(g: Graph, q: NodeId, m: NodeId, j: nat, k: nat)
    requires j <= k && Within(g, q, m, j)
    ensures Within(g, q, m, k)
    decreases k - j
  {
    if j < k {
      WithinMonotone(g, q, m, j, k - 1);
    }
  }

  lemma WithinQuery(g: Graph, q: NodeId, k: nat)
    ensures Within(g, q, q, k)
  {
    if k > 0 {
      WithinQuery(g, q, k - 1);
    }
  }

  /** One more hop from a node within k hops lands within k + 1 hops. */
  lemma WithinStep(g: Graph, q: NodeId, k: nat, n: NodeId, m: NodeId)
    requires Within(g, q, n, k) && IsSucc(g, n, m)
    ensures Within(g, q, m, k + 1)
  {
  }

  /** Every node within k hops is the end of a walk of at most k edges from q. */
  lemma {:induction false} WithinHasPath(g: Graph, q: NodeId, k: nat, m: NodeId)
    requires Within(g, q, m, k)
    ensures exists p :: PathWithin(g, q, m, k, p)
  {
    if k == 0 {
      assert PathWithin(g, q, m, k, [q]);
    } else if Within(g, q, m, k - 1) {
      WithinHasPath(g, q, k - 1, m);
      var p :| PathWithin(g, q, m, k - 1, p);
      assert PathWithin(g, q, m, k, p);
    } else {
      var n :| IsSucc(g, n, m) && Within(g, q, n, k - 1);
      WithinHasPath(g, q, k - 1, n);
      var p :| PathWithin(g, q, n, k - 1, p);
      var p' := p + [m];
      assert forall i :: 0 <= i < |p'| - 1 ==> IsSucc(g, p'[i], p'[i + 1]) by {
        forall i | 0 <= i < |p'| - 1 ensures IsSucc(g, p'[i], p'[i + 1]) {
          if i < |p| - 1 {
            assert p'[i] == p[i] && p'[i + 1] == p[i + 1];
          }
        }
      }
      assert PathWithin(g, q, m, k, p');
    }
  }

  /** The end of every walk of at most k edges from q is within k hops. */
  lemma {:induction false} PathEndWithin(g: Graph, q: NodeId, k: nat, m: NodeId, p: seq<NodeId>)
    requires PathWithin(g, q, m, k, p)
    ensures Within(g, q, m, k)
  {
    if |p| == 1 {
      WithinQuery(g, q, k);
    } else {
      var p' := p[..|p| - 1];
      var n := p'[|p'| - 1];
      assert PathWithin(g, q, n, k - 1, p');
      PathEndWithin(g, q, k - 1, n, p');
      assert IsSucc(g, p[|p| - 2], p[|p| - 1]);
      WithinStep(g, q, k - 1, n, m);
    }
  }

  /** Within is exactly reachability by a walk of at most k edges. */
  lemma WithinIsReachability(g: Graph, q: NodeId, k: nat, m: NodeId)
    ensures Within(g, q, m, k) <==> exists p :: PathWithin(g, q, m, k, p)
  {
    if Within(g, q, m, k) {
      WithinHasPath(g, q, k, m);
    }
    if exists p :: PathWithin(g, q, m, k, p) {
      var p :| PathWithin(g, q, m, k, p);
      PathEndWithin(g, q, k, m, p);
    }
  }
}
