# RepoGraph searcher, modelled in Dafny

RepoGraph turns a code repository into a directed graph of definitions and
references. Its searcher answers four kinds of queries on that graph: the
direct neighbours of a node, the neighbours of neighbours, and two
depth-bounded walks. The depth-first walk works from a stack and the
breadth-first walk from a queue. This project models those queries and
proves what they return.

- `CodeGraph` (`code_graph.dfy`) models the graph as the adjacency view of a
  networkx `MultiDiGraph`.
  - Each node id maps to its successors, each listed once, in insertion order.
  - Every successor is itself a node.
  - `Within(g, q, m, k)` says that `m` is at most `k` hops from `q`. It is
    proved equivalent to the existence of a path of at most `k` edges.
- `Traversal` (`traversal.dfy`) is the specification of both walks.
  - `Walk` pops one `(node, level)` entry at a time. It records the node the
    first time it is popped. While the level is below `depth`, it appends the
    node's successors one level deeper.
  - `Lifo` pops the last entry (`pop()`); `Fifo` pops the first (`pop(0)`).
  - The lemmas state what each walk returns. For the queue walk, the proofs
    carry a ghost map from each recorded node to its level.
- `Searcher` (`searcher.dfy`) holds the module-level functions.
  - `OneHopNeighbors` is a function.
  - `TwoHopNeighbors`, `Dfs` and `Bfs` are methods whose loops follow the
    source's loops.
  - `Dfs` and `Bfs` are proved to return `Explore` of their discipline, then
    the properties proved about `Explore`.
- `GraphSearcher` (`graph_searcher.dfy`) holds the `RepoGraphSearcher`
  class. It keeps the loaded graph and forwards queries to `Searcher`.

Where the source comment and the code disagree, the model follows the code.
At `repograph/Searcher.py:21` the comment says a missing node gives an empty
list, but the code returns `None`. The model returns `None`, as an `Option`.

## Model

| member | source | states |
|---|---|---|
| `CodeGraph.WithinIsReachability` | repograph/Searcher.py:32-58 | being within k hops of q, the measure the walks' depth bounds, holds exactly when some path of at most k edges leads from q |
| `Searcher.OneHopNeighbors` | repograph/Searcher.py:6-22 | None exactly when the query is not a node; otherwise its successor list: exactly the nodes one edge away, without repeats, all of them nodes |
| `Searcher.ConcatMembers` | repograph/Searcher.py:27-29 | the list built by extending with each one-hop node's successors holds exactly the successors of those nodes |
| `Searcher.TwoHopNeighbors` | repograph/Searcher.py:24-30 | the result has no repeats and holds exactly the nodes two edges from the query; the query and its direct successors are not excluded |
| `Traversal.TaggedMembers` | repograph/Searcher.py:41-43 | the comprehension that tags successors with the next level holds a pair for exactly the listed nodes, each with that level |
| `Traversal.StepProgress` | repograph/Searcher.py:36-43 | each pop records a node not yet recorded, or records nothing and shrinks the stack, so the walk ends |
| `Traversal.WalkExtends` | repograph/Searcher.py:38-39 | the walk only appends: the list recorded so far is a prefix of the final result |
| `Traversal.WalkNoDuplicates` | repograph/Searcher.py:38-39 | the membership test before appending means no node is recorded twice |
| `Traversal.WalkCovers` | repograph/Searcher.py:36-43 | every node on the stack or queue is eventually recorded |
| `Traversal.WalkWithin` | repograph/Searcher.py:40-43 | entries are pushed one level deeper only below depth, so every recorded node is within depth hops of the query |
| `Traversal.ExploreStartsWithQuery` | repograph/Searcher.py:34-39 | both walks return the query as their first element |
| `Traversal.ExploreNoDuplicates` | repograph/Searcher.py:32-58 | neither walk returns a node twice |
| `Traversal.ExploreWithinDepth` | repograph/Searcher.py:32-58 | every node either walk returns is at most depth hops from the query |
| `Traversal.ExploreZeroDepth` | repograph/Searcher.py:35-40 | with depth at most 0 both walks return exactly the query, whether or not it is a node |
| `Traversal.ExploreFirstHop` | repograph/Searcher.py:40-43 | with depth at least 1 both walks return every direct successor of the query |
| `Traversal.QueueStep` | repograph/Searcher.py:50-57 | one pop from the front keeps the queue invariant: levels are recorded in non-decreasing order, the queue spans at most two adjacent levels, and successors of shallow nodes are recorded or queued one level deeper |
| `Traversal.BfsExact` | repograph/Searcher.py:46-58 | the breadth-first walk returns exactly the nodes at most depth hops from the query |
| `Traversal.BfsNearestFirst` | repograph/Searcher.py:46-58 | the breadth-first walk returns nodes nearest first: any node before one that is k hops away is itself at most k hops away |
| `Traversal.DfsMissesNodeWithinDepth` | repograph/Searcher.py:32-44 | on a four-node graph with depth 2, the depth-first walk returns q, b, a and misses c, which is two hops from q |
| `Searcher.Dfs` | repograph/Searcher.py:32-44 | the stack loop returns the Lifo walk: query first, no repeats, everything within depth hops, the query alone at depth 0 or below, every direct successor at depth 1 or more |
| `Searcher.Bfs` | repograph/Searcher.py:46-58 | the queue loop returns the Fifo walk: query first, no repeats, exactly the nodes within depth hops, nearest first, the query alone at depth 0 or below |
| `GraphSearcher.RepoGraphSearcher.constructor` | repograph/Searcher.py:65-71 | the searcher keeps the graph it is given, and that graph is well formed |
| `GraphSearcher.RepoGraphSearcher.OneHopNeighbors` | repograph/Searcher.py:73-74 | None exactly when the query is not a node of the kept graph; otherwise its successors, each once |
| `GraphSearcher.RepoGraphSearcher.TwoHopNeighbors` | repograph/Searcher.py:76-77 | exactly the nodes two edges from the query in the kept graph, each once |

## Left out

- Loading the graph is not modelled. This covers reading the pickle named by the configuration's output folder, the configuration dictionary, and the `repo_path`, `output_folder` and `graph_path` attributes. The constructor takes the graph as a parameter.
- Graph construction, visualisation and the command-line drivers are not part of this model: `repograph/Constructor.py`, `repograph/Visualizer.py`, `construct.py`, `search.py`, `visualize.py` and `setup.py`.
- Edge kinds, edge attributes and parallel edges are not modelled. The searcher reads only successor lists, and networkx lists each successor once.
- Node ids are strings. The source accepts any hashable value as a node.
- Searcher.TwoHopNeighbors: requires the query to be a node. For a missing node the source iterates over `None` and raises `TypeError`; that crash is not modelled.
- Searcher.TwoHopNeighbors: the result order is left open, because `list(set(...))` promises no order. Only the members and the absence of repeats are stated.
- Searcher.Dfs: requires the query to be a node or depth to be at most 0. Otherwise the source iterates over `None` and raises `TypeError`; that crash is not modelled.
- Searcher.Bfs: the same requirement as `Searcher.Dfs`, for the same reason.
- Searcher.Dfs: does not promise to return every node within depth hops, because the source's depth-first walk does not. A node first reached along a long path is not expanded again when a shorter path reaches it later; `Traversal.DfsMissesNodeWithinDepth` shows this.
- Depth is an integer. A negative depth behaves like 0. Fractional depths are not modelled.
- Time and memory costs are not modelled: the `not in visited` list scan and `pop(0)`.
