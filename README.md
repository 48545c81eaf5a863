# Labelled graph engine

A Dafny model of the `Graph` class of `python/unittests/graph/Graph.py`:
an insertion-ordered collection of uniquely labelled nodes, each with an
ordered neighbour list and a transient visitation flag, a fixed choice of
directed or undirected edges, and two counters (nodes and successful
connects). The model covers node and edge insertion with their business-rule
failures, the label lookups, the neighbour test, and the three traversals:
breadth-first from the first-inserted node, depth-first over every node,
and the backtracking enumeration of all simple paths between two labels.

Layout:

- `adjacency.dfy` (module `Adjacency`) holds the value-level view of the
  storage. Node `i` is the `i`-th inserted node, and `adj[i]` is its
  neighbour list as node indices. The module defines connecting two nodes
  (`Linked`), the total adjacency-entry count, walks, simple paths,
  reachability, and label paths.
- `traversal.dfy` (module `Traversal`) states the bookkeeping of the
  traversals over values. Each lemma is one step of a traversal loop.
- `graph.dfy` (module `Graphs`) holds the class `Graph`. Its fields are
  reassigned by its methods, and each method follows the loop or
  recursion of the Python method it models.

The model differs from the source in these ways:

- A node reference becomes its index, so `Get` returns an index.
- The `LinkedList` of nodes becomes the `labels` and `adj` sequence
  fields.
- The per-node `wasVisitedBool` flags become the `visited: seq<bool>`
  field.
- The `Queue` locals become `seq` locals: enqueue appends and dequeue
  drops the head.
- The path `Stack` that `printPaths` shares with every level of
  `__printPaths` becomes the `pathStack` sequence field. Push appends to
  it and pop drops its last element, both in place.
- A raised exception becomes an `Outcome` or `Result` value that carries a
  `GraphError`.
- `printPaths` returns the paths it would print, as label sequences.
- The traversals return a ghost `order`, the visited node indices in
  visiting order. Their contracts are stated over it.

The object invariant `Valid` says five things:

- Labels are pairwise distinct.
- Every neighbour entry names another existing node.
- An undirected graph's adjacency is symmetric.
- `nodeCount` is the number of nodes.
- The total number of adjacency entries is `connectionCount` for a
  directed graph and twice it for an undirected one.

Between public calls no flag is set (`Idle`). Every traversal returns
with the flags exactly as it found them.

## Model

| member | source | states |
|---|---|---|
| Graphs.Graph.constructor | python/unittests/graph/Graph.py:26-30 | a new graph has no nodes, no connections, the given directedness (undirected by default), and satisfies the invariant with no flag set |
| Graphs.Graph.Add | python/unittests/graph/Graph.py:35-45 | fails with DuplicateLabel exactly when the label is present, leaving everything unchanged; otherwise appends one node with that label, an empty neighbour list and a clear flag, counts it, and keeps labels distinct |
| Graphs.Graph.Connect | python/unittests/graph/Graph.py:48-62 | checks fewer than two nodes, then equal labels, then an unknown label, in that order; it succeeds exactly when none applies; on failure adjacency and connectionCount are unchanged; on success the lists are those of connecting the two nodes and connectionCount grows by one |
| Graphs.Graph.Link | python/unittests/graph/Graph.py:174-182 | appends dest to src's list, and src to dest's list only when undirected, counts one connection, and keeps the invariant (including symmetry and the entry count) |
| Adjacency.LinkedEffect | python/unittests/graph/Graph.py:178-180 | connecting changes only the two endpoint lists, each by one appended entry (dest's list only when undirected), with no duplicate check |
| Adjacency.LinkedDegree | python/unittests/graph/Graph.py:178-182 | connecting adds one adjacency entry to a directed graph and two to an undirected one, matching the single increment of connectionCount |
| Adjacency.LinkedInvariants | python/unittests/graph/Graph.py:174-182 | connecting two distinct existing nodes keeps entries in range and free of self-loops, makes dest a neighbour of src (and src of dest when undirected), and keeps an undirected graph symmetric |
| Adjacency.TotalDegreeAppend | python/unittests/graph/Graph.py:178 | appending one neighbour adds exactly one adjacency entry |
| Graphs.Graph.NodeCount | python/unittests/graph/Graph.py:80-81 | the node counter equals the number of nodes |
| Graphs.Graph.ConnectionCount | python/unittests/graph/Graph.py:84-85 | the connection counter accounts for every adjacency entry: one per connection when directed, two when undirected |
| Graphs.Graph.Contains | python/unittests/graph/Graph.py:185-194 | the scan answers true exactly when some node has the label |
| Graphs.Graph.Has | python/unittests/graph/Graph.py:90-98 | false on an empty graph, otherwise true exactly when some node has the label |
| Graphs.Graph.Find | python/unittests/graph/Graph.py:215-223 | finds a node exactly when the label is present, and then the first node in insertion order that has it |
| Adjacency.IndexOf | python/unittests/graph/Graph.py:215-223 | the position the lookup stops at holds the label, and no earlier position does |
| Graphs.Graph.Get | python/unittests/graph/Graph.py:67-77 | fails with EmptyGraph on an empty graph and with UnknownLabel on an absent label; otherwise returns the node with that label |
| Graphs.Graph.AreNeighbours | python/unittests/graph/Graph.py:101-109 | fails with InsufficientNodes below two nodes; otherwise answers whether the node labelled src lists a neighbour labelled dest, and in an undirected graph the answer is the same with the labels swapped |
| Graphs.Graph.NeighbourScan | python/unittests/graph/Graph.py:197-212 | the nested scan answers true exactly when the node labelled src lists a neighbour labelled dest |
| Adjacency.LabelAdjacentSymmetric | python/unittests/graph/Graph.py:179-180 | in a symmetric graph, label adjacency holds in one direction exactly when it holds in the other |
| Graphs.Graph.Unvisit | python/unittests/graph/Graph.py:226-231 | clears every visitation flag and keeps one flag per node |
| Graphs.Graph.Bfs | python/unittests/graph/Graph.py:112-140 | the result starts with the first-inserted node's label, has no repeated label, lists exactly the nodes reachable from the first node, each (after the first) discovered along an edge from an earlier one, and every flag is clear again on return |
| Traversal.BfsDiscover | python/unittests/graph/Graph.py:128-135 | enqueueing an unflagged neighbour flags it, records its label once, keeps it reachable from the start and appends it to the queue |
| Traversal.BfsComplete | python/unittests/graph/Graph.py:124-135 | when the queue empties, the flagged nodes are closed under the neighbour relation, so they are exactly the nodes reachable from the first node, and their labels are distinct |
| Adjacency.ClosedContainsReachable | python/unittests/graph/Graph.py:124-135 | a flag set closed under neighbours that contains a node contains every node reachable from it |
| Graphs.Graph.Dfs | python/unittests/graph/Graph.py:143-156 | the result lists every node's label exactly once and starts with the first-inserted node; each node was either reached along an edge from an earlier-visited node or started a new tree once every earlier-inserted node was visited; every flag is clear again on return |
| Graphs.Graph.Visit | python/unittests/graph/Graph.py:234-244 | flags the node and records its label first, then visits unflagged neighbours; the records only grow, every node recorded during the call is reachable from the node and was reached along an edge from a node of this call, and all of the node's neighbours end flagged |
| Traversal.VisitChild | python/unittests/graph/Graph.py:239-244 | the recursive visit of an unflagged neighbour extends the visit of its parent |
| Traversal.DfsVisited | python/unittests/graph/Graph.py:147-151 | a visit started by the outer scan keeps every record distinct and every visited node's neighbours flagged |
| Traversal.DfsFinish | python/unittests/graph/Graph.py:147-156 | when the scan ends every node has been recorded exactly once |
| Traversal.TracksMark | python/unittests/graph/Graph.py:236-237 | flagging an unflagged node and recording its label keeps the flags and the records in step: the flagged nodes are exactly the recorded ones, each recorded once, and the unflagged count drops by one |
| Graphs.Graph.PrintPaths | python/unittests/graph/Graph.py:159-169 | lookup failures of either label propagate (EmptyGraph, UnknownLabel); otherwise the result contains every simple label path from src to dest and nothing else, is just the one-label path when src equals dest; the path stack starts as [src] and holds [src] again on return, and every flag is clear again on return |
| Graphs.Graph.EnumeratePaths | python/unittests/graph/Graph.py:247-264 | at dest the current path is the only output; otherwise every emitted path is a simple path to dest extending the current one, every such path is emitted, the shared path stack, pushed before and popped after each recursive call, holds the current path's labels on entry and is back to its entry contents on return, and the flags are restored on return |
| Traversal.PathsAtDest | python/unittests/graph/Graph.py:249-250 | at dest the current path is the only simple path to dest that extends it |
| Traversal.PathsChild | python/unittests/graph/Graph.py:256-261 | the paths emitted by the recursion into an unflagged neighbour are exactly those that leave the current path through it |
| Traversal.PathsStep | python/unittests/graph/Graph.py:256-261 | a flagged neighbour lies on the current path, so no simple path leaves through it |
| Traversal.PathsFinish | python/unittests/graph/Graph.py:255-264 | once every neighbour has been tried, every simple path to dest extending the current path has been emitted |
| Traversal.PathsSound | python/unittests/graph/Graph.py:159-166 | every emitted path starts with src, ends with dest, follows edges and repeats no label |
| Traversal.PathsComplete | python/unittests/graph/Graph.py:159-166 | every simple label path from src to dest is emitted |
| Adjacency.PathOfLabels | python/unittests/graph/Graph.py:247-264 | with distinct labels, a simple label path is the label sequence of a simple node path |
| Adjacency.CountFalseMark | python/unittests/graph/Graph.py:253 | flagging an unflagged node lowers the number of unflagged nodes by one, which bounds the recursion |

## Left out

- The runtime `None` and `isinstance(..., str)` checks of `add`, `connect`, `get`, `has` and `areNeighbours` are not modelled, because Dafny's static types already rule out those arguments.
- `print(self.__nodes)` before the unknown-label failure of `connect` (Graph.py:58) is console output and is not modelled.
- `print(path)` in `__printPaths` (Graph.py:250) is replaced by collecting the paths into the returned sequence.
- Graphs.Graph.Bfs: requires a non-empty graph. On an empty graph `peekFirst` fails inside `LinkedList`, which is not part of this model.
- Graphs.Graph.Bfs: states which nodes are reached, that each is recorded once, and that each has an earlier parent. It does not state the level-by-level order of the queue.
- Graphs.Graph.Dfs: states pre-order as "reached from an earlier-visited node, or a new tree root". It does not state the exact order given by the neighbour lists.
- Graphs.Graph.PrintPaths: states the emitted paths as a set: every simple path is present and nothing else is. It does not state their order or multiplicity. Connecting the same pair twice leaves a duplicate neighbour entry, and the source then prints the same path more than once.
- `LinkedList`, `Queue`, `Stack` and `GraphNode` are not part of this model. They are imported at Graph.py:9-12, and the model uses Dafny sequences and node indices in their place.
- Object identity and aliasing of node references are not modelled, because nodes are indices.
- `__connect` (Graph.py:174-182) appends without checking, so neighbour lists may hold duplicates; `Valid` does not forbid them.
