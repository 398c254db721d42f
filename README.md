# ultragraph matrix storage and the ring buffer's gating minimum, in Dafny

This project models two pieces of the deep_causality repository.

- `StorageMatrixGraph<T>` (module `StorageMatrix`, file `storage_matrix.dfy`) is
  ultragraph's graph store. It is a directed graph with u64 edge weights, a payload
  per node, an index table that decides which indices count as "contained", and an
  optional root. The Rust struct's four fields become a Dafny class. The petgraph
  `MatrixGraph` is modelled abstractly by two fields: a node-index set (`graphNodes`)
  and a map from directed edges to weights (`graphEdges`). `node_map` and `index_map`
  are the maps `nodeMap` and `indexMap`, and `root_index` is `rootIndex`. `Valid()`
  is the invariant every operation keeps:
  - the payload map covers exactly the graph's nodes;
  - every index-table entry maps an index to itself and names a graph node;
  - edges join graph nodes.

  Queries are functions over the class state. Updates are methods whose
  postconditions give the whole new state, the error cases and what stays unchanged.
  The three enumerations (`get_all_nodes`, `get_all_edges`, `outgoing_edges`) are
  loops, as in the source. Their results are specified up to order: the source
  iterates a `HashMap`, so its order is unspecified.
- `get_min_cursor_sequence` (module `CursorSequence`, file `cursor_sequence.dfy`) is
  the ring buffer's gating computation. Each sequence in the slice is represented by
  the value its `get()` returns, so the slice becomes a `seq<int>`. The function
  returns the least value, or the default sequence value 0 for an empty slice. It is
  a pure function, so it only reads those values. Lemmas prove that it does not
  depend on element order, that it is monotone when every sequence advances, and that
  the minimum over a concatenation is the smaller of the two minima. A barrier gates
  on its producer cursor together with its upstream sequences, which is why the last
  lemma matters.

The quirks of the Rust code are kept rather than corrected:
- `remove_edge` also deletes both endpoints from `index_map`. Afterwards neither
  endpoint is "contained", although both nodes and payloads remain and are counted.
- `remove_node` never clears `root_index`. After removing the root node,
  `contains_root_node` is still true while `get_root_node` is `None`.
- `get_last_index` returns the number of stored payloads, not the largest index in use.

The two scenario methods `RemovedRootStaysRecorded` and `RemovedEdgeForgetsEndpoints`
build a graph through the public operations. Their postconditions show the first two
quirks as a caller would observe them.

## Model

| member | source | states |
|---|---|---|
| `StorageMatrix.StorageMatrixGraph.constructor` | ultragraph/src/storage/storage_matrix.rs:53-60 | `new` yields the valid empty state: no nodes, edges, payloads, indices or root; `is_empty` holds and `contains_root_node` is false |
| `StorageMatrix.StorageMatrixGraph.NewWithCapacity` | ultragraph/src/storage/storage_matrix.rs:62-69 | `new_with_capacity` yields the same empty state as `new`, whatever the capacity |
| `StorageMatrix.StorageMatrixGraph.Size` | ultragraph/src/storage/storage_matrix.rs:85-89 | the node count equals the number of stored payloads |
| `StorageMatrix.StorageMatrixGraph.IsEmpty` | ultragraph/src/storage/storage_matrix.rs:91-95 | true exactly when no payload is stored; then no index is contained |
| `StorageMatrix.StorageMatrixGraph.NumberNodes` | ultragraph/src/storage/storage_matrix.rs:97-101 | the node count equals the number of stored payloads |
| `StorageMatrix.StorageMatrixGraph.NumberEdges` | ultragraph/src/storage/storage_matrix.rs:103-107 | a zero edge count means no pair of nodes is joined by an edge |
| `StorageMatrix.StorageMatrixGraph.GetAllNodes` | ultragraph/src/storage/storage_matrix.rs:109-117 | the result has one element per node, and each payload occurs exactly as often as there are nodes that store it |
| `StorageMatrix.StorageMatrixGraph.GetAllEdges` | ultragraph/src/storage/storage_matrix.rs:119-130 | the result lists every edge of the graph, nothing else, each once; its length is `number_edges` |
| `StorageMatrix.StorageMatrixGraph.Clear` | ultragraph/src/storage/storage_matrix.rs:132-138 | the graph, both maps and the root are emptied; `is_empty` holds and `contains_root_node` is false |
| `StorageMatrix.StorageMatrixGraph.AddRootNode` | ultragraph/src/storage/storage_matrix.rs:144-155 | adds the node as `add_node` does, returning a previously unused index; afterwards the root is recorded, `get_root_index` is that index and `get_root_node` is the value |
| `StorageMatrix.StorageMatrixGraph.ContainsRootNode` | ultragraph/src/storage/storage_matrix.rs:157-163 | true exactly when a root index is recorded, whether or not its node still exists |
| `StorageMatrix.StorageMatrixGraph.GetRootNode` | ultragraph/src/storage/storage_matrix.rs:165-176 | the payload under the recorded root index, `None` when no root is recorded or no payload is stored under it |
| `StorageMatrix.StorageMatrixGraph.GetRootIndex` | ultragraph/src/storage/storage_matrix.rs:178-188 | present exactly when `contains_root_node`, and then the recorded root index |
| `StorageMatrix.StorageMatrixGraph.GetLastIndex` | ultragraph/src/storage/storage_matrix.rs:190-200 | an error exactly when the graph has no nodes; otherwise the node count |
| `StorageMatrix.StorageMatrixGraph.AddNode` | ultragraph/src/storage/storage_matrix.rs:206-216 | returns an index not in use before; afterwards it is contained, `get_node` returns the value, the node count grows by one and edges and root are unchanged |
| `StorageMatrix.StorageMatrixGraph.ContainsNode` | ultragraph/src/storage/storage_matrix.rs:218-225 | a contained index always names a graph node that carries a payload |
| `StorageMatrix.StorageMatrixGraph.GetNode` | ultragraph/src/storage/storage_matrix.rs:227-239 | some payload exactly when the index is contained, and then the payload stored for that node |
| `StorageMatrix.StorageMatrixGraph.RemoveNode` | ultragraph/src/storage/storage_matrix.rs:241-256 | an error exactly for an index that is not contained, changing nothing; otherwise the node, its incident edges, its payload and its index go, the root index is untouched, and the index is no longer contained |
| `StorageMatrix.WithoutIncident` | ultragraph/src/storage/storage_matrix.rs:252 | removing a node from the matrix graph keeps exactly the edges that neither start nor end at it, with their weights |
| `StorageMatrix.StorageMatrixGraph.AddEdge` | ultragraph/src/storage/storage_matrix.rs:258-281 | errors for an uncontained `a`, then an uncontained `b`, then an existing edge, each changing nothing; succeeds exactly otherwise, adding edge (a,b) with weight 0 and nothing else |
| `StorageMatrix.StorageMatrixGraph.AddEdgeWithWeight` | ultragraph/src/storage/storage_matrix.rs:283-307 | the same errors as `add_edge`; on success `contains_edge(a,b)` holds with the given weight and the edge count grows by one |
| `StorageMatrix.StorageMatrixGraph.ContainsEdge` | ultragraph/src/storage/storage_matrix.rs:309-323 | true exactly when both endpoints are contained and the graph has the edge, so false whenever either endpoint is not contained |
| `StorageMatrix.StorageMatrixGraph.RemoveEdge` | ultragraph/src/storage/storage_matrix.rs:325-352 | errors for an uncontained `a`, then an uncontained `b`, then a missing edge, each changing nothing; on success the edge goes, both endpoints leave the index table and are no longer contained, while nodes, payloads and root stay |
| `StorageMatrix.Successors` | ultragraph/src/storage/storage_matrix.rs:399 | the neighbours the matrix graph lists for a node are exactly the targets of its outgoing edges |
| `StorageMatrix.StorageMatrixGraph.OutgoingEdges` | ultragraph/src/storage/storage_matrix.rs:387-406 | an error exactly when `a` is not contained; otherwise every target of an edge leaving `a`, each once |
| `StorageMatrix.RemovedRootStaysRecorded` | ultragraph/src/storage/storage_matrix.rs:241-256 | after adding a root node and removing it, `contains_root_node` is true and a root index is reported, but `get_root_node` is `None` |
| `StorageMatrix.RemovedEdgeForgetsEndpoints` | ultragraph/src/storage/storage_matrix.rs:347-349 | after adding two nodes, an edge between them and removing that edge, neither node is contained and `get_node` finds no payload, yet the node count is still 2 |
| `CursorSequence.Min` | dcl_data_structures/src/ring_buffer/utils/cursor_sequence.rs:12-15 | on a non-empty slice, the minimum is at most every value and equals one of them |
| `CursorSequence.GetMinCursorSequence` | dcl_data_structures/src/ring_buffer/utils/cursor_sequence.rs:7-17 | 0 for an empty slice; otherwise a lower bound of every value that is attained by some element; a one-element slice yields its value |
| `CursorSequence.MinCursorIsOrderIndependent` | dcl_data_structures/src/ring_buffer/utils/cursor_sequence.rs:12-16 | two slices holding the same values in any order yield the same result |
| `CursorSequence.MinCursorOfConcat` | dcl_data_structures/src/ring_buffer/utils/cursor_sequence.rs:12-16 | the result over two non-empty slices joined is the smaller of their two results |
| `CursorSequence.MinCursorIsMonotone` | dcl_data_structures/src/ring_buffer/utils/cursor_sequence.rs:12-16 | when every sequence's value is at least what it was, the result is at least what it was |

## Left out

- `shortest_path` is not modelled. It calls petgraph's A* search, which is foreign code, and panics through `expect` when no path exists.
- The `Default` impl is not modelled separately. It only calls `new`.
- The derived `Clone` is not modelled.
- Petgraph's index allocation is not modelled. `add_node` may return any index not currently a graph node, so index reuse after `remove_node` is neither required nor excluded.
- Petgraph's panics on a missing node or edge are not modelled. Every call the source makes is guarded by the index table, which `Valid()` keeps inside the node set.
- Integer widths of indices are not modelled. Node indices are `u32` in petgraph and `usize` in the API; here they are unbounded naturals, so exhausting the index space is not captured. Edge weights do keep their `u64` range.
- `new_with_capacity`'s capacity is not modelled. It only pre-sizes storage and is not observable.
- Iteration order is not modelled. `get_all_nodes`, `get_all_edges` and `outgoing_edges` are specified up to order because the source's order comes from `HashMap` and petgraph iteration.
- Error messages are not modelled as strings. `UltraGraphError` messages are represented by the constructors of `GraphError`.
- The atomic loads behind `Sequence::get()` and their memory ordering are not modelled. Each sequence is represented by the value one load returns.
- The rest of the ring buffer is not part of this model: the barrier, consumer, executor, sequence and wait strategies. They are concurrency code.
- `StorageMatrix.StorageMatrixGraph.ContainsNode`: its contract states only that a contained index names a node with a payload. That `contains_node` is exactly index-table membership is its body, and `GetNode`'s contract states the iff.
