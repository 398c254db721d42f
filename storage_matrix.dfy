/** The matrix-backed graph store of ultragraph: a directed graph with u64 edge
    weights, a payload per node, a table of the indices that count as
    "contained", and an optional root. */
module StorageMatrix {

  /** Edge weights are 64-bit unsigned integers. */
  newtype u64 = x: int | 0 <= x < 0x1_0000_0000_0000_0000

  datatype Option<T> = None | Some(value: T)

  /** The causes an `UltraGraphError` reports; the source carries them as
      message strings. */
  datatype GraphError =
    | IndexNotFound(index: nat)
    | IndexANotFound(a: nat)
    | IndexBNotFound(b: nat)
    | EdgeAlreadyExists(a: nat, b: nat)
    | EdgeDoesNotExist(a: nat, b: nat)
    | GraphIsEmpty

  datatype Result<T> = Ok(value: T) | Err(error: GraphError)

  /** A bound above every element of a finite set of indices. */
  ghost function UpperBound(s: set<nat>): (b: nat)
    ensures forall x :: x in s ==> x < b
    decreases s
  {
    if s == {} then 0
    else
      var x :| x in s;
      var b := UpperBound(s - {x});
      assert forall y :: y in s ==> y == x || y in s - {x};
      if b <= x then x + 1 else b
  }

  /** The edges of `edges` that neither start nor end at `k`: what is left
      after a matrix graph removes node `k`. */
  function WithoutIncident(edges: map<(nat, nat), u64>, k: nat): (r: map<(nat, nat), u64>)
    ensures forall e :: e in r <==> e in edges && e.0 != k && e.1 != k
    ensures forall e :: e in r ==> r[e] == edges[e]
  {
    map e | e in edges && e.0 != k && e.1 != k :: edges[e]
  }

  /** The nodes a matrix graph lists as neighbours of `k`: the targets of the
      edges leaving `k`. */
  function Successors(edges: map<(nat, nat), u64>, k: nat): (r: set<nat>)
    ensures forall b :: b in r <==> (k, b) in edges
  {
    set e | e in edges && e.0 == k :: e.1
  }

  /** `HashMap::get`: the value stored under `k`, if any. */
  function Lookup<K, V>(m: map<K, V>, k: K): (r: Option<V>)
    ensures r.Some? <==> k in m
    ensures r.Some? ==> r.value == m[k]
  {
    if k in m then Some(m[k]) else None
  }

  /** The keys of `m` among `keys` whose payload is `v`. */
  ghost function KeysHolding<T>(m: map<nat, T>, keys: set<nat>, v: T): set<nat>
  {
    set k | k in keys && k in m && m[k] == v
  }

  /** A sequence without repetitions is as long as the set of its elements. */
  lemma {:induction false} DistinctLength<X>(s: seq<X>, elems: set<X>)
    requires forall i, j :: 0 <= i < j < |s| ==> s[i] != s[j]
    requires forall x :: x in s <==> x in elems
    ensures |s| == |elems|
  {
    if |s| > 0 {
      var rest := elems - {s[0]};
      forall x | x in s[1..] ensures x in rest {
        var j :| 1 <= j < |s| && s[j] == x;
        assert s[0] != s[j];
      }
      forall x | x in rest ensures x in s[1..] {
        var j :| 0 <= j < |s| && s[j] == x;
        assert j != 0;
        assert s[1..][j - 1] == x;
      }
      DistinctLength(s[1..], rest);
    }
  }

  class StorageMatrixGraph<T> {
    /** `root_index` */
    var rootIndex: Option<nat>
    /** The node set of the underlying matrix graph. */
    var graphNodes: set<nat>
    /** The weighted edges of the underlying matrix graph. */
    var graphEdges: map<(nat, nat), u64>
    /** `node_map`: node index to payload. */
    var nodeMap: map<nat, T>
    /** `index_map`: the indices that count as contained. */
    var indexMap: map<nat, nat>

    /** What every operation keeps: the payload map covers exactly the graph's
        nodes, every indexed entry maps an index to itself and names a graph
        node, and edges join graph nodes. */
    ghost predicate Valid()
      reads this
    {
      && nodeMap.Keys == graphNodes
      && indexMap.Keys <= graphNodes
      && (forall i :: i in indexMap ==> indexMap[i] == i)
      && (forall e :: e in graphEdges ==> e.0 in graphNodes && e.1 in graphNodes)
    }

    /** The state `new`, `new_with_capacity` and `clear` produce. */
    ghost predicate IsCleared()
      reads this
    {
      rootIndex == None && graphNodes == {} && graphEdges == map[] && nodeMap == map[] && indexMap == map[]
    }

    /** `new` */
    constructor ()
      ensures Valid() && IsCleared()
      ensures IsEmpty() && !ContainsRootNode()
    {
      rootIndex := None;
      graphNodes := {};
      graphEdges := map[];
      nodeMap := map[];
      indexMap := map[];
    }

    /** `new_with_capacity`: the capacity only pre-sizes the stores, so the
        graph is the same empty graph `new` builds. */
    constructor NewWithCapacity(capacity: nat)
      ensures Valid() && IsCleared()
      ensures IsEmpty() && !ContainsRootNode()
    {
      rootIndex := None;
      graphNodes := {};
      graphEdges := map[];
      nodeMap := map[];
      indexMap := map[];
    }

    // ---- queries --------------------------------------------------------

    /** `size`: the number of nodes in the graph, which is also the number of
        stored payloads. */
    function Size(): (r: nat)
      reads this
      requires Valid()
      ensures r == |nodeMap|
    {
      |graphNodes|
    }

    /** `number_nodes` */
    function NumberNodes(): (r: nat)
      reads this
      requires Valid()
      ensures r == |nodeMap|
    {
      |graphNodes|
    }

    /** `number_edges` */
    function NumberEdges(): (r: nat)
      reads this
      ensures r == 0 ==> forall a, b :: (a, b) !in graphEdges
    {
      |graphEdges|
    }

    /** `is_empty`: no node in the graph; then no index is contained and no
        payload can be looked up. */
    function IsEmpty(): (r: bool)
      reads this
      requires Valid()
      ensures r <==> nodeMap == map[]
      ensures r ==> forall i :: i !in indexMap
    {
      |graphNodes| == 0
    }

    /** `contains_node`: decided by the index table alone; a contained index
        always names a node that carries a payload. */
    function ContainsNode(index: nat): (r: bool)
      reads this
      requires Valid()
      ensures r ==> index in graphNodes && index in nodeMap
    {
      index in indexMap
    }

    /** `get_node`: the payload of a contained index, `None` otherwise. */
    function GetNode(index: nat): (r: Option<T>)
      reads this
      requires Valid()
      ensures r.Some? <==> ContainsNode(index)
      ensures r.Some? ==> r.value == nodeMap[index]
    {
      if !ContainsNode(index) then None
      else Lookup(nodeMap, indexMap[index])
    }

    /** `contains_edge`: false unless both endpoints are contained; otherwise
        whether the graph has the edge. */
    function ContainsEdge(a: nat, b: nat): (r: bool)
      reads this
      requires Valid()
      ensures r <==> ContainsNode(a) && ContainsNode(b) && (a, b) in graphEdges
    {
      if !ContainsNode(a) || !ContainsNode(b) then false
      else
        var k, l := indexMap[a], indexMap[b];
        (k, l) in graphEdges
    }

    /** `contains_root_node`: a root index has been recorded, whether or not
        its node still exists. */
    function ContainsRootNode(): (r: bool)
      reads this
      ensures r <==> rootIndex != None
    {
      rootIndex.Some?
    }

    /** `get_root_node`: the payload stored under the root index, if any. */
    function GetRootNode(): (r: Option<T>)
      reads this
      ensures r.Some? <==> rootIndex.Some? && rootIndex.value in nodeMap
      ensures r.Some? ==> r.value == nodeMap[rootIndex.value]
    {
      if ContainsRootNode() then Lookup(nodeMap, rootIndex.value) else None
    }

    /** `get_root_index` */
    function GetRootIndex(): (r: Option<nat>)
      reads this
      ensures r.Some? <==> ContainsRootNode()
      ensures r.Some? ==> Some(r.value) == rootIndex
    {
      if ContainsRootNode() then Some(rootIndex.value) else None
    }

    /** `get_last_index`: an error on an empty graph, otherwise the number of
        stored payloads (a count, not the largest index in use). */
    function GetLastIndex(): (r: Result<nat>)
      reads this
      requires Valid()
      ensures r.Err? <==> NumberNodes() == 0
      ensures r.Err? ==> r.error == GraphIsEmpty
      ensures r.Ok? ==> r.value == NumberNodes() && r.value > 0
    {
      if !IsEmpty() then Ok(|nodeMap|) else Err(GraphIsEmpty)
    }

    // ---- read-only enumerations ----------------------------------------

    /** `get_all_nodes`: every stored payload, as often as it is stored, in
        the payload map's iteration order. */
    method GetAllNodes() returns (res: seq<T>)
      requires Valid()
      ensures |res| == NumberNodes()
      ensures forall v :: multiset(res)[v] == |KeysHolding(nodeMap, nodeMap.Keys, v)|
    {
      res := [];
      var pending := nodeMap.Keys;
      ghost var visited: set<nat> := {};
      while pending != {}
        invariant pending !! visited && pending + visited == nodeMap.Keys
        invariant |res| == |visited|
        invariant forall v :: multiset(res)[v] == |KeysHolding(nodeMap, visited, v)|
        decreases pending
      {
        var k :| k in pending;
        forall v
          ensures |KeysHolding(nodeMap, visited + {k}, v)|
                  == |KeysHolding(nodeMap, visited, v)| + (if nodeMap[k] == v then 1 else 0)
        {
          if nodeMap[k] == v {
            assert KeysHolding(nodeMap, visited + {k}, v) == KeysHolding(nodeMap, visited, v) + {k};
          } else {
            assert KeysHolding(nodeMap, visited + {k}, v) == KeysHolding(nodeMap, visited, v);
          }
        }
        res := res + [nodeMap[k]];
        pending := pending - {k};
        visited := visited + {k};
      }
    }

    /** `get_all_edges`: every edge of the graph exactly once, as a pair of
        node indices. */
    method GetAllEdges() returns (edges: seq<(nat, nat)>)
      requires Valid()
      ensures forall e :: e in edges <==> e in graphEdges
      ensures forall i, j :: 0 <= i < j < |edges| ==> edges[i] != edges[j]
      ensures |edges| == NumberEdges()
    {
      edges := [];
      var pending := nodeMap.Keys;
      ghost var visited: set<nat> := {};
      while pending != {}
        invariant pending !! visited && pending + visited == nodeMap.Keys
        invariant forall e :: e in edges <==> e in graphEdges && e.0 in visited
        invariant forall i, j :: 0 <= i < j < |edges| ==> edges[i] != edges[j]
        decreases pending
      {
        var idx :| idx in pending;
        var neighbors := Successors(graphEdges, idx);
        ghost var seen: set<nat> := {};
        while neighbors != {}
          invariant neighbors !! seen && neighbors + seen == Successors(graphEdges, idx)
          invariant forall e :: e in edges <==> e in graphEdges && (e.0 in visited || (e.0 == idx && e.1 in seen))
          invariant forall i, j :: 0 <= i < j < |edges| ==> edges[i] != edges[j]
          decreases neighbors
        {
          var n :| n in neighbors;
          edges := edges + [(idx, n)];
          neighbors := neighbors - {n};
          seen := seen + {n};
        }
        pending := pending - {idx};
        visited := visited + {idx};
      }
      DistinctLength(edges, graphEdges.Keys);
    }

    /** `outgoing_edges`: an error when `a` is not contained, otherwise the
        target of every edge leaving `a`, each once. */
    method OutgoingEdges(a: nat) returns (r: Result<seq<nat>>)
      requires Valid()
      ensures r.Err? <==> !ContainsNode(a)
      ensures r.Err? ==> r.error == IndexANotFound(a)
      ensures r.Ok? ==> forall b :: b in r.value <==> (a, b) in graphEdges
      ensures r.Ok? ==> forall i, j :: 0 <= i < j < |r.value| ==> r.value[i] != r.value[j]
    {
      if !ContainsNode(a) {
        return Err(IndexANotFound(a));
      }
      var result: seq<nat> := [];
      var neighbors := Successors(graphEdges, a);
      ghost var seen: set<nat> := {};
      while neighbors != {}
        invariant neighbors !! seen && neighbors + seen == Successors(graphEdges, a)
        invariant forall b :: b in result <==> b in seen
        invariant forall i, j :: 0 <= i < j < |result| ==> result[i] != result[j]
        decreases neighbors
      {
        var n :| n in neighbors;
        result := result + [n];
        neighbors := neighbors - {n};
        seen := seen + {n};
      }
      r := Ok(result);
    }

    // ---- updates --------------------------------------------------------

    /** `clear`: empties the graph, both maps and the root. */
    method Clear()
      modifies this
      ensures Valid() && IsCleared()
      ensures IsEmpty() && !ContainsRootNode()
    {
      graphEdges := map[];
      graphNodes := {};
      nodeMap := map[];
      indexMap := map[];
      rootIndex := None;
    }

    /** `add_node`: the graph hands out an index not currently in use; the
        payload is stored and the index becomes contained. */
    method AddNode(value: T) returns (idx: nat)
      requires Valid()
      modifies this
      ensures Valid()
      ensures idx !in old(graphNodes) && idx !in old(indexMap)
      ensures graphNodes == old(graphNodes) + {idx}
      ensures nodeMap == old(nodeMap)[idx := value]
      ensures indexMap == old(indexMap)[idx := idx]
      ensures graphEdges == old(graphEdges) && rootIndex == old(rootIndex)
      ensures ContainsNode(idx) && GetNode(idx) == Some(value)
      ensures NumberNodes() == old(NumberNodes()) + 1
    {
      assert UpperBound(graphNodes) !in graphNodes;
      idx :| idx !in graphNodes;
      graphNodes := graphNodes + {idx};
      nodeMap := nodeMap[idx := value];
      indexMap := indexMap[idx := idx];
    }

    /** `add_root_node`: adds the node as `add_node` does and records it as
        the root. */
    method AddRootNode(value: T) returns (idx: nat)
      requires Valid()
      modifies this
      ensures Valid()
      ensures idx !in old(graphNodes) && idx !in old(indexMap)
      ensures graphNodes == old(graphNodes) + {idx}
      ensures nodeMap == old(nodeMap)[idx := value]
      ensures indexMap == old(indexMap)[idx := idx]
      ensures graphEdges == old(graphEdges)
      ensures rootIndex == Some(idx)
      ensures ContainsNode(idx) && GetNode(idx) == Some(value)
      ensures ContainsRootNode() && GetRootIndex() == Some(idx) && GetRootNode() == Some(value)
    {
      idx := AddNode(value);
      rootIndex := Some(idx);
      indexMap := indexMap[idx := idx];
    }

    /** `remove_node`: an error for an index that is not contained; otherwise
        the node, its edges, its payload and its index entry go. The root
        index is left as it was, even when it named this node. */
    method RemoveNode(index: nat) returns (r: Result<()>)
      requires Valid()
      modifies this
      ensures Valid()
      ensures r.Err? <==> !old(ContainsNode(index))
      ensures r.Err? ==> r.error == IndexNotFound(index) && unchanged(this)
      ensures r.Ok? ==>
        && graphNodes == old(graphNodes) - {index}
        && graphEdges == WithoutIncident(old(graphEdges), index)
        && nodeMap == old(nodeMap) - {index}
        && indexMap == old(indexMap) - {index}
        && rootIndex == old(rootIndex)
      ensures r.Ok? ==> !ContainsNode(index) && GetNode(index) == None
      ensures r.Ok? ==> NumberNodes() == old(NumberNodes()) - 1
    {
      if !ContainsNode(index) {
        return Err(IndexNotFound(index));
      }
      var k := indexMap[index];
      graphEdges := WithoutIncident(graphEdges, k);
      graphNodes := graphNodes - {k};
      nodeMap := nodeMap - {k};
      indexMap := indexMap - {k};
      r := Ok(());
    }

    /** `add_edge`: as `add_edge_with_weight` with weight 0. */
    method AddEdge(a: nat, b: nat) returns (r: Result<()>)
      requires Valid()
      modifies this
      ensures Valid()
      ensures !old(ContainsNode(a)) ==> r == Err(IndexANotFound(a))
      ensures old(ContainsNode(a)) && !old(ContainsNode(b)) ==> r == Err(IndexBNotFound(b))
      ensures old(ContainsNode(a)) && old(ContainsNode(b)) && old(ContainsEdge(a, b)) ==> r == Err(EdgeAlreadyExists(a, b))
      ensures r.Ok? <==> old(ContainsNode(a)) && old(ContainsNode(b)) && !old(ContainsEdge(a, b))
      ensures r.Err? ==> unchanged(this)
      ensures r.Ok? ==>
        && graphEdges == old(graphEdges)[(a, b) := 0]
        && graphNodes == old(graphNodes) && nodeMap == old(nodeMap)
        && indexMap == old(indexMap) && rootIndex == old(rootIndex)
      ensures r.Ok? ==> ContainsEdge(a, b) && graphEdges[(a, b)] == 0
      ensures r.Ok? ==> NumberEdges() == old(NumberEdges()) + 1
    {
      r := AddEdgeWithWeight(a, b, 0);
    }

    /** `add_edge_with_weight`: errors, in this order, for an `a` or a `b`
        that is not contained and for an edge that already exists; otherwise
        the weighted edge is added and nothing else changes. */
    method AddEdgeWithWeight(a: nat, b: nat, weight: u64) returns (r: Result<()>)
      requires Valid()
      modifies this
      ensures Valid()
      ensures !old(ContainsNode(a)) ==> r == Err(IndexANotFound(a))
      ensures old(ContainsNode(a)) && !old(ContainsNode(b)) ==> r == Err(IndexBNotFound(b))
      ensures old(ContainsNode(a)) && old(ContainsNode(b)) && old(ContainsEdge(a, b)) ==> r == Err(EdgeAlreadyExists(a, b))
      ensures r.Ok? <==> old(ContainsNode(a)) && old(ContainsNode(b)) && !old(ContainsEdge(a, b))
      ensures r.Err? ==> unchanged(this)
      ensures r.Ok? ==>
        && graphEdges == old(graphEdges)[(a, b) := weight]
        && graphNodes == old(graphNodes) && nodeMap == old(nodeMap)
        && indexMap == old(indexMap) && rootIndex == old(rootIndex)
      ensures r.Ok? ==> ContainsEdge(a, b) && graphEdges[(a, b)] == weight
      ensures r.Ok? ==> NumberEdges() == old(NumberEdges()) + 1
    {
      if !ContainsNode(a) {
        return Err(IndexANotFound(a));
      }
      if !ContainsNode(b) {
        return Err(IndexBNotFound(b));
      }
      if ContainsEdge(a, b) {
        return Err(EdgeAlreadyExists(a, b));
      }
      var k, l := indexMap[a], indexMap[b];
      graphEdges := graphEdges[(k, l) := weight];
      r := Ok(());
    }

    /** `remove_edge`: errors, in this order, for an `a` or a `b` that is not
        contained and for a missing edge; otherwise the edge goes and both
        endpoints are dropped from the index table, so neither is contained
        afterwards although both nodes and payloads stay. */
    method RemoveEdge(a: nat, b: nat) returns (r: Result<()>)
      requires Valid()
      modifies this
      ensures Valid()
      ensures !old(ContainsNode(a)) ==> r == Err(IndexANotFound(a))
      ensures old(ContainsNode(a)) && !old(ContainsNode(b)) ==> r == Err(IndexBNotFound(b))
      ensures old(ContainsNode(a)) && old(ContainsNode(b)) && !old(ContainsEdge(a, b)) ==> r == Err(EdgeDoesNotExist(a, b))
      ensures r.Ok? <==> old(ContainsNode(a)) && old(ContainsNode(b)) && old(ContainsEdge(a, b))
      ensures r.Err? ==> unchanged(this)
      ensures r.Ok? ==>
        && graphEdges == old(graphEdges) - {(a, b)}
        && indexMap == old(indexMap) - {a, b}
        && graphNodes == old(graphNodes) && nodeMap == old(nodeMap) && rootIndex == old(rootIndex)
      ensures r.Ok? ==> !ContainsEdge(a, b) && !ContainsNode(a) && !ContainsNode(b)
      ensures r.Ok? ==> NumberNodes() == old(NumberNodes()) && NumberEdges() == old(NumberEdges()) - 1
    {
      if !ContainsNode(a) {
        return Err(IndexANotFound(a));
      }
      if !ContainsNode(b) {
        return Err(IndexBNotFound(b));
      }
      if !ContainsEdge(a, b) {
        return Err(EdgeDoesNotExist(a, b));
      }
      var k, l := indexMap[a], indexMap[b];
      graphEdges := graphEdges - {(k, l)};
      indexMap := indexMap - {a};
      indexMap := indexMap - {b};
      r := Ok(());
    }
  }

  // ---- what a caller observes ---------------------------------------------

  /** Removing the root node leaves a root recorded but no root payload. */
  method RemovedRootStaysRecorded<T>(value: T) returns (containsRoot: bool, rootIndex: Option<nat>, rootNode: Option<T>)
    ensures containsRoot && rootIndex.Some? && rootNode == None
  {
    var g := new StorageMatrixGraph<T>();
    var idx := g.AddRootNode(value);
    var r := g.RemoveNode(idx);
    containsRoot := g.ContainsRootNode();
    rootIndex := g.GetRootIndex();
    rootNode := g.GetRootNode();
  }

  /** Removing an edge makes both of its endpoints uncontained, although the
      graph still counts both nodes and still stores both payloads. */
  method RemovedEdgeForgetsEndpoints<T>(x: T, y: T) returns (containsA: bool, containsB: bool, nodes: nat, payloadA: Option<T>)
    ensures !containsA && !containsB && nodes == 2 && payloadA == None
  {
    var g := new StorageMatrixGraph<T>();
    var a := g.AddNode(x);
    var b := g.AddNode(y);
    var added := g.AddEdge(a, b);
    var removed := g.RemoveEdge(a, b);
    containsA := g.ContainsNode(a);
    containsB := g.ContainsNode(b);
    nodes := g.NumberNodes();
    payloadA := g.GetNode(a);
  }
}
