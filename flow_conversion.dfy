/** The conversion of a module graph into the nodes and edges of a flow
    diagram. Node positions are random and are not modelled. */
module FlowConversion {
  import opened Collections
  import opened Strings
  import opened BackendTypes

  /** `{id, data: {label}}` */
  datatype FlowNode = FlowNode(id: string, labelText: string)

  /** `{id, source, target}` */
  datatype FlowEdge = FlowEdge(id: string, source: string, target: string)

  /** The edge pushed for each dependency of the module with node id
      `nodeId`: it always points at the id one higher, whatever the
      dependency names. */
  function EdgeFrom(nodeId: nat): FlowEdge {
    FlowEdge("e" + NatToString(nodeId) + "-" + NatToString(nodeId + 1), NatToString(nodeId), NatToString(nodeId + 1))
  }

  /** The edges of the graph in push order: for the module at position k,
      as many copies of `mk(k + 1)` as it lists dependencies. */
  function EdgesWith(g: seq<(ModuleName, seq<ModuleName>)>, mk: nat -> FlowEdge): seq<FlowEdge>
    decreases |g|
  {
    if g == [] then []
    else
      var n := |g| - 1;
      EdgesWith(g[..n], mk) + Copies(mk(n + 1), |g[n].1|)
  }

  /** The edges `convertModuleGraphToReactFlow` pushes. */
  function FlowEdges(g: seq<(ModuleName, seq<ModuleName>)>): seq<FlowEdge> {
    EdgesWith(g, EdgeFrom)
  }

  /** The number of dependencies listed in the graph, over all modules. */
  function DependencyCount(g: seq<(ModuleName, seq<ModuleName>)>): nat
    decreases |g|
  {
    if g == [] then 0 else DependencyCount(g[..|g| - 1]) + |g[|g| - 1].1|
  }

  /** `convertModuleGraphToReactFlow(moduleGraph)`: one node per module in
      entry order, with ids "1", "2", ..., and one edge per listed
      dependency. */
  method ConvertModuleGraphToReactFlow(moduleGraph: ModuleGraph) returns (nodes: seq<FlowNode>, edges: seq<FlowEdge>)
    ensures |nodes| == |moduleGraph|
    ensures forall k :: 0 <= k < |nodes| ==> nodes[k] == FlowNode(NatToString(k + 1), moduleGraph[k].0)
    ensures edges == FlowEdges(moduleGraph)
  {
    nodes := [];
    edges := [];
    var nodeId := 1;
    var i := 0;
    while i < |moduleGraph|
      invariant 0 <= i <= |moduleGraph|
      invariant nodeId == i + 1
      invariant |nodes| == i
      invariant forall k :: 0 <= k < i ==> nodes[k] == FlowNode(NatToString(k + 1), moduleGraph[k].0)
      invariant edges == FlowEdges(moduleGraph[..i])
    {
      var (moduleName, dependencies) := moduleGraph[i];
      nodes := nodes + [FlowNode(NatToString(nodeId), moduleName)];
      ghost var before := edges;
      var j := 0;
      while j < |dependencies|
        invariant 0 <= j <= |dependencies|
        invariant edges == before + Copies(EdgeFrom(nodeId), j)
      {
        var targetNodeId := NatToString(nodeId + 1);
        edges := edges + [FlowEdge("e" + NatToString(nodeId) + "-" + targetNodeId, NatToString(nodeId), targetNodeId)];
        CopiesSnoc(EdgeFrom(nodeId), j);
        j := j + 1;
      }
      FlowEdgesStep(moduleGraph, i);
      nodeId := nodeId + 1;
      i := i + 1;
    }
    assert moduleGraph[..i] == moduleGraph;
  }

  lemma FlowEdgesStep(g: seq<(ModuleName, seq<ModuleName>)>, i: nat)
    requires i < |g|
    ensures FlowEdges(g[..i + 1]) == FlowEdges(g[..i]) + Copies(EdgeFrom(i + 1), |g[i].1|)
  {
    assert g[..i + 1][..i] == g[..i];
  }

  /** There is one edge per listed dependency. */
  lemma {:induction false} EdgesWithCount(g: seq<(ModuleName, seq<ModuleName>)>, mk: nat -> FlowEdge)
    ensures |EdgesWith(g, mk)| == DependencyCount(g)
    decreases |g|
  {
    if g != [] {
      EdgesWithCount(g[..|g| - 1], mk);
    }
  }

  lemma FlowEdgesCount(g: seq<(ModuleName, seq<ModuleName>)>)
    ensures |FlowEdges(g)| == DependencyCount(g)
  {
    EdgesWithCount(g, EdgeFrom);
  }

  /** `e` is an edge of the module at position `k`, whose node id is k+1. */
  predicate EdgeOf(g: seq<(ModuleName, seq<ModuleName>)>, k: nat, mk: nat -> FlowEdge, e: FlowEdge) {
    k < |g| && |g[k].1| > 0 && e == mk(k + 1)
  }

  lemma {:induction false} EdgesWithMember(g: seq<(ModuleName, seq<ModuleName>)>, mk: nat -> FlowEdge, e: FlowEdge)
    ensures e in EdgesWith(g, mk) <==> exists k: nat :: EdgeOf(g, k, mk, e)
    decreases |g|
  {
    if g != [] {
      var n := |g| - 1;
      var p := g[..n];
      var block := Copies(mk(n + 1), |g[n].1|);
      EdgesWithMember(p, mk, e);
      if |g[n].1| > 0 {
        assert block[0] == mk(n + 1);
      }
      if exists k: nat :: EdgeOf(p, k, mk, e) {
        var k: nat :| EdgeOf(p, k, mk, e);
        assert g[k] == p[k];
        assert EdgeOf(g, k, mk, e);
      }
      if exists k: nat :: EdgeOf(g, k, mk, e) {
        var k: nat :| EdgeOf(g, k, mk, e);
        if k < n {
          assert p[k] == g[k];
          assert EdgeOf(p, k, mk, e);
        }
      }
      if e in block {
        assert EdgeOf(g, n, mk, e);
      }
    }
  }

  /** The edges are exactly, for every module at position k that lists a
      dependency, the edge from node k+1 to node k+2. */
  lemma FlowEdgesMember(g: seq<(ModuleName, seq<ModuleName>)>, e: FlowEdge)
    ensures e in FlowEdges(g) <==> exists k: nat :: k < |g| && |g[k].1| > 0 && e == EdgeFrom(k + 1)
  {
    EdgesWithMember(g, EdgeFrom, e);
    if exists k: nat :: EdgeOf(g, k, EdgeFrom, e) {
      var k: nat :| EdgeOf(g, k, EdgeFrom, e);
      assert k < |g| && |g[k].1| > 0 && e == EdgeFrom(k + 1);
    }
    if exists k: nat :: k < |g| && |g[k].1| > 0 && e == EdgeFrom(k + 1) {
      var k: nat :| k < |g| && |g[k].1| > 0 && e == EdgeFrom(k + 1);
      assert EdgeOf(g, k, EdgeFrom, e);
    }
  }

  /** `count` copies of `e`. */
  function Copies(e: FlowEdge, count: nat): (r: seq<FlowEdge>)
    ensures |r| == count
    ensures forall i :: 0 <= i < count ==> r[i] == e
  {
    seq(count, _ => e)
  }

  lemma CopiesSnoc(e: FlowEdge, count: nat)
    ensures Copies(e, count + 1) == Copies(e, count) + [e]
  {
  }

  /** Node ids are distinct. */
  lemma NodeIdsDistinct(moduleGraph: ModuleGraph, nodes: seq<FlowNode>)
    requires |nodes| == |moduleGraph|
    requires forall k :: 0 <= k < |nodes| ==> nodes[k] == FlowNode(NatToString(k + 1), moduleGraph[k].0)
    ensures forall a, b :: 0 <= a < b < |nodes| ==> nodes[a].id != nodes[b].id
  {
    forall a, b | 0 <= a < b < |nodes| ensures nodes[a].id != nodes[b].id {
      if nodes[a].id == nodes[b].id {
        NatToStringInjective(a + 1, b + 1);
      }
    }
  }

  /** An edge of the last module targets id n+1, which no node has. */
  lemma LastModuleEdgeDangles(moduleGraph: ModuleGraph, nodes: seq<FlowNode>)
    requires |moduleGraph| > 0 && |moduleGraph[|moduleGraph| - 1].1| > 0
    requires |nodes| == |moduleGraph|
    requires forall k :: 0 <= k < |nodes| ==> nodes[k] == FlowNode(NatToString(k + 1), moduleGraph[k].0)
    ensures EdgeFrom(|moduleGraph|) in FlowEdges(moduleGraph)
    ensures forall k :: 0 <= k < |nodes| ==> nodes[k].id != EdgeFrom(|moduleGraph|).target
  {
    FlowEdgesMember(moduleGraph, EdgeFrom(|moduleGraph|));
    assert |moduleGraph| - 1 < |moduleGraph| && EdgeFrom(|moduleGraph| - 1 + 1) == EdgeFrom(|moduleGraph|);
    forall k | 0 <= k < |nodes| ensures nodes[k].id != EdgeFrom(|moduleGraph|).target {
      if nodes[k].id == NatToString(|moduleGraph| + 1) {
        NatToStringInjective(k + 1, |moduleGraph| + 1);
      }
    }
  }

  /** A module with two or more dependencies pushes edges with the same id. */
  lemma RepeatedEdgeIds(g: seq<(ModuleName, seq<ModuleName>)>, k: nat)
    requires k < |g| && |g[k].1| >= 2
    ensures exists a, b :: 0 <= a < b < |FlowEdges(g)| && FlowEdges(g)[a].id == FlowEdges(g)[b].id
  {
    var p := g[..k + 1];
    FlowEdgesStep(g, k);
    FlowEdgesPrefix(g, k + 1);
    var start := |FlowEdges(g[..k])|;
    var block := Copies(EdgeFrom(k + 1), |g[k].1|);
    assert FlowEdges(p) == FlowEdges(g[..k]) + block;
    assert FlowEdges(g)[start] == block[0] && FlowEdges(g)[start + 1] == block[1];
  }

  /** The edges of a prefix of the graph begin the edges of the graph. */
  lemma {:induction false} FlowEdgesPrefix(g: seq<(ModuleName, seq<ModuleName>)>, i: nat)
    requires i <= |g|
    ensures FlowEdges(g[..i]) <= FlowEdges(g)
    decreases |g| - i
  {
    if i < |g| {
      FlowEdgesPrefix(g, i + 1);
      FlowEdgesStep(g, i);
    } else {
      assert g[..i] == g;
    }
  }
}
