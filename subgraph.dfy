/**
 * AppleDescriptions.getSubgraphWithMergedModels: a breadth-first walk of
 * forward dependencies from every GraphQL model node that copies each
 * non-model node it meets, with its edges, into a new graph, followed by the
 * merged models and their edges.
 */
module Subgraph {
  import opened Wrappers
  import opened Enumerations
  import opened Targets
  import opened TargetGraphs

  /** A directed graph of target nodes that grows one node or edge at a time. */
  class MutableDirectedGraph {
    var nodes: set<Node>
    var edges: set<(Node, Node)>

    /** Both ends of every edge are nodes of the graph. */
    ghost predicate Valid()
      reads this
    {
      forall e :: e in edges ==> e.0 in nodes && e.1 in nodes
    }

    constructor ()
      ensures nodes == {} && edges == {} && Valid()
    {
      nodes := {};
      edges := {};
    }

    method AddNode(n: Node)
      requires Valid()
      modifies this
      ensures Valid()
      ensures nodes == old(nodes) + {n} && edges == old(edges)
    {
      nodes := nodes + {n};
    }

    /** Adding an edge also adds both of its ends. */
    method AddEdge(source: Node, sink: Node)
      requires Valid()
      modifies this
      ensures Valid()
      ensures nodes == old(nodes) + {source, sink} && edges == old(edges) + {(source, sink)}
    {
      nodes := nodes + {source, sink};
      edges := edges + {(source, sink)};
    }
  }

  datatype SubgraphError =
    | DanglingDependency  // a dependency that is not a node of the target graph
    | MissingNode         // a merged model's dependency whose own target is not in the graph

  /** TargetGraph.getAll: the nodes of the given targets; fails on a target the graph lacks. */
  function GetAll(g: Graph, ts: set<Target>): (r: Result<set<Node>, SubgraphError>)
    ensures r.Success? <==> ts <= g.Keys
    ensures r.Success? ==> forall n :: n in r.value <==> exists t :: t in ts && g[t] == n
  {
    if ts <= g.Keys then Success(set t | t in ts :: g[t]) else Failure(DanglingDependency)
  }

  /** The GraphQL model nodes of the graph: the walk's starting points. */
  function ModelNodes(g: Graph): (ms: set<Node>)
    ensures forall n :: n in ms <==> exists t :: t in g && IsModel(g[t]) && g[t] == n
  {
    set t | t in g && IsModel(g[t]) :: g[t]
  }

  /** A chain of forward dependencies that starts at a model. */
  ghost predicate IsDepPath(g: Graph, p: seq<Target>) {
    && |p| >= 1
    && (forall i :: 0 <= i < |p| ==> p[i] in g)
    && IsModel(g[p[0]])
    && (forall i :: 0 <= i < |p| - 1 ==> p[i + 1] in Deps(g[p[i]]))
  }

  /** The nodes that the walk from the models reaches. */
  ghost function ReachableNodes(g: Graph): set<Node> {
    set n | n in g.Values && exists p :: IsDepPath(g, p) && g[p[|p| - 1]] == n
  }

  ghost function NonModels(ns: set<Node>): set<Node> {
    set n | n in ns && !IsModel(n)
  }

  /** The nodes of the dependencies of ns that the graph has. */
  ghost function DepNodes(g: Graph, ns: set<Node>): set<Node> {
    set n, d | n in ns && d in Deps(n) && d in g :: g[d]
  }

  /** An edge from each node of ns to each of its dependencies that the graph has. */
  ghost function DepEdges(g: Graph, ns: set<Node>): set<(Node, Node)> {
    set n, d | n in ns && d in Deps(n) && d in g :: (n, g[d])
  }

  ghost predicate DepsPresent(g: Graph, ns: set<Node>) {
    forall n :: n in ns ==> Deps(n) <= g.Keys
  }

  /** Every dependency node of ns is stored under its own target. */
  ghost predicate DepNodesIndexed(g: Graph, ns: set<Node>) {
    forall n, d :: n in ns && d in Deps(n) && d in g ==> g[d].target in g
  }

  lemma ReachStep(g: Graph, n: Node, d: Target)
    requires n in ReachableNodes(g) && d in Deps(n) && d in g
    ensures g[d] in ReachableNodes(g)
  {
    var p :| IsDepPath(g, p) && g[p[|p| - 1]] == n;
    var q := p + [d];
    assert forall i :: 0 <= i < |p| ==> q[i] == p[i];
    assert IsDepPath(g, q);
  }

  lemma ModelsReachable(g: Graph)
    ensures ModelNodes(g) <= ReachableNodes(g)
  {
    forall n | n in ModelNodes(g) ensures n in ReachableNodes(g) {
      var t :| t in g && IsModel(g[t]) && g[t] == n;
      assert IsDepPath(g, [t]);
    }
  }

  lemma {:induction false} PathEndExplored(g: Graph, explored: set<Node>, p: seq<Target>)
    requires ModelNodes(g) <= explored
    requires forall n, d :: n in explored && d in Deps(n) ==> d in g && g[d] in explored
    requires IsDepPath(g, p)
    ensures g[p[|p| - 1]] in explored
    decreases |p|
  {
    if |p| == 1 {
      assert g[p[0]] in ModelNodes(g);
    } else {
      var init := p[..|p| - 1];
      assert IsDepPath(g, init);
      PathEndExplored(g, explored, init);
    }
  }

  /** A set that holds the models and is closed under dependencies holds every reachable node. */
  lemma ClosedHoldsReachable(g: Graph, explored: set<Node>)
    requires ModelNodes(g) <= explored
    requires forall n, d :: n in explored && d in Deps(n) ==> d in g && g[d] in explored
    ensures ReachableNodes(g) <= explored
  {
    forall n | n in ReachableNodes(g) ensures n in explored {
      var p :| IsDepPath(g, p) && g[p[|p| - 1]] == n;
      PathEndExplored(g, explored, p);
    }
  }

  lemma DepsOfOneMore(g: Graph, ns: set<Node>, n: Node, depNodes: set<Node>)
    requires Deps(n) <= g.Keys
    requires forall x :: x in depNodes <==> exists t :: t in Deps(n) && g[t] == x
    ensures DepNodes(g, ns + {n}) == DepNodes(g, ns) + depNodes
    ensures DepEdges(g, ns + {n}) == DepEdges(g, ns) + set x | x in depNodes :: (n, x)
  {
    forall x | x in depNodes ensures x in DepNodes(g, ns + {n}) && (n, x) in DepEdges(g, ns + {n}) {
      var t :| t in Deps(n) && g[t] == x;
    }
  }

  /** A node added with an edge to each of depNodes. */
  method AddWithEdges(subgraph: MutableDirectedGraph, node: Node, depNodes: set<Node>)
    requires subgraph.Valid()
    modifies subgraph
    ensures subgraph.Valid()
    ensures subgraph.nodes == old(subgraph.nodes) + {node} + depNodes
    ensures subgraph.edges == old(subgraph.edges) + set x | x in depNodes :: (node, x)
  {
    subgraph.AddNode(node);
    var rest := depNodes;
    while rest != {}
      invariant subgraph.Valid()
      invariant rest <= depNodes
      invariant subgraph.nodes == old(subgraph.nodes) + {node} + (depNodes - rest)
      invariant subgraph.edges == old(subgraph.edges) + set x | x in depNodes - rest :: (node, x)
      decreases rest
    {
      var dependency :| dependency in rest;
      subgraph.AddEdge(node, dependency);
      rest := rest - {dependency};
    }
  }

  /** What the walk knows between two steps: explored and queued nodes are reachable, and every
      model and every dependency of an explored node is explored or queued. */
  ghost predicate WalkInvariant(g: Graph, explored: set<Node>, queue: seq<Node>) {
    && explored <= ReachableNodes(g)
    && (forall i :: 0 <= i < |queue| ==> queue[i] in ReachableNodes(g))
    && (forall m :: m in ModelNodes(g) ==> m in explored || m in queue)
    && DepsPresent(g, explored)
    && (forall n, d :: n in explored && d in Deps(n) ==> g[d] in explored || g[d] in queue)
  }

  lemma WalkStart(g: Graph, queue: seq<Node>)
    requires forall x :: x in queue <==> x in ModelNodes(g)
    ensures WalkInvariant(g, {}, queue)
  {
    ModelsReachable(g);
  }

  /** Dequeuing a node that was already explored. */
  lemma WalkSkip(g: Graph, explored: set<Node>, queue: seq<Node>)
    requires queue != [] && queue[0] in explored
    requires WalkInvariant(g, explored, queue)
    ensures WalkInvariant(g, explored, queue[1..])
  {
    forall x | x in queue && x != queue[0] ensures x in queue[1..] {
      var i :| 0 <= i < |queue| && queue[i] == x;
      assert queue[1..][i - 1] == x;
    }
  }

  /** Exploring the dequeued node and enqueuing its dependencies. */
  lemma WalkExplore(g: Graph, explored: set<Node>, queue: seq<Node>, neighbours: seq<Node>)
    requires queue != [] && queue[0] !in explored
    requires WalkInvariant(g, explored, queue)
    requires Deps(queue[0]) <= g.Keys
    requires forall x :: x in neighbours <==> exists t :: t in Deps(queue[0]) && g[t] == x
    ensures WalkInvariant(g, explored + {queue[0]}, queue[1..] + neighbours)
  {
    var node := queue[0];
    var next := queue[1..] + neighbours;
    forall x | x in queue && x != node ensures x in next {
      var i :| 0 <= i < |queue| && queue[i] == x;
      assert queue[1..][i - 1] == x;
    }
    forall x | x in neighbours ensures x in next {
      var i :| 0 <= i < |neighbours| && neighbours[i] == x;
      assert next[|queue| - 1 + i] == x;
    }
    forall i | 0 <= i < |next| ensures next[i] in ReachableNodes(g) {
      if i >= |queue| - 1 {
        assert next[i] in neighbours;
        var t :| t in Deps(node) && g[t] == next[i];
        ReachStep(g, node, t);
      } else {
        assert next[i] == queue[i + 1];
      }
    }
  }

  /** With nothing left to visit, the walk has explored exactly the reachable nodes. */
  lemma WalkDone(g: Graph, explored: set<Node>)
    requires WalkInvariant(g, explored, [])
    ensures explored == ReachableNodes(g)
  {
    ClosedHoldsReachable(g, explored);
  }

  /** A reachable node with a dependency the graph lacks. */
  lemma WalkFails(g: Graph, node: Node)
    requires node in ReachableNodes(g) && !(Deps(node) <= g.Keys)
    ensures !DepsPresent(g, ReachableNodes(g))
  {
  }

  /** The subgraph holds the explored non-model nodes, their dependencies and the edges between. */
  ghost predicate Mirrors(g: Graph, explored: set<Node>, nodes: set<Node>, edges: set<(Node, Node)>) {
    && nodes == NonModels(explored) + DepNodes(g, NonModels(explored))
    && edges == DepEdges(g, NonModels(explored))
  }

  /** The node at the head of the queue is reachable, so a node of the graph. */
  lemma HeadIsReachable(g: Graph, explored: set<Node>, queue: seq<Node>)
    requires queue != [] && WalkInvariant(g, explored, queue)
    ensures queue[0] in ReachableNodes(g) && queue[0] in g.Values
  {
  }

  /** Exploring a node of the graph for the first time shrinks what is left to explore. */
  lemma ExploringShrinks(g: Graph, explored: set<Node>, node: Node)
    requires node in g.Values && node !in explored
    ensures |g.Values - (explored + {node})| < |g.Values - explored|
  {
    var left := g.Values - explored;
    assert g.Values - (explored + {node}) == left - {node};
    assert left == (left - {node}) + {node};
  }

  /** A node that is not a model, added with an edge to each of its dependencies. */
  method VisitNode(g: Graph, subgraph: MutableDirectedGraph, unmergedModels: set<Node>, node: Node,
                   dependencies: set<Node>, ghost explored: set<Node>)
    requires subgraph.Valid()
    requires unmergedModels == ModelNodes(g) && node in g.Values && Deps(node) <= g.Keys
    requires forall x :: x in dependencies <==> exists t :: t in Deps(node) && g[t] == x
    requires Mirrors(g, explored, subgraph.nodes, subgraph.edges)
    modifies subgraph
    ensures subgraph.Valid()
    ensures Mirrors(g, explored + {node}, subgraph.nodes, subgraph.edges)
  {
    if node in unmergedModels {
      assert NonModels(explored + {node}) == NonModels(explored);
      return;
    }
    assert !IsModel(node);
    DepsOfOneMore(g, NonModels(explored), node, dependencies);
    assert NonModels(explored + {node}) == NonModels(explored) + {node};
    AddWithEdges(subgraph, node, dependencies);
  }

  /**
   * The breadth-first walk from the models: each node is visited once, its
   * dependencies are enqueued, and a node that is not a model is added with
   * an edge to each dependency.
   */
  method VisitFromModels(g: Graph, subgraph: MutableDirectedGraph) returns (error: Option<SubgraphError>)
    requires subgraph.Valid() && subgraph.nodes == {} && subgraph.edges == {}
    modifies subgraph
    ensures subgraph.Valid()
    ensures error.None? <==> DepsPresent(g, ReachableNodes(g))
    ensures error.None? ==> Mirrors(g, ReachableNodes(g), subgraph.nodes, subgraph.edges)
  {
    var unmergedModels := ModelNodes(g);
    var queue := Enumerate(unmergedModels);
    var explored: set<Node> := {};
    WalkStart(g, queue);
    assert Mirrors(g, explored, subgraph.nodes, subgraph.edges);
    while queue != []
      invariant subgraph.Valid()
      invariant WalkInvariant(g, explored, queue)
      invariant Mirrors(g, explored, subgraph.nodes, subgraph.edges)
      decreases |g.Values - explored|, |queue|
    {
      var node := queue[0];
      if node in explored {
        WalkSkip(g, explored, queue);
        queue := queue[1..];
        continue;
      }
      HeadIsReachable(g, explored, queue);
      var dependencies := GetAll(g, Deps(node));
      if dependencies.Failure? {
        WalkFails(g, node);
        return Some(dependencies.error);
      }
      VisitNode(g, subgraph, unmergedModels, node, dependencies.value, explored);
      var neighbours := Enumerate(dependencies.value);
      WalkExplore(g, explored, queue, neighbours);
      ExploringShrinks(g, explored, node);
      explored := explored + {node};
      queue := queue[1..] + neighbours;
    }
    WalkDone(g, explored);
    return None;
  }

  /** The merged models in done are in the subgraph with their dependencies and edges. */
  ghost predicate Merging(g: Graph, done: set<Node>, nodes0: set<Node>, edges0: set<(Node, Node)>,
                          nodes: set<Node>, edges: set<(Node, Node)>)
  {
    && DepsPresent(g, done) && DepNodesIndexed(g, done)
    && nodes == nodes0 + done + DepNodes(g, done)
    && edges == edges0 + DepEdges(g, done)
  }

  lemma MergingStart(g: Graph, nodes0: set<Node>, edges0: set<(Node, Node)>)
    ensures Merging(g, {}, nodes0, edges0, nodes0, edges0)
  {
    assert DepNodes(g, {}) == {};
    assert DepEdges(g, {}) == {};
  }

  /** One more merged model whose dependencies are all present and indexed. */
  lemma MergingStep(g: Graph, done: set<Node>, m: Node, depNodes: set<Node>,
                    nodes0: set<Node>, edges0: set<(Node, Node)>, nodes: set<Node>, edges: set<(Node, Node)>)
    requires Merging(g, done, nodes0, edges0, nodes, edges)
    requires Deps(m) <= g.Keys
    requires forall x :: x in depNodes <==> exists t :: t in Deps(m) && g[t] == x
    requires forall x :: x in depNodes ==> x.target in g
    ensures Merging(g, done + {m}, nodes0, edges0, nodes + {m} + depNodes,
                    edges + set x | x in depNodes :: (m, x))
  {
    DepsOfOneMore(g, done, m, depNodes);
    forall n, d | n in done + {m} && d in Deps(n) && d in g ensures g[d].target in g {
      if n == m {
        assert g[d] in depNodes;
      }
    }
  }

  /** A merged model with a dependency missing, or stored under another target, fails the merge. */
  lemma MergingFails(g: Graph, mergedModels: set<Node>, m: Node)
    requires m in mergedModels
    requires !(Deps(m) <= g.Keys) ||
      (Deps(m) <= g.Keys && exists x :: x in GetAll(g, Deps(m)).value && x.target !in g)
    ensures !(DepsPresent(g, mergedModels) && DepNodesIndexed(g, mergedModels))
  {
    if Deps(m) <= g.Keys {
      var x :| x in GetAll(g, Deps(m)).value && x.target !in g;
      var t :| t in Deps(m) && g[t] == x;
    }
  }

  /** Each merged model is added with an edge to each of its dependencies, which must exist. */
  method AddMergedModels(g: Graph, subgraph: MutableDirectedGraph, mergedModels: set<Node>)
    returns (error: Option<SubgraphError>)
    requires subgraph.Valid()
    modifies subgraph
    ensures subgraph.Valid()
    ensures error.None? <==> DepsPresent(g, mergedModels) && DepNodesIndexed(g, mergedModels)
    ensures error.None? ==> subgraph.nodes == old(subgraph.nodes) + mergedModels + DepNodes(g, mergedModels)
    ensures error.None? ==> subgraph.edges == old(subgraph.edges) + DepEdges(g, mergedModels)
  {
    var rest := mergedModels;
    ghost var done: set<Node> := {};
    ghost var nodes0, edges0 := subgraph.nodes, subgraph.edges;
    MergingStart(g, nodes0, edges0);
    while rest != {}
      invariant subgraph.Valid()
      invariant rest + done == mergedModels && rest !! done
      invariant Merging(g, done, nodes0, edges0, subgraph.nodes, subgraph.edges)
      decreases rest
    {
      var mergedModel :| mergedModel in rest;
      var dependencies := GetAll(g, Deps(mergedModel));
      if dependencies.Failure? {
        MergingFails(g, mergedModels, mergedModel);
        return Some(dependencies.error);
      }
      if exists dependency :: dependency in dependencies.value && dependency.target !in g {
        MergingFails(g, mergedModels, mergedModel);
        return Some(MissingNode);
      }
      ghost var nodes, edges := subgraph.nodes, subgraph.edges;
      AddWithEdges(subgraph, mergedModel, dependencies.value);
      MergingStep(g, done, mergedModel, dependencies.value, nodes0, edges0, nodes, edges);
      rest := rest - {mergedModel};
      done := done + {mergedModel};
    }
    return None;
  }

  /**
   * AppleDescriptions.getSubgraphWithMergedModels: the nodes and edges of the
   * new graph. The walk succeeds exactly when every reachable node and every
   * merged model has all its dependencies in the graph.
   */
  method GetSubgraphWithMergedModels(g: Graph, mergedModels: set<Node>)
    returns (r: Result<(set<Node>, set<(Node, Node)>), SubgraphError>)
    ensures r.Success? <==>
      DepsPresent(g, ReachableNodes(g)) && DepsPresent(g, mergedModels) && DepNodesIndexed(g, mergedModels)
    ensures r.Success? ==>
      r.value.0 == NonModels(ReachableNodes(g)) + DepNodes(g, NonModels(ReachableNodes(g)))
                   + mergedModels + DepNodes(g, mergedModels)
    ensures r.Success? ==> r.value.1 == DepEdges(g, NonModels(ReachableNodes(g))) + DepEdges(g, mergedModels)
    ensures r.Success? ==> forall e :: e in r.value.1 ==> e.0 in r.value.0 && e.1 in r.value.0
  {
    var subgraph := new MutableDirectedGraph();
    var error := VisitFromModels(g, subgraph);
    assert error.None? ==> Mirrors(g, ReachableNodes(g), subgraph.nodes, subgraph.edges);
    if error.Some? {
      return Failure(error.value);
    }
    error := AddMergedModels(g, subgraph, mergedModels);
    if error.Some? {
      return Failure(error.value);
    }
    return Success((subgraph.nodes, subgraph.edges));
  }

  /**
   * The walk never adds a model node itself: a model that is not a merged
   * model is in the new graph only as the dependency of a node that is.
   */
  lemma UnmergedModelOnlyAsDependency(g: Graph, mergedModels: set<Node>, n: Node)
    requires n in NonModels(ReachableNodes(g)) + DepNodes(g, NonModels(ReachableNodes(g)))
               + mergedModels + DepNodes(g, mergedModels)
    requires IsModel(n) && n !in mergedModels
    ensures exists m :: (m, n) in DepEdges(g, NonModels(ReachableNodes(g))) + DepEdges(g, mergedModels)
  {
    var reached := NonModels(ReachableNodes(g));
    if n in DepNodes(g, reached) {
      var m, d :| m in reached && d in Deps(m) && d in g && g[d] == n;
      assert (m, g[d]) in DepEdges(g, reached);
    } else {
      var m, d :| m in mergedModels && d in Deps(m) && d in g && g[d] == n;
      assert (m, g[d]) in DepEdges(g, mergedModels);
    }
  }
}
