/**
 * AppleDescriptions.getTargetsToTransitiveModelDependencies and
 * addAllTransitiveDependents: for every GraphQL model, a walk over incoming
 * edges that records the model against each Apple library or binary reached.
 * The walk passes through a library or binary and stops at anything else.
 */
module ModelIndex {
  import opened Targets
  import opened TargetGraphs

  /**
   * A chain of incoming edges that starts at model m: each node depends on the
   * one before it, and every node strictly between the two ends is an Apple
   * library or binary (the only nodes the walk expands).
   */
  ghost predicate IsRelayChain(g: Graph, m: Target, p: seq<Target>) {
    && |p| >= 2 && p[0] == m
    && (forall i :: 0 <= i < |p| ==> p[i] in g)
    && (forall i :: 0 <= i < |p| - 1 ==> p[i] in Deps(g[p[i + 1]]))
    && (forall i :: 1 <= i < |p| - 1 ==> IsAppleNative(g[p[i]]))
  }

  ghost predicate Relayed(g: Graph, m: Target, v: Target) {
    exists p :: IsRelayChain(g, m, p) && p[|p| - 1] == v
  }

  /** Library or binary n is recorded against model m. */
  ghost predicate DependsOnModel(g: Graph, m: Target, n: Target) {
    n in g && IsAppleNative(g[n]) && Relayed(g, m, n)
  }

  ghost function ModelTargets(g: Graph): set<Target> {
    set m | m in g && IsModel(g[m])
  }

  /** The nodes that model m is recorded against. */
  ghost function Reached(g: Graph, m: Target): set<Target> {
    set n | n in g && DependsOnModel(g, m, n)
  }

  /** The index that the models ms produce. */
  ghost function IndexOver(g: Graph, ms: set<Target>): map<Target, set<Target>> {
    map n | n in g && (exists m :: m in ms && DependsOnModel(g, m, n)) ::
      set m | m in ms && DependsOnModel(g, m, n)
  }

  /** What getTargetsToTransitiveModelDependencies returns. */
  ghost function TransitiveModelIndex(g: Graph): map<Target, set<Target>> {
    IndexOver(g, ModelTargets(g))
  }

  ghost function NativeOf(g: Graph, s: set<Target>): set<Target> {
    set v | v in s && v in g && IsAppleNative(g[v])
  }

  /** The index after model m is added to the set of every node of s. */
  ghost function Record(idx: map<Target, set<Target>>, s: set<Target>, m: Target): map<Target, set<Target>> {
    map k | k in idx.Keys + s :: if k in s then (if k in idx then idx[k] else {}) + {m} else idx[k]
  }

  lemma RecordNothing(idx: map<Target, set<Target>>, m: Target)
    ensures Record(idx, {}, m) == idx
  {
  }

  lemma RecordCompose(idx: map<Target, set<Target>>, a: set<Target>, b: set<Target>, m: Target)
    ensures Record(Record(idx, a, m), b, m) == Record(idx, a + b, m)
  {
  }

  /** Every key of the index is a library or binary, recorded against at least one model. */
  lemma {:induction false} IndexKeysAreNative(g: Graph, k: Target)
    requires k in TransitiveModelIndex(g)
    ensures k in g && IsAppleNative(g[k])
    ensures TransitiveModelIndex(g)[k] != {}
    ensures forall m :: m in TransitiveModelIndex(g)[k] ==> m in g && IsModel(g[m])
  {
    var m :| m in ModelTargets(g) && DependsOnModel(g, m, k);
    assert m in TransitiveModelIndex(g)[k];
  }

  /** A walk closed under expansion that covers m's direct dependents covers every chain from m. */
  lemma {:induction false} ChainEndVisited(g: Graph, m: Target, visited: set<Target>, p: seq<Target>)
    requires Incoming(g, m) <= visited
    requires forall v :: v in visited && v in g && IsAppleNative(g[v]) ==> Incoming(g, v) <= visited
    requires IsRelayChain(g, m, p)
    ensures p[|p| - 1] in visited
    decreases |p|
  {
    var last := p[|p| - 1];
    if |p| == 2 {
      assert last in Incoming(g, m);
    } else {
      var init := p[..|p| - 1];
      assert IsRelayChain(g, m, init);
      ChainEndVisited(g, m, visited, init);
      var prev := p[|p| - 2];
      assert IsAppleNative(g[prev]);
      assert last in Incoming(g, prev);
    }
  }

  /** The models among ms that n is recorded against. */
  ghost function ModelsOf(g: Graph, ms: set<Target>, n: Target): set<Target> {
    set m | m in ms && DependsOnModel(g, m, n)
  }

  lemma IndexOverAt(g: Graph, ms: set<Target>, n: Target)
    ensures n in IndexOver(g, ms) <==> n in g && ModelsOf(g, ms, n) != {}
    ensures n in IndexOver(g, ms) ==> IndexOver(g, ms)[n] == ModelsOf(g, ms, n)
  {
    if n in g && ModelsOf(g, ms, n) != {} {
      var m :| m in ModelsOf(g, ms, n);
      assert m in ms && DependsOnModel(g, m, n);
    }
    if n in IndexOver(g, ms) {
      var m :| m in ms && DependsOnModel(g, m, n);
      assert m in ModelsOf(g, ms, n);
    }
  }

  lemma ModelsOfAdd(g: Graph, ms: set<Target>, m: Target, n: Target)
    ensures ModelsOf(g, ms + {m}, n) == ModelsOf(g, ms, n) + (if n in Reached(g, m) then {m} else {})
  {
  }

  /** Adding one more model m to the processed ones records m against what it reaches. */
  lemma IndexOverAddModel(g: Graph, ms: set<Target>, m: Target)
    ensures IndexOver(g, ms + {m}) == Record(IndexOver(g, ms), Reached(g, m), m)
  {
    var lhs := IndexOver(g, ms + {m});
    var rhs := Record(IndexOver(g, ms), Reached(g, m), m);
    forall n ensures n in lhs <==> n in rhs {
      IndexOverAddModelAt(g, ms, m, n);
    }
    forall n | n in lhs ensures lhs[n] == rhs[n] {
      IndexOverAddModelAt(g, ms, m, n);
    }
  }

  /** The same, at one node n. */
  lemma IndexOverAddModelAt(g: Graph, ms: set<Target>, m: Target, n: Target)
    ensures n in IndexOver(g, ms + {m}) <==> n in Record(IndexOver(g, ms), Reached(g, m), m)
    ensures n in IndexOver(g, ms + {m}) ==>
      IndexOver(g, ms + {m})[n] == Record(IndexOver(g, ms), Reached(g, m), m)[n]
  {
    IndexOverAt(g, ms + {m}, n);
    IndexOverAt(g, ms, n);
    ModelsOfAdd(g, ms, m, n);
  }

  /** Extending a chain by one node that depends on its native last node. */
  lemma ExtendChain(g: Graph, m: Target, p: seq<Target>, d: Target)
    requires IsRelayChain(g, m, p) && IsAppleNative(g[p[|p| - 1]])
    requires d in Incoming(g, p[|p| - 1])
    ensures IsRelayChain(g, m, p + [d])
  {
    var q := p + [d];
    assert forall i :: 0 <= i < |p| ==> q[i] == p[i];
  }

  lemma NativeOfSplit(g: Graph, a: set<Target>, b: set<Target>, c: set<Target>)
    requires a <= b <= c
    ensures NativeOf(g, b - a) + NativeOf(g, c - b) == NativeOf(g, c - a)
  {
  }

  /**
   * Partway through the dependents of node in model's walk: the walk began at
   * visited0 and index0, every newly visited node is relayed from model,
   * every newly visited library or binary other than node has its
   * dependents visited, and the index records model against the newly
   * visited libraries and binaries.
   */
  ghost predicate Sweep(g: Graph, model: Target, node: Target, dependents: set<Target>,
                        visited0: set<Target>, visited: set<Target>,
                        index0: map<Target, set<Target>>, index: map<Target, set<Target>>)
  {
    && dependents <= Incoming(g, node)
    && visited0 <= visited <= g.Keys
    && Incoming(g, node) - dependents <= visited
    && (forall v :: v in visited - visited0 ==> Relayed(g, model, v))
    && (forall v :: v in visited - visited0 - {node} && IsAppleNative(g[v]) ==> Incoming(g, v) <= visited)
    && index == Record(index0, NativeOf(g, visited - visited0), model)
  }

  /** One dependent walked from before to after keeps the sweep going. */
  lemma SweepStep(g: Graph, model: Target, node: Target, dependents: set<Target>, dependent: Target,
                  visited0: set<Target>, before: set<Target>, after: set<Target>,
                  index0: map<Target, set<Target>>, indexBefore: map<Target, set<Target>>,
                  indexAfter: map<Target, set<Target>>)
    requires Sweep(g, model, node, dependents, visited0, before, index0, indexBefore)
    requires dependent in dependents
    requires before <= after <= g.Keys && dependent in after
    requires forall v :: v in after - before ==> Relayed(g, model, v)
    requires forall v :: v in after - before && IsAppleNative(g[v]) ==> Incoming(g, v) <= after
    requires indexAfter == Record(indexBefore, NativeOf(g, after - before), model)
    ensures Sweep(g, model, node, dependents - {dependent}, visited0, after, index0, indexAfter)
  {
    RecordCompose(index0, NativeOf(g, before - visited0), NativeOf(g, after - before), model);
    NativeOfSplit(g, visited0, before, after);
  }

  /** Expanding a library or binary at the end of a chain starts a sweep over its dependents. */
  lemma SweepStart(g: Graph, model: Target, node: Target, path: seq<Target>,
                   visited0: set<Target>, index0: map<Target, set<Target>>)
    requires visited0 <= g.Keys && node !in visited0
    requires IsRelayChain(g, model, path) && path[|path| - 1] == node && IsAppleNative(g[node])
    ensures Sweep(g, model, node, Incoming(g, node), visited0, visited0 + {node}, index0,
                  index0[node := (if node in index0 then index0[node] else {}) + {model}])
  {
    assert Relayed(g, model, node);
    assert NativeOf(g, visited0 + {node} - visited0) == {node};
  }

  /** A finished sweep below node closes every newly visited library or binary, node included. */
  lemma SweepFinished(g: Graph, model: Target, node: Target, visited0: set<Target>, visited: set<Target>,
                      index0: map<Target, set<Target>>, index: map<Target, set<Target>>)
    requires Sweep(g, model, node, {}, visited0, visited, index0, index)
    ensures forall v :: v in visited - visited0 && IsAppleNative(g[v]) ==> Incoming(g, v) <= visited
  {
  }

  /** A finished sweep from model m over a fresh visited set. */
  lemma SweepDone(g: Graph, m: Target, visited: set<Target>,
                  index0: map<Target, set<Target>>, index: map<Target, set<Target>>)
    requires m in g && IsModel(g[m])
    requires Sweep(g, m, m, {}, {}, visited, index0, index)
    ensures Incoming(g, m) <= visited
    ensures forall v :: v in visited && IsAppleNative(g[v]) ==> Incoming(g, v) <= visited
    ensures index == Record(index0, NativeOf(g, visited), m)
  {
    assert visited - {} == visited;
  }

  /** index is what the models among the processed nodes done produce. */
  ghost predicate Indexed(g: Graph, done: set<Target>, index: map<Target, set<Target>>) {
    index == IndexOver(g, ModelTargets(g) * done)
  }

  lemma IndexedNone(g: Graph)
    ensures Indexed(g, {}, map[])
  {
    assert ModelTargets(g) * {} == {};
  }

  /** A node that is not a model leaves the index as it is. */
  lemma IndexedSkip(g: Graph, done: set<Target>, n: Target, index: map<Target, set<Target>>)
    requires n in g && !IsModel(g[n]) && Indexed(g, done, index)
    ensures Indexed(g, done + {n}, index)
  {
    assert ModelTargets(g) * (done + {n}) == ModelTargets(g) * done;
  }

  lemma IndexedAll(g: Graph, done: set<Target>, index: map<Target, set<Target>>)
    requires done == g.Keys && Indexed(g, done, index)
    ensures index == TransitiveModelIndex(g)
  {
    assert ModelTargets(g) * done == ModelTargets(g);
  }

  /** The walk from model m starts with nothing visited and the index as it was. */
  lemma SweepBegin(g: Graph, m: Target, start: map<Target, set<Target>>)
    ensures Sweep(g, m, m, Incoming(g, m), {}, {}, start, start)
  {
    assert NativeOf(g, {} - {}) == {};
    RecordNothing(start, m);
  }

  /** A finished walk from model m adds m to the index of the models processed before it. */
  lemma AddModelToIndex(g: Graph, done: set<Target>, m: Target, visited: set<Target>,
                        start: map<Target, set<Target>>, index: map<Target, set<Target>>)
    requires m in g && IsModel(g[m])
    requires Indexed(g, done, start)
    requires Sweep(g, m, m, {}, {}, visited, start, index)
    ensures Indexed(g, done + {m}, index)
  {
    SweepDone(g, m, visited, start, index);
    assert NativeOf(g, visited) == Reached(g, m) by {
      forall n | n in Reached(g, m) ensures n in NativeOf(g, visited) {
        var p :| IsRelayChain(g, m, p) && p[|p| - 1] == n;
        ChainEndVisited(g, m, visited, p);
      }
    }
    IndexOverAddModel(g, ModelTargets(g) * done, m);
    assert ModelTargets(g) * (done + {m}) == ModelTargets(g) * done + {m};
  }

  /** The state of the walk: the index being filled and the current model's visited set. */
  class ModelIndexBuilder {
    const graph: Graph
    var index: map<Target, set<Target>>
    var visited: set<Target>
    /** The nodes whose dependents the current model's walk has expanded, in order. */
    ghost var expanded: seq<Target>

    /** Each node is expanded at most once per model. */
    ghost predicate Valid()
      reads this
    {
      && visited <= graph.Keys
      && (forall i :: 0 <= i < |expanded| ==> expanded[i] in visited)
      && (forall i, j :: 0 <= i < j < |expanded| ==> expanded[i] != expanded[j])
    }

    constructor (g: Graph)
      ensures graph == g && index == map[] && visited == {} && expanded == []
      ensures Valid()
    {
      graph := g;
      index := map[];
      visited := {};
      expanded := [];
    }

    /** A fresh visited set for the next model. */
    method StartModel()
      modifies this
      ensures visited == {} && expanded == [] && index == old(index)
      ensures Valid()
    {
      visited := {};
      expanded := [];
    }

    /**
     * AppleDescriptions.addAllTransitiveDependents: marks node visited; if it
     * is a library or binary, records model against it and walks on into
     * every node that depends on it.
     */
    method AddAllTransitiveDependents(node: Target, model: Target, ghost path: seq<Target>)
      requires Valid()
      requires IsRelayChain(graph, model, path) && path[|path| - 1] == node
      modifies this
      decreases graph.Keys - visited
      ensures Valid()
      ensures old(expanded) <= expanded
      ensures old(visited) <= visited && node in visited
      ensures forall v :: v in visited - old(visited) ==> Relayed(graph, model, v)
      ensures forall v :: v in visited - old(visited) && IsAppleNative(graph[v]) ==> Incoming(graph, v) <= visited
      ensures index == Record(old(index), NativeOf(graph, visited - old(visited)), model)
    {
      if node in visited {
        RecordNothing(index, model);
        return;
      }
      visited := visited + {node};
      assert Relayed(graph, model, node);
      if !IsAppleNative(graph[node]) {
        assert NativeOf(graph, visited - old(visited)) == {};
        RecordNothing(index, model);
        return;
      }
      expanded := expanded + [node];
      var models := if node in index then index[node] else {};
      SweepStart(graph, model, node, path, old(visited), index);
      index := index[node := models + {model}];
      var dependents := Incoming(graph, node);
      while dependents != {}
        invariant Valid() && node in visited && old(expanded) <= expanded
        invariant Sweep(graph, model, node, dependents, old(visited), visited, old(index), index)
        decreases dependents
      {
        var dependent :| dependent in dependents;
        ghost var before, indexBefore := visited, index;
        ExtendChain(graph, model, path, dependent);
        AddAllTransitiveDependents(dependent, model, path + [dependent]);
        SweepStep(graph, model, node, dependents, dependent, old(visited), before, visited,
                  old(index), indexBefore, index);
        dependents := dependents - {dependent};
      }
      SweepFinished(graph, model, node, old(visited), visited, old(index), index);
    }
  }

  /**
   * AppleDescriptions.getTargetsToTransitiveModelDependencies: model M is in
   * the set of N exactly when a chain of incoming edges leads from M to the
   * library or binary N through libraries and binaries only.
   */
  method GetTargetsToTransitiveModelDependencies(g: Graph) returns (r: map<Target, set<Target>>)
    ensures r == TransitiveModelIndex(g)
  {
    var builder := new ModelIndexBuilder(g);
    var nodes := g.Keys;
    ghost var done: set<Target> := {};
    IndexedNone(g);
    while nodes != {}
      invariant nodes + done == g.Keys && nodes !! done
      invariant builder.graph == g && builder.Valid()
      invariant Indexed(g, done, builder.index)
      decreases nodes
    {
      var node :| node in nodes;
      nodes := nodes - {node};
      if IsModel(g[node]) {
        builder.StartModel();
        ghost var start := builder.index;
        var dependents := Incoming(g, node);
        SweepBegin(g, node, start);
        while dependents != {}
          invariant builder.graph == g && builder.Valid()
          invariant Sweep(g, node, node, dependents, {}, builder.visited, start, builder.index)
          decreases dependents
        {
          var dependent :| dependent in dependents;
          ghost var before, indexBefore := builder.visited, builder.index;
          builder.AddAllTransitiveDependents(dependent, node, [node, dependent]);
          SweepStep(g, node, node, dependents, dependent, {}, before, builder.visited,
                    start, indexBefore, builder.index);
          dependents := dependents - {dependent};
        }
        AddModelToIndex(g, done, node, builder.visited, start, builder.index);
      } else {
        IndexedSkip(g, done, node, builder.index);
      }
      done := done + {node};
    }
    IndexedAll(g, done, builder.index);
    r := builder.index;
  }
}
