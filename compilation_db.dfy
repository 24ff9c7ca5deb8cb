/**
 * The visitor behind a target's compilation database
 * (AppleDescriptions.CompilationDatabaseTraversal): for every Apple library
 * or binary explored, it adds the directory of its public headers (or its
 * header map) to the include paths, creating and indexing the `headers` rule
 * on first use.
 */
module CompilationDatabase {
  import opened Wrappers
  import opened Paths
  import opened Targets
  import opened TargetGraphs
  import opened BuildRules
  import opened HeaderRules

  datatype HeaderMapError = AbsentUseBuckHeaderMaps  // Optional.get on an absent use_buck_header_maps

  /** BuildTargets.getGenPath of the unflavored target with the format "%s" + suffix. */
  function HeaderMapPath(t: Target, suffix: string): (p: Path)
    ensures p == Relative(["buck-out", "gen"] + t.basePath + [t.shortName + suffix])
  {
    var u := Unflavored(t);
    assert ShortNameAndFlavorPostfix(u) == t.shortName + "";
    assert "" + (t.shortName + "") + suffix == t.shortName + suffix;
    OutputPath("gen", u, "", suffix)
  }

  /**
   * AppleDescriptions.getPathToHeaderMap: the header map of the unflavored
   * target when use_buck_header_maps is true, none when it is false; reading
   * an absent setting fails.
   */
  function GetPathToHeaderMap(node: Node, suffix: string): (r: Result<Option<Path>, HeaderMapError>)
    requires node.arg.NativeArg?
    ensures r.Failure? <==> node.arg.useBuckHeaderMaps.None?
    ensures r == Success(None) <==> node.arg.useBuckHeaderMaps == Some(false)
    ensures r.Success? && r.value.Some? ==>
      r.value.value == Relative(["buck-out", "gen"] + node.target.basePath + [node.target.shortName + suffix])
  {
    match node.arg.useBuckHeaderMaps
    case None => Failure(AbsentUseBuckHeaderMaps)
    case Some(use) => if !use then Success(None) else Success(Some(HeaderMapPath(node.target, suffix)))
  }

  datatype TraversalError =
    | MissingNode      // a dependency without a node in the target graph
    | NotASymlinkTree  // the `headers` rule found in the index is not a symlink tree

  /** The nodes of the given targets that are Apple libraries or binaries; fails on a missing one. */
  function NativeNodes(g: Graph, ts: set<Target>): (r: Result<set<Node>, TraversalError>)
    ensures r.Success? <==> ts <= g.Keys
    ensures r.Success? ==> forall n :: n in r.value <==> exists t :: t in ts && g[t] == n && IsAppleNative(n)
  {
    if ts <= g.Keys then Success(set t | t in ts && IsAppleNative(g[t]) :: g[t]) else Failure(MissingNode)
  }

  /**
   * The nodes createCompilationDatabase starts the traversal from: the
   * declared dependencies and the target itself, Apple libraries and binaries only.
   */
  function StartNodes(g: Graph, params: RuleParams): (r: Result<set<Node>, TraversalError>)
    ensures r.Success? <==> params.declaredDeps + {params.target} <= g.Keys
    ensures r.Success? ==> forall n :: n in r.value <==>
      exists t :: t in params.declaredDeps + {params.target} && g[t] == n && IsAppleNative(n)
  {
    NativeNodes(g, params.declaredDeps + {params.target})
  }

  /** ImmutableSet.Builder.add: a path already collected is not added again. */
  function AddPath(paths: seq<Path>, p: Path): (r: seq<Path>)
    ensures forall q :: q in r <==> q in paths || q == p
    ensures p in paths ==> r == paths
    ensures p !in paths ==> r == paths + [p]
  {
    if p in paths then paths else paths + [p]
  }

  /** The include paths and rule deps collected so far, with the resolver's index. */
  datatype TraversalState = TraversalState(includePaths: seq<Path>, deps: set<Rule>, index: map<Target, Rule>)

  datatype Explored = Explored(state: TraversalState, error: Option<TraversalError>)

  /**
   * What onNodeExplored does to the state. createRule stands for the node's
   * Description.createBuildRule, called for the `headers` target with no deps.
   */
  function ExploreSpec(s: TraversalState, node: Node, suffix: string, createRule: (Target, Node) -> RuleKind): Explored
    requires node.arg.NativeArg?
  {
    if node.arg.useBuckHeaderMaps.GetOr(false) then
      Explored(s.(includePaths := AddPath(s.includePaths, HeaderMapPath(node.target, suffix))), None)
    else if IsFlavored(node.target) then
      Explored(s, None)
    else
      var targetForHeaders := WithFlavor(node.target, HEADERS);
      var rule := if targetForHeaders in s.index then s.index[targetForHeaders]
                  else Rule(targetForHeaders, {}, {}, createRule(targetForHeaders, node));
      var indexed := s.(index := s.index[targetForHeaders := rule]);
      if !rule.kind.SymlinkTree? then Explored(indexed, Some(NotASymlinkTree))
      else match RootOfSymlinksDirectory(rule)
        case None => Explored(indexed, None)
        case Some(root) => Explored(indexed.(includePaths := AddPath(s.includePaths, root), deps := s.deps + {rule}), None)
  }

  /** The `headers` target the visitor asks for is the one createHeadersFlavor builds. */
  lemma HeadersTargetAgrees(t: Target)
    requires !IsFlavored(t)
    ensures WithFlavor(t, HEADERS) == HeadersTarget(t)
  {
  }

  /** A header-map node adds exactly its header map to the include paths, and no dep. */
  lemma ExploreHeaderMapNode(s: TraversalState, node: Node, suffix: string, createRule: (Target, Node) -> RuleKind)
    requires node.arg.NativeArg? && node.arg.useBuckHeaderMaps == Some(true)
    ensures var r := ExploreSpec(s, node, suffix, createRule);
      && r.error.None? && r.state.deps == s.deps && r.state.index == s.index
      && r.state.includePaths[..|s.includePaths|] == s.includePaths
      && (forall q :: q in r.state.includePaths <==> q in s.includePaths || Success(Some(q)) == GetPathToHeaderMap(node, suffix))
  {
  }

  /** A flavored node without header maps changes nothing. */
  lemma ExploreFlavoredNode(s: TraversalState, node: Node, suffix: string, createRule: (Target, Node) -> RuleKind)
    requires node.arg.NativeArg? && node.arg.useBuckHeaderMaps != Some(true) && IsFlavored(node.target)
    ensures ExploreSpec(s, node, suffix, createRule) == Explored(s, None)
  {
  }

  /**
   * Creation is memoised: exploring a node a second time creates no rule and
   * adds nothing.
   */
  lemma ExploreIsIdempotent(s: TraversalState, node: Node, suffix: string, createRule: (Target, Node) -> RuleKind)
    requires node.arg.NativeArg?
    ensures ExploreSpec(ExploreSpec(s, node, suffix, createRule).state, node, suffix, createRule)
         == ExploreSpec(s, node, suffix, createRule)
  {
  }

  /** Rules already indexed are never replaced, and at most the node's `headers` rule is added. */
  lemma ExploreOnlyAddsHeadersRule(s: TraversalState, node: Node, suffix: string, createRule: (Target, Node) -> RuleKind)
    requires node.arg.NativeArg?
    ensures var r := ExploreSpec(s, node, suffix, createRule);
      && (forall k :: k in s.index ==> k in r.state.index && r.state.index[k] == s.index[k])
      && r.state.index.Keys <= s.index.Keys + {HeadersTarget(node.target)}
      && (r.state.index.Keys != s.index.Keys ==>
            !IsFlavored(node.target) && r.state.index[HeadersTarget(node.target)].declaredDeps == {}
            && r.state.index[HeadersTarget(node.target)].extraDeps == {})
  {
  }

  /**
   * Every rule dep is a `headers` symlink tree with a root, indexed under its
   * target, whose root is an include path; include paths are distinct.
   */
  ghost predicate TraversalInvariant(s: TraversalState) {
    && (forall i, j :: 0 <= i < j < |s.includePaths| ==> s.includePaths[i] != s.includePaths[j])
    && (forall k :: k in s.index ==> s.index[k].target == k)
    && (forall r :: r in s.deps ==>
          && r.kind.SymlinkTree? && r.kind.links != map[] && r.kind.root in s.includePaths
          && r.target in s.index && s.index[r.target] == r && HEADERS in r.target.flavors)
  }

  lemma AddPathKeepsDistinct(paths: seq<Path>, p: Path)
    requires forall i, j :: 0 <= i < j < |paths| ==> paths[i] != paths[j]
    ensures var r := AddPath(paths, p); forall i, j :: 0 <= i < j < |r| ==> r[i] != r[j]
  {
  }

  lemma ExploreKeepsInvariant(s: TraversalState, node: Node, suffix: string, createRule: (Target, Node) -> RuleKind)
    requires node.arg.NativeArg? && TraversalInvariant(s)
    ensures TraversalInvariant(ExploreSpec(s, node, suffix, createRule).state)
  {
    var r := ExploreSpec(s, node, suffix, createRule);
    if node.arg.useBuckHeaderMaps.GetOr(false) {
      AddPathKeepsDistinct(s.includePaths, HeaderMapPath(node.target, suffix));
    } else if !IsFlavored(node.target) {
      var targetForHeaders := WithFlavor(node.target, HEADERS);
      var rule := r.state.index[targetForHeaders];
      if rule.kind.SymlinkTree? && rule.kind.links != map[] {
        AddPathKeepsDistinct(s.includePaths, rule.kind.root);
      }
    }
  }

  /** onNodeExplored over a whole exploration order, stopping at the first error. */
  function ExploreAllSpec(s: TraversalState, order: seq<Node>, suffix: string,
                          createRule: (Target, Node) -> RuleKind): Explored
    requires forall i :: 0 <= i < |order| ==> order[i].arg.NativeArg?
    decreases |order|
  {
    if order == [] then Explored(s, None)
    else
      var e := ExploreSpec(s, order[0], suffix, createRule);
      if e.error.Some? then e else ExploreAllSpec(e.state, order[1..], suffix, createRule)
  }

  /** The invariant holds after any exploration order, so every dep gives an include path. */
  lemma {:induction false} ExploreAllKeepsInvariant(s: TraversalState, order: seq<Node>, suffix: string,
                                                    createRule: (Target, Node) -> RuleKind)
    requires forall i :: 0 <= i < |order| ==> order[i].arg.NativeArg?
    requires TraversalInvariant(s)
    ensures TraversalInvariant(ExploreAllSpec(s, order, suffix, createRule).state)
    decreases |order|
  {
    if order != [] {
      ExploreKeepsInvariant(s, order[0], suffix, createRule);
      var e := ExploreSpec(s, order[0], suffix, createRule);
      if e.error.None? {
        ExploreAllKeepsInvariant(e.state, order[1..], suffix, createRule);
      }
    }
  }

  /** The traversal's accumulators, over the resolver it shares with the build. */
  class CompilationDatabaseTraversal {
    const targetGraph: Graph
    const resolver: BuildRuleResolver
    var includePaths: seq<Path>
    var deps: set<Rule>

    function State(): TraversalState
      reads this, resolver
    {
      TraversalState(includePaths, deps, resolver.index)
    }

    constructor (g: Graph, r: BuildRuleResolver)
      ensures targetGraph == g && resolver == r
      ensures includePaths == [] && deps == {}
    {
      targetGraph := g;
      resolver := r;
      includePaths := [];
      deps := {};
    }

    /** CompilationDatabaseTraversal.findChildren: the declared deps that are Apple libraries or binaries. */
    function FindChildren(node: Node): (r: Result<set<Node>, TraversalError>)
      ensures r.Success? <==> node.declaredDeps <= targetGraph.Keys
      ensures r.Success? ==> forall n :: n in r.value ==> n in targetGraph.Values && IsAppleNative(n)
      ensures r.Success? ==>
        forall n :: n in r.value <==> exists t :: t in node.declaredDeps && targetGraph[t] == n && IsAppleNative(n)
    {
      NativeNodes(targetGraph, node.declaredDeps)
    }

    /** CompilationDatabaseTraversal.onNodeExplored. */
    method OnNodeExplored(node: Node, suffix: string, createRule: (Target, Node) -> RuleKind)
      returns (error: Option<TraversalError>)
      requires node.arg.NativeArg?
      modifies this, resolver
      ensures State() == ExploreSpec(old(State()), node, suffix, createRule).state
      ensures error == ExploreSpec(old(State()), node, suffix, createRule).error
    {
      if node.arg.useBuckHeaderMaps.GetOr(false) {
        var headerMap := GetPathToHeaderMap(node, suffix);
        includePaths := AddPath(includePaths, headerMap.value.value);
        return None;
      }
      var buildTarget := node.target;
      if IsFlavored(buildTarget) {
        return None;
      }
      var targetForHeaders := WithFlavor(buildTarget, HEADERS);
      var buildRule := resolver.GetRuleOptional(targetForHeaders);
      if buildRule.None? {
        var newBuildRule := Rule(targetForHeaders, {}, {}, createRule(targetForHeaders, node));
        resolver.AddToIndex(newBuildRule);
        buildRule := Some(newBuildRule);
      } else {
        assert resolver.index == resolver.index[targetForHeaders := buildRule.value];
      }
      var headersRule := buildRule.value;
      if !headersRule.kind.SymlinkTree? {
        return Some(NotASymlinkTree);
      }
      var headersDirectory := RootOfSymlinksDirectory(headersRule);
      if headersDirectory.Some? {
        includePaths := AddPath(includePaths, headersDirectory.value);
        deps := deps + {headersRule};
      }
      return None;
    }

    /**
     * The traversal's calls of onNodeExplored, in the exploration order the
     * depth-first post-order walk produces.
     */
    method ExploreAll(order: seq<Node>, suffix: string, createRule: (Target, Node) -> RuleKind)
      returns (error: Option<TraversalError>)
      requires forall i :: 0 <= i < |order| ==> order[i].arg.NativeArg?
      modifies this, resolver
      ensures State() == ExploreAllSpec(old(State()), order, suffix, createRule).state
      ensures error == ExploreAllSpec(old(State()), order, suffix, createRule).error
    {
      var i := 0;
      while i < |order|
        invariant 0 <= i <= |order|
        invariant ExploreAllSpec(State(), order[i..], suffix, createRule)
               == ExploreAllSpec(old(State()), order, suffix, createRule)
      {
        assert order[i..][0] == order[i] && order[i..][1..] == order[i + 1..];
        error := OnNodeExplored(order[i], suffix, createRule);
        if error.Some? {
          return;
        }
        i := i + 1;
      }
      return None;
    }
  }
}
