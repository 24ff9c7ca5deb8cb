/**
 * The target graph: nodes keyed by build target, each with its rule type, its
 * declared and extra dependencies and its constructor argument. Incoming edges
 * are derived from the forward ones.
 */
module TargetGraphs {
  import opened Wrappers
  import opened Paths
  import opened Targets

  /** The description types the core tells apart. */
  datatype RuleType = AppleLibrary | AppleBinary | GraphQLData | OtherType(name: string)

  datatype SourcePath = PathSourcePath(path: Path) | BuildTargetSourcePath(target: Target)

  /** A GraphQL model's field values; their schema is not part of this model. */
  type Payload = map<string, string>

  datatype Arg =
    | NativeArg(perFileFlags: seq<(SourcePath, string)>, useBuckHeaderMaps: Option<bool>)
    | ModelArg(payload: Payload)
    | OtherArg

  datatype Node = Node(
    target: Target,
    ruleType: RuleType,
    declaredDeps: set<Target>,
    extraDeps: set<Target>,
    arg: Arg)

  type Graph = map<Target, Node>

  /** TargetNode.getDeps: declared and extra dependencies together. */
  function Deps(n: Node): set<Target> {
    n.declaredDeps + n.extraDeps
  }

  /** TargetGraph.getIncomingNodesFor: the nodes that depend on t. */
  function Incoming(g: Graph, t: Target): (r: set<Target>)
    ensures forall u :: u in r <==> u in g && t in Deps(g[u])
  {
    set u | u in g && t in Deps(g[u])
  }

  /** AppleLibraryDescription.TYPE or AppleBinaryDescription.TYPE. */
  predicate IsAppleNative(n: Node) {
    n.ruleType == AppleLibrary || n.ruleType == AppleBinary
  }

  predicate IsModel(n: Node) {
    n.ruleType == GraphQLData
  }
}
