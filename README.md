# Apple descriptions of the Buck build tool, in Dafny

This project models the part of Buck's Apple support that turns Apple
library and binary targets into derived build rules, and the
`SourceTreePath` value of its Xcode project writer:

- **Flavor dispatch.** A target flavored `compilation-database` gets a
  compilation database. A target flavored `headers` gets a symlink tree
  of its public headers. Any other target gets no flavored rule.
- **Public headers.** An entry's per-file flags are split on spaces,
  trimmed, and empty pieces are dropped. If one piece is exactly `public`,
  the header is linked under the last name of the target's base path.
- **GraphQL models.**
  - The transitive model index records each model against every library
    or binary that reaches it through libraries and binaries.
  - The models of each index entry are merged into one node with a
    synthesized target under `//buck/synthesized/ios`.
  - The target graph is cut down to what the models depend on, plus the
    merged models.
- **Compilation databases.** The visitor adds, for each library or binary,
  its header map or the root of its `headers` symlink tree to the include
  paths. It creates the `headers` rule in the resolver's index only if
  the rule is absent.
- **Small helpers.** `$SDKROOT` / `$DEVELOPER_DIR` path translation, and
  the path of a header map.
- **SourceTreePath.** Construction, equality, hash code and the absolute
  constructor.

Modules, one per file:

- `Wrappers`: Option and Result.
- `Ordering`: strict total orders, lexicographic order, sorting a set.
- `Paths`: `java.nio.file.Path` as a root flag and name elements.
- `Targets`: build targets, their names and their order.
- `TargetGraphs`: nodes, arguments, incoming edges.
- `BuildRules`: rule handles and the resolver's index.
- `HeaderRules`: flag parsing, the symlink tree and flavor dispatch.
- `ModelIndex`, `Enumerations`, `ModelMerge` and `Subgraph`: the GraphQL
  models.
- `CompilationDatabase`: the visitor.
- `SdkPaths`: path translation.
- `SourceTreePaths`: the `SourceTreePath` value.

Java code that works by mutation is modelled imperatively:

- `addAllTransitiveDependents`: a class with the index and visited set as
  fields.
- The compilation-database visitor: a class over the resolver object.
- The subgraph: a `MutableDirectedGraph` class.
- The fold and memo loops: methods with loop invariants.

Each of these is proved against a specification function, and the
properties are proved about that function.

Where a set is iterated (a `HashMap`, an `ImmutableSet` of unknown
insertion order, a traversal queue), the model picks an element with
`:|`. So every contract holds for every iteration order.

## Model

| member | source | states |
|---|---|---|
| Paths.FileName | src/com/facebook/buck/apple/AppleDescriptions.java:166 | The base path's file name is its last name element. An empty relative path is its own file name, and only a bare root has none. |
| Paths.Resolve | src/com/facebook/buck/apple/AppleDescriptions.java:176 | Resolving a relative name appends it to the prefix. An absolute one replaces the prefix. |
| Ordering.SortSet | src/com/facebook/buck/apple/AppleDescriptions.java:323-324 | `ImmutableSortedSet.copyOf` keeps each element once, in strictly ascending order, with exactly the input's members. |
| Ordering.StringLessIsStrictTotal | src/com/facebook/buck/apple/AppleDescriptions.java:323-324 | The order on names is irreflexive, transitive and total, so sorting is well defined. |
| Targets.KeyLessIsStrictTotal | src/com/facebook/buck/apple/AppleDescriptions.java:323-324 | The order of build targets is a strict total order on their (base name, short name, flavor postfix) keys. |
| Targets.KeyNameOfTarget | src/com/facebook/buck/apple/AppleDescriptions.java:336-337 | The fully qualified name is determined by the sort key, so equal keys give equal names. |
| TargetGraphs.Incoming | src/com/facebook/buck/apple/AppleDescriptions.java:264 | `getIncomingNodesFor(t)` holds exactly the nodes that list t among their deps. |
| BuildRules.RootOfSymlinksDirectory | src/com/facebook/buck/apple/AppleDescriptions.java:526-527 | A symlink tree's root is present exactly when it links at least one header, and is then the tree's root. |
| BuildRules.BuildRuleResolver.GetRuleOptional | src/com/facebook/buck/apple/AppleDescriptions.java:508 | The lookup finds a rule exactly when one is indexed under the target, and then it is that rule. |
| BuildRules.BuildRuleResolver.AddToIndex | src/com/facebook/buck/apple/AppleDescriptions.java:521 | `addToIndex` stores the rule under its own target and changes nothing else. |
| HeaderRules.SplitOnSpace | src/com/facebook/buck/apple/AppleDescriptions.java:169 | `Splitter.on(' ')` yields at least one piece, and no piece contains a space. |
| HeaderRules.JoinSplitOnSpace | src/com/facebook/buck/apple/AppleDescriptions.java:169 | Joining the pieces with spaces gives back the flags, so no character is lost. |
| HeaderRules.TrimLeading | src/com/facebook/buck/apple/AppleDescriptions.java:169 | Drops exactly a leading run of whitespace: the result is a suffix of the input and does not start with whitespace. |
| HeaderRules.TrimTrailing | src/com/facebook/buck/apple/AppleDescriptions.java:169 | Drops exactly a trailing run of whitespace: the result is a prefix of the input and does not end with whitespace. |
| HeaderRules.Trim | src/com/facebook/buck/apple/AppleDescriptions.java:169 | `trimResults` leaves a piece with no whitespace at either end. |
| HeaderRules.NonEmptyTrimmedMembers | src/com/facebook/buck/apple/AppleDescriptions.java:169 | A token survives `trimResults().omitEmptyStrings()` exactly when it is non-empty and is the trim of some piece. |
| HeaderRules.PublicFlagIffPiece | src/com/facebook/buck/apple/AppleDescriptions.java:171-173 | An entry is public exactly when some space-separated piece of its flags trims to `public`. |
| HeaderRules.SplitOnSpaceCons | src/com/facebook/buck/apple/AppleDescriptions.java:169 | A first word without spaces, a space, then the rest splits into that word followed by the rest's pieces. |
| HeaderRules.SplitOnSpaceSingle | src/com/facebook/buck/apple/AppleDescriptions.java:169 | A string without spaces is one piece. |
| HeaderRules.TrimKeeps | src/com/facebook/buck/apple/AppleDescriptions.java:169 | Trimming leaves a string unchanged exactly when it is empty or starts and ends with non-whitespace. |
| HeaderRules.PublicFlagAlone | src/com/facebook/buck/apple/AppleDescriptions.java:171-173 | The flags `public` select the header. |
| HeaderRules.PublicFlagAmongOthers | src/com/facebook/buck/apple/AppleDescriptions.java:171-173 | `public` as a word among other words selects the header. |
| HeaderRules.PublicFlagIsExact | src/com/facebook/buck/apple/AppleDescriptions.java:171-173 | Any longer space-free word that starts with `public` and does not end in whitespace (such as `publicity`) does not select the header: the match is exact. |
| HeaderRules.PathToHeaders | src/com/facebook/buck/apple/AppleDescriptions.java:145-147 | The headers directory is `buck-out/bin/<base path>/__<short name><flavor postfix>_public_headers__`, relative. |
| HeaderRules.HeaderPathPrefix | src/com/facebook/buck/apple/AppleDescriptions.java:166 | The prefix is the last name of the target's base path, or empty at the root cell. |
| HeaderRules.PublicHeadersDomain | src/com/facebook/buck/apple/AppleDescriptions.java:170-177 | A destination is linked exactly when some public entry's prefix/file name equals it. |
| HeaderRules.PublicHeadersLastWins | src/com/facebook/buck/apple/AppleDescriptions.java:170-177 | Each linked source is the last public entry with that destination: a later colliding entry overwrites an earlier one. |
| HeaderRules.CreateSymlinkTree | src/com/facebook/buck/apple/AppleDescriptions.java:149-186 | The symlink tree has the given target, no declared deps and the given extra deps. It is rooted at `buck-out/bin/.../__<name>_public_headers__`. With header maps it links nothing; otherwise it links exactly the public-header map. |
| HeaderRules.HeadersTarget | src/com/facebook/buck/apple/AppleDescriptions.java:120-126 | The headers target keeps base path and short name, and its only flavor is `headers`. |
| HeaderRules.CreateHeadersFlavor | src/com/facebook/buck/apple/AppleDescriptions.java:116-143 | The headers rule has the unflavored target plus `headers` and no declared deps. It links nothing when header maps are on; otherwise it links the public headers of the per-file flags. |
| HeaderRules.CreateFlavoredRule | src/com/facebook/buck/apple/AppleDescriptions.java:89-111 | `compilation-database` wins even with `headers`. `headers` alone gives the headers rule: the unflavored target plus `headers`, no declared deps, the caller's extra deps, rooted at that target's headers path, linking nothing under header maps and the public headers otherwise. Neither flavor gives absent, not an error. |
| ModelIndex.ModelIndexBuilder.constructor | src/com/facebook/buck/apple/AppleDescriptions.java:257-258 | The index and the visited set start empty. |
| ModelIndex.ModelIndexBuilder.StartModel | src/com/facebook/buck/apple/AppleDescriptions.java:263 | Each model starts with a fresh, empty visited set and keeps the index. |
| ModelIndex.ModelIndexBuilder.AddAllTransitiveDependents | src/com/facebook/buck/apple/AppleDescriptions.java:290-319 | The node is now visited, and the visited set only grows. Each newly visited node is reached from the model by a chain through libraries and binaries. Each newly visited library or binary has all its dependents visited. The model is added to the set of exactly the newly visited libraries and binaries. No node is expanded twice. |
| ModelIndex.GetTargetsToTransitiveModelDependencies | src/com/facebook/buck/apple/AppleDescriptions.java:250-288 | The result equals the index in which M is in N's set iff N is a library or binary reached from model M by a chain of incoming edges through libraries and binaries only. |
| ModelIndex.IndexKeysAreNative | src/com/facebook/buck/apple/AppleDescriptions.java:298-312 | Every key of the index is a library or binary, with a non-empty set of models. |
| ModelIndex.ChainEndVisited | src/com/facebook/buck/apple/AppleDescriptions.java:298-318 | A visited set closed under expanding libraries and binaries holds the end of every such chain from the model. |
| ModelIndex.IndexOverAt | src/com/facebook/buck/apple/AppleDescriptions.java:306-312 | A node has an entry exactly when some processed model reaches it, and the entry is the set of those models. |
| ModelIndex.ModelsOfAdd | src/com/facebook/buck/apple/AppleDescriptions.java:312 | Processing one more model adds it to exactly the sets of the nodes it reaches. |
| ModelIndex.IndexOverAddModel | src/com/facebook/buck/apple/AppleDescriptions.java:259-272 | Processing one more model records it against exactly the nodes it reaches and leaves other entries alone. |
| ModelIndex.ExtendChain | src/com/facebook/buck/apple/AppleDescriptions.java:314-318 | A dependent of a library or binary at the end of a chain extends that chain. |
| ModelIndex.RecordNothing | src/com/facebook/buck/apple/AppleDescriptions.java:298-303 | Recording against no node leaves the index unchanged. |
| ModelIndex.RecordCompose | src/com/facebook/buck/apple/AppleDescriptions.java:314-318 | Recording in two steps equals recording against both sets at once. |
| ModelIndex.NativeOfSplit | src/com/facebook/buck/apple/AppleDescriptions.java:298-303 | The libraries and binaries first visited in two consecutive steps are those first visited overall. |
| ModelMerge.ReplaceChar | src/com/facebook/buck/apple/AppleDescriptions.java:338-342 | `String.replace(char, char)` keeps the length and changes exactly the occurrences of the character. |
| ModelMerge.Sanitize | src/com/facebook/buck/apple/AppleDescriptions.java:338-342 | The five replacements map each of `/ . + space :` to `-` and keep every other character and the length. |
| ModelMerge.TargetsOf | src/com/facebook/buck/apple/AppleDescriptions.java:324 | `HasBuildTarget.TO_TARGET` takes each node's target, in order. |
| ModelMerge.MergedBuildTarget | src/com/facebook/buck/apple/AppleDescriptions.java:321-346 | The merged target's base path is `//buck/synthesized/ios` and it has no flavors. |
| ModelMerge.JoinChars | src/com/facebook/buck/apple/AppleDescriptions.java:328-331 | Every character of a join is from the separator or from one of the parts. |
| ModelMerge.SanitizedNamesAt | src/com/facebook/buck/apple/AppleDescriptions.java:332-343 | The i-th part of the merged name is the sanitised name of the i-th target in sorted order. |
| ModelMerge.SanitizedNamesLength | src/com/facebook/buck/apple/AppleDescriptions.java:332-343 | There is one part per distinct target. |
| ModelMerge.SanitizeRemoves | src/com/facebook/buck/apple/AppleDescriptions.java:338-342 | A sanitised name contains none of the five replaced characters. |
| ModelMerge.MergedNameChars | src/com/facebook/buck/apple/AppleDescriptions.java:328-343 | A name built from sanitised parts joined by `-` contains none of the five characters. |
| ModelMerge.MergedNameIsSanitized | src/com/facebook/buck/apple/AppleDescriptions.java:321-346 | A merged target's short name contains none of `/ . + space :`. |
| ModelMerge.MergedTargetIgnoresOrder | src/com/facebook/buck/apple/AppleDescriptions.java:323-324 | Inputs with the same members, in any order and with any repeats, give the same merged target. |
| ModelMerge.MergedNameOfOne | src/com/facebook/buck/apple/AppleDescriptions.java:321-346 | One model gives its sanitised fully qualified name. |
| ModelMerge.MergedNameOfTwo | src/com/facebook/buck/apple/AppleDescriptions.java:321-346 | Two models in either order give the smaller sanitised name, `-`, then the larger. |
| ModelMerge.Payloads | src/com/facebook/buck/apple/AppleDescriptions.java:426-427 | Each model's argument is taken in iteration order. |
| ModelMerge.FoldFromAccumulates | src/com/facebook/buck/apple/AppleDescriptions.java:420-434 | From any point, the fold succeeds iff each later argument is mergeable with the accumulator before it, and then yields the full accumulation. |
| ModelMerge.MergeSpecMeaning | src/com/facebook/buck/apple/AppleDescriptions.java:416-436 | An empty set fails the null check. The merge succeeds iff each later argument is mergeable with the accumulated merge of all earlier ones; the check is against the accumulator, not pairwise. The result is the first model with the accumulated argument and the target `getMergedBuildTarget(models)`. |
| ModelMerge.MergeGraphQLModels | src/com/facebook/buck/apple/AppleDescriptions.java:416-436 | The loop returns exactly the fold's result over the models in iteration order, including both failures. |
| Enumerations.Enumerate | src/com/facebook/buck/apple/AppleDescriptions.java:420 | Iterating a set visits each member exactly once. |
| ModelMerge.MergeGraphQLModelsByTarget | src/com/facebook/buck/apple/AppleDescriptions.java:348-372 | On success the result has exactly the input keys. Keys with equal model sets map to the identical merged node. Each node is the merge of its key's set in some iteration order. Each distinct set is merged exactly once. A failure comes from a set whose merge fails. |
| Subgraph.MutableDirectedGraph.constructor | src/com/facebook/buck/apple/AppleDescriptions.java:387 | The new graph has no nodes and no edges. |
| Subgraph.MutableDirectedGraph.AddNode | src/com/facebook/buck/apple/AppleDescriptions.java:397 | Adds the node, keeps the edges, and every edge stays between nodes of the graph. |
| Subgraph.MutableDirectedGraph.AddEdge | src/com/facebook/buck/apple/AppleDescriptions.java:399 | Adds the edge and both of its ends. |
| Subgraph.GetAll | src/com/facebook/buck/apple/AppleDescriptions.java:392-393 | `getAll` yields exactly the nodes of the targets, and fails on a target the graph lacks. |
| Subgraph.ModelNodes | src/com/facebook/buck/apple/AppleDescriptions.java:377-386 | The walk starts from exactly the GraphQL model nodes of the graph. |
| Subgraph.ReachStep | src/com/facebook/buck/apple/AppleDescriptions.java:392-395 | A dependency of a reached node is reached. |
| Subgraph.ModelsReachable | src/com/facebook/buck/apple/AppleDescriptions.java:389 | Every model node is reached. |
| Subgraph.PathEndExplored | src/com/facebook/buck/apple/AppleDescriptions.java:389-403 | A set with the models that is closed under dependencies holds the end of every dependency chain from a model. |
| Subgraph.ClosedHoldsReachable | src/com/facebook/buck/apple/AppleDescriptions.java:389-403 | Such a set holds every reachable node. |
| Subgraph.DepsOfOneMore | src/com/facebook/buck/apple/AppleDescriptions.java:397-400 | One more node adds exactly its dependency nodes and its edges to them. |
| Subgraph.AddWithEdges | src/com/facebook/buck/apple/AppleDescriptions.java:397-400 | The node, each dependency node, and an edge from the node to each of them are added. |
| Subgraph.WalkStart | src/com/facebook/buck/apple/AppleDescriptions.java:389 | The walk's invariant holds with every model queued. |
| Subgraph.WalkSkip | src/com/facebook/buck/apple/AppleDescriptions.java:389-403 | Dequeuing an already explored node keeps the invariant. |
| Subgraph.WalkExplore | src/com/facebook/buck/apple/AppleDescriptions.java:391-402 | Exploring a node and queuing its dependencies keeps the invariant. |
| Subgraph.WalkDone | src/com/facebook/buck/apple/AppleDescriptions.java:403 | When the queue empties, the explored nodes are exactly the reachable ones. |
| Subgraph.WalkFails | src/com/facebook/buck/apple/AppleDescriptions.java:392-393 | A reachable node with a missing dependency makes the walk fail. |
| Subgraph.VisitNode | src/com/facebook/buck/apple/AppleDescriptions.java:391-401 | A model adds nothing. Any other node is added with an edge to each dependency. |
| Subgraph.VisitFromModels | src/com/facebook/buck/apple/AppleDescriptions.java:389-403 | The walk fails iff some reachable node has a missing dependency. Otherwise the graph holds exactly the reachable non-model nodes, their dependencies and an edge from each such node to each dependency. |
| Subgraph.AddMergedModels | src/com/facebook/buck/apple/AppleDescriptions.java:405-411 | Each merged model is added with an edge to each dependency. This fails iff a dependency is missing or a dependency node's own target is not in the graph. |
| Subgraph.GetSubgraphWithMergedModels | src/com/facebook/buck/apple/AppleDescriptions.java:374-414 | Success iff every reachable node and merged model has its deps in the graph. The nodes are the reachable non-models, their deps, the merged models and their deps. The edges go from those non-models and merged models to each dep. Every edge joins two nodes. |
| Subgraph.UnmergedModelOnlyAsDependency | src/com/facebook/buck/apple/AppleDescriptions.java:394-396 | A model node that is not a merged model is in the new graph only as the dependency of a node that has an edge to it. |
| CompilationDatabase.HeaderMapPath | src/com/facebook/buck/apple/AppleDescriptions.java:549-552 | The header map is at `buck-out/gen/<base path>/<short name><suffix>`, whatever the target's flavors. |
| CompilationDatabase.GetPathToHeaderMap | src/com/facebook/buck/apple/AppleDescriptions.java:542-553 | Reading an absent setting fails. false gives absent. true gives the unflavored target's header map path. |
| CompilationDatabase.NativeNodes | src/com/facebook/buck/apple/AppleDescriptions.java:228-248 | Exactly the nodes of the given targets that are Apple libraries or binaries. A target without a node fails. |
| CompilationDatabase.StartNodes | src/com/facebook/buck/apple/AppleDescriptions.java:199-205 | The traversal starts from the declared deps and the target itself, keeping only libraries and binaries. |
| CompilationDatabase.AddPath | src/com/facebook/buck/apple/AppleDescriptions.java:494 | `ImmutableSet.Builder.add` appends a path only if it is new. |
| CompilationDatabase.HeadersTargetAgrees | src/com/facebook/buck/apple/AppleDescriptions.java:505-507 | For an unflavored node, the visitor's `headers` target is the one `createHeadersFlavor` builds. |
| CompilationDatabase.ExploreHeaderMapNode | src/com/facebook/buck/apple/AppleDescriptions.java:490-496 | A header-map node adds exactly one include path, its header map, and no dep or rule. |
| CompilationDatabase.ExploreFlavoredNode | src/com/facebook/buck/apple/AppleDescriptions.java:500-502 | A flavored node without header maps changes nothing. |
| CompilationDatabase.ExploreIsIdempotent | src/com/facebook/buck/apple/AppleDescriptions.java:508-522 | Creation is memoised: a second visit of a node creates no rule and adds nothing. |
| CompilationDatabase.ExploreOnlyAddsHeadersRule | src/com/facebook/buck/apple/AppleDescriptions.java:508-522 | Indexed rules are never replaced. At most the node's `headers` rule is added, with empty deps. |
| CompilationDatabase.AddPathKeepsDistinct | src/com/facebook/buck/apple/AppleDescriptions.java:467 | The include paths stay free of duplicates. |
| CompilationDatabase.ExploreKeepsInvariant | src/com/facebook/buck/apple/AppleDescriptions.java:487-533 | Each step keeps the invariant: include paths distinct, index keyed by target, each dep an indexed `headers` symlink tree whose root is present and is an include path. |
| CompilationDatabase.ExploreAllKeepsInvariant | src/com/facebook/buck/apple/AppleDescriptions.java:209 | The invariant holds after any exploration order. |
| CompilationDatabase.CompilationDatabaseTraversal.constructor | src/com/facebook/buck/apple/AppleDescriptions.java:470-477 | The traversal starts with no include paths and no deps. |
| CompilationDatabase.CompilationDatabaseTraversal.FindChildren | src/com/facebook/buck/apple/AppleDescriptions.java:479-485 | The children are exactly the declared deps that are libraries or binaries. A missing dep fails. |
| CompilationDatabase.CompilationDatabaseTraversal.OnNodeExplored | src/com/facebook/buck/apple/AppleDescriptions.java:487-533 | The new include paths, deps, index and error are those of the step specification. |
| CompilationDatabase.CompilationDatabaseTraversal.ExploreAll | src/com/facebook/buck/apple/AppleDescriptions.java:209 | Exploring an order in turn yields the specification's state, stopping at the first error. |
| SdkPaths.TranslateAppleSdkPaths | src/com/facebook/buck/apple/AppleDescriptions.java:555-567 | A relative path starting with `$SDKROOT` or `$DEVELOPER_DIR` has that name replaced by the SDK or developer path. A path that is only the variable fails in `subpath(1, 1)`. Any other path is unchanged. |
| SdkPaths.TranslateIsIdempotent | src/com/facebook/buck/apple/AppleDescriptions.java:555-567 | With absolute SDK and developer paths, translating a translated path changes nothing. |
| SourceTreePaths.New | src/com/facebook/buck/apple/xcode/xcodeproj/SourceTreePath.java:32-43 | The constructor rejects a null source tree or a null path, and the getters return exactly its arguments. |
| SourceTreePaths.Wrap | src/com/facebook/buck/apple/xcode/xcodeproj/SourceTreePath.java:45-47 | The hash arithmetic wraps to 32 bits and agrees with the exact value modulo 2^32. |
| SourceTreePaths.HashCode | src/com/facebook/buck/apple/xcode/xcodeproj/SourceTreePath.java:45-47 | `Objects.hash(sourceTree, path)`: the result is 31 * (31 + the source tree's hash) + the path's hash, taken modulo 2^32 as Java `int` arithmetic gives it. |
| SourceTreePaths.EqualsAsWritten | src/com/facebook/buck/apple/xcode/xcodeproj/SourceTreePath.java:49-57 | As written: false for null and other classes; otherwise true when either field matches. |
| SourceTreePaths.Equals | src/com/facebook/buck/apple/xcode/xcodeproj/SourceTreePath.java:24-26 | The corrected `equals` holds exactly when the other object is a SourceTreePath with both fields equal. |
| SourceTreePaths.EqualsAsWrittenReflexiveSymmetric | src/com/facebook/buck/apple/xcode/xcodeproj/SourceTreePath.java:54-56 | As written, `equals` is reflexive and symmetric. |
| SourceTreePaths.EqualsAsWrittenIsNotTupleEquality | src/com/facebook/buck/apple/xcode/xcodeproj/SourceTreePath.java:55-56 | As written, two different paths in the same tree compare equal. |
| SourceTreePaths.EqualsAsWrittenBreaksHashCode | src/com/facebook/buck/apple/xcode/xcodeproj/SourceTreePath.java:45-56 | As written, those two can have different hash codes (961 and 962). |
| SourceTreePaths.EqualsAsWrittenNotTransitive | src/com/facebook/buck/apple/xcode/xcodeproj/SourceTreePath.java:55-56 | As written, `equals` is not transitive. |
| SourceTreePaths.EqualsIsEquivalence | src/com/facebook/buck/apple/xcode/xcodeproj/SourceTreePath.java:24-26 | The corrected `equals` is reflexive, symmetric and transitive. |
| SourceTreePaths.EqualsAgreesWithHashCode | src/com/facebook/buck/apple/xcode/xcodeproj/SourceTreePath.java:45-47 | Under the corrected `equals`, equal values have equal hash codes for any field hashes. |
| SourceTreePaths.MakeAbsolute | src/com/facebook/buck/apple/xcode/xcodeproj/SourceTreePath.java:59-61 | `absolute(p)` is in the ABSOLUTE tree. Its path is absolute: p itself if already absolute, otherwise the working directory followed by p. |

## Left out

- Target names and output paths follow assumed formats, because `BuildTarget` and `BuildTargets` are not part of this model:
  - the fully qualified name is `//<base path>:<short name><flavor postfix>`;
  - the flavor postfix is `#` and the sorted flavors joined by `,`, or empty without flavors;
  - `getBinPath` and `getGenPath` give `buck-out/bin/<base path>/<format>` and `buck-out/gen/<base path>/<format>`.
  The merged model's name, `HeaderMapPath` and `PathToHeaders` depend on these formats.
- Targets carry no repository. The first argument of `ImmutableBuildTarget.of` (src/com/facebook/buck/apple/AppleDescriptions.java:325-326) is not modelled.
- The rule that the node's `createBuildRule` makes in the visitor is assumed to carry the headers target and no deps. Only its kind comes from a function parameter. `HeadersTargetAgrees` ties that target to the one `CreateHeadersFlavor` builds. `ExploreIsIdempotent` relies on the assumption.
- Rule construction is not modelled. `SymlinkTree`, `CompilationDatabase`, `BuildRuleParams.copyWithChanges/copyWithDeps` and `Description.createBuildRule` become rule handles. For the visitor, `createBuildRule` is a function parameter.
- A symlink tree's root is taken to be present iff the tree links a file. `SymlinkTree.getRootOfSymlinksDirectory` is not part of this model.
- `createCompilationDatabase` (src/com/facebook/buck/apple/AppleDescriptions.java:192-226) is modelled only by its start nodes and the visitor over a given exploration order. These are not modelled:
  - the depth-first post-order traversal and its cycle detection;
  - the `CompilationDatabase` constructor;
  - the wrapping of `CycleException`, `IOException` and `InterruptedException`.
- The breadth-first traversal is assumed to check its explored set on dequeue. `AbstractBreadthFirstTraversal` is not part of this model.
- `MutableDirectedGraph.addEdge` is assumed to add both ends as nodes. So a model node reached as a dependency ends up in the subgraph even though the walk never calls `addNode` on it. `MutableDirectedGraph` is not part of this model.
- Build target order: targets are assumed to be ordered by their base name, then short name, then flavor postfix. `BuildTarget.compareTo` is not part of this model.
- Characters are compared as Dafny code points rather than Java UTF-16 units. The two orders differ only for characters beyond the Basic Multilingual Plane.
- File names come from a function parameter. Resolving a source path (`SourcePathResolver.getPath`) and the file system are not modelled.
- The target's sources are assumed present. `args.srcs.get()` (src/com/facebook/buck/apple/AppleDescriptions.java:134) throws when they are absent, and the model has no `srcs` field.
- `TargetSources` and its per-file flags are an input sequence. Their sorted-map order is not re-derived.
- The working directory of `toAbsolutePath` is a parameter.
- `HeaderMapType.PUBLIC_HEADER_MAP.getSuffix()` is a parameter. Its value is not part of this model.
- `getUseBuckHeaderMaps()` is taken to read the setting with a default of false. Its body is not part of this model.
- GraphQL arguments are an abstract payload. `isMergeableWith` and `mergeWith` are function parameters.
- `copyGraphQLArg` (src/com/facebook/buck/apple/AppleDescriptions.java:438-459) copies every field, so it is the identity on the payload.
- `withConstructorArg` and `withBuildTarget` are taken to replace only the argument and the target. The merged node keeps the first model's type and deps.
- MergeGraphQLModelsByTarget: which order a set is merged in is left open. Java's hash order is not modelled, so the contract speaks of some iteration order.
- The enum's identity hash and `Path.hashCode` are function parameters of `hashCode`.
- `PBXReference.SourceTree` is not part of this model. Its six constants are listed by name only.
- `populateCxxConstructorArg` (src/com/facebook/buck/apple/AppleDescriptions.java:569-612) is not modelled. It fills a fixed-shape record.
- The exception types and message texts become error values.
- Mutation of the returned objects is not modelled.
- There is no concurrency in this code.

## Findings

| source | as written | input that shows it | evidently intended | confidence | as-written member | corrected member |
|---|---|---|---|---|---|---|
| src/com/facebook/buck/apple/xcode/xcodeproj/SourceTreePath.java:55-56 | `equals` joins the two field comparisons with `\|\|` | `(GROUP, a)` and `(GROUP, b)` with a ≠ b compare equal, yet their hash codes can differ. `(GROUP, a)`, `(GROUP, b)` and `(ABSOLUTE, b)` break transitivity. | `&&`: the tuple equality the class comment (src/com/facebook/buck/apple/xcode/xcodeproj/SourceTreePath.java:24-26) describes | high; not executed | SourceTreePaths.EqualsAsWritten | SourceTreePaths.Equals |
