/**
 * Merging GraphQL models: the synthesized target of a merged model
 * (AppleDescriptions.getMergedBuildTarget), the fold that merges one set of
 * models into a node (mergeGraphQLModels(Set)) and the memoised merge of every
 * set in the transitive model index (mergeGraphQLModels(Map)).
 */
module ModelMerge {
  import opened Wrappers
  import opened Ordering
  import opened Enumerations
  import opened Targets
  import opened TargetGraphs

  /** The base path "//buck/synthesized/ios" of every merged model. */
  const MERGED_BASE_PATH: seq<string> := ["buck", "synthesized", "ios"]

  /** The five characters that a merged name replaces by '-'. */
  predicate IsReplacedChar(c: char) {
    c == '/' || c == '.' || c == '+' || c == ' ' || c == ':'
  }

  /** String.replace(char, char): every occurrence of from becomes to. */
  function ReplaceChar(s: string, from: char, to: char): (r: string)
    ensures |r| == |s|
    ensures forall i :: 0 <= i < |s| ==> r[i] == (if s[i] == from then to else s[i])
  {
    if s == [] then []
    else [if s[0] == from then to else s[0]] + ReplaceChar(s[1..], from, to)
  }

  /** The chain of five replacements, one per character. */
  function Sanitize(s: string): (r: string)
    ensures |r| == |s|
    ensures forall i :: 0 <= i < |s| ==> r[i] == (if IsReplacedChar(s[i]) then '-' else s[i])
  {
    ReplaceChar(ReplaceChar(ReplaceChar(ReplaceChar(ReplaceChar(s, '/', '-'), '.', '-'), '+', '-'), ' ', '-'), ':', '-')
  }

  function SanitizedNames(ks: seq<SortKey>): seq<string> {
    if ks == [] then [] else [Sanitize(KeyName(ks[0]))] + SanitizedNames(ks[1..])
  }

  /** The targets of the given nodes, in order. */
  function TargetsOf(ns: seq<Node>): (ts: seq<Target>)
    ensures |ts| == |ns| && forall i :: 0 <= i < |ns| ==> ts[i] == ns[i].target
  {
    if ns == [] then [] else [ns[0].target] + TargetsOf(ns[1..])
  }

  /**
   * AppleDescriptions.getMergedBuildTarget: the targets sorted into a set,
   * each fully qualified name sanitised, joined by '-'.
   */
  function MergedBuildTarget(ts: seq<Target>): (t: Target)
    ensures t.basePath == MERGED_BASE_PATH && t.flavors == {}
  {
    KeyLessIsStrictTotal();
    Target(MERGED_BASE_PATH, MergedName(SortSet(set x | x in ts :: KeyOf(x), KeyLess)), {})
  }

  function MergedName(keys: seq<SortKey>): string {
    Join("-", SanitizedNames(keys))
  }

  lemma {:induction false} JoinChars(sep: string, parts: seq<string>, c: char)
    requires c in Join(sep, parts)
    ensures c in sep || exists i :: 0 <= i < |parts| && c in parts[i]
    decreases |parts|
  {
    if |parts| > 1 {
      var rest := Join(sep, parts[1..]);
      assert Join(sep, parts) == parts[0] + sep + rest;
      if c !in parts[0] && c !in sep {
        JoinChars(sep, parts[1..], c);
        if c !in sep {
          var i :| 0 <= i < |parts[1..]| && c in parts[1..][i];
          assert c in parts[i + 1];
        }
      }
    }
  }

  lemma {:induction false} SanitizedNamesAt(ks: seq<SortKey>, i: int)
    requires 0 <= i < |ks|
    ensures |SanitizedNames(ks)| == |ks|
    ensures SanitizedNames(ks)[i] == Sanitize(KeyName(ks[i]))
    decreases |ks|
  {
    if i == 0 {
      SanitizedNamesLength(ks);
    } else {
      SanitizedNamesAt(ks[1..], i - 1);
    }
  }

  lemma {:induction false} SanitizedNamesLength(ks: seq<SortKey>)
    ensures |SanitizedNames(ks)| == |ks|
    decreases |ks|
  {
    if ks != [] {
      SanitizedNamesLength(ks[1..]);
    }
  }

  lemma SanitizeRemoves(s: string, c: char)
    requires c in Sanitize(s)
    ensures !IsReplacedChar(c)
  {
    var j :| 0 <= j < |Sanitize(s)| && Sanitize(s)[j] == c;
  }

  lemma MergedNameChars(keys: seq<SortKey>, c: char)
    requires c in MergedName(keys)
    ensures !IsReplacedChar(c)
  {
    var names := SanitizedNames(keys);
    SanitizedNamesLength(keys);
    JoinChars("-", names, c);
    if c !in "-" {
      var i :| 0 <= i < |names| && c in names[i];
      SanitizedNamesAt(keys, i);
      SanitizeRemoves(KeyName(keys[i]), c);
    }
  }

  /** A merged name holds none of the five replaced characters. */
  lemma MergedNameIsSanitized(ts: seq<Target>, c: char)
    requires c in MergedBuildTarget(ts).shortName
    ensures !IsReplacedChar(c)
  {
    KeyLessIsStrictTotal();
    MergedNameChars(SortSet(set x | x in ts :: KeyOf(x), KeyLess), c);
  }

  /** The merged target depends only on the set of targets: not on their order, nor on repeats. */
  lemma MergedTargetIgnoresOrder(a: seq<Target>, b: seq<Target>)
    requires forall x :: x in a <==> x in b
    ensures MergedBuildTarget(a) == MergedBuildTarget(b)
  {
    assert (set x | x in a :: KeyOf(x)) == (set x | x in b :: KeyOf(x));
  }

  /** One target: its sanitised fully qualified name. */
  lemma MergedNameOfOne(t: Target)
    ensures MergedBuildTarget([t]).shortName == Sanitize(FullyQualifiedName(t))
  {
    KeyLessIsStrictTotal();
    var keys := SortSet(set x | x in [t] :: KeyOf(x), KeyLess);
    assert (set x | x in [t] :: KeyOf(x)) == {KeyOf(t)};
    assert keys[0] in {KeyOf(t)};
    assert keys == [KeyOf(t)];
    assert SanitizedNames(keys) == [Sanitize(KeyName(KeyOf(t)))];
    assert MergedName(keys) == Sanitize(KeyName(KeyOf(t)));
    KeyNameOfTarget(t);
  }

  /** Two targets in either order: the smaller name first, '-' between. */
  lemma MergedNameOfTwo(t: Target, u: Target)
    requires KeyLess(KeyOf(t), KeyOf(u))
    ensures MergedBuildTarget([u, t]).shortName
         == Sanitize(FullyQualifiedName(t)) + "-" + Sanitize(FullyQualifiedName(u))
    ensures MergedBuildTarget([t, u]).shortName
         == Sanitize(FullyQualifiedName(t)) + "-" + Sanitize(FullyQualifiedName(u))
  {
    MergedNameOfPair(t, u);
    MergedTargetIgnoresOrder([t, u], [u, t]);
  }

  /** The larger target listed first; the order is sorted out by the key sort. */
  lemma MergedNameOfPair(t: Target, u: Target)
    requires KeyLess(KeyOf(t), KeyOf(u))
    ensures MergedBuildTarget([u, t]).shortName
         == Sanitize(FullyQualifiedName(t)) + "-" + Sanitize(FullyQualifiedName(u))
  {
    KeyLessIsStrictTotal();
    var s := set x | x in [u, t] :: KeyOf(x);
    assert s == {KeyOf(t), KeyOf(u)};
    var keys := SortSet(s, KeyLess);
    assert KeyOf(t) != KeyOf(u);
    assert |keys| == 2;
    assert keys[0] in s && keys[1] in s && KeyLess(keys[0], keys[1]);
    assert keys == [KeyOf(t), KeyOf(u)];
    KeyNameOfTarget(t);
    KeyNameOfTarget(u);
    SanitizedNamesLength(keys);
    assert SanitizedNames(keys) == [Sanitize(KeyName(keys[0])), Sanitize(KeyName(keys[1]))];
    var names := SanitizedNames(keys);
    assert |names| == 2;
    assert names[1..] == [names[1]];
    assert Join("-", names[1..]) == names[1];
    assert Join("-", names) == names[0] + "-" + Join("-", names[1..]);
  }

  // Folding a set of models into one node.

  datatype MergeError =
    | NullModel         // no model to merge: the null check fails
    | IncompatibleArgs  // the accumulated argument is not mergeable with the next one

  /** The model arguments of the nodes, in order. */
  function Payloads(models: seq<Node>): (ps: seq<Payload>)
    requires forall i :: 0 <= i < |models| ==> models[i].arg.ModelArg?
    ensures |ps| == |models| && forall i :: 0 <= i < |models| ==> ps[i] == models[i].arg.payload
  {
    if models == [] then [] else [models[0].arg.payload] + Payloads(models[1..])
  }

  /** The loop of mergeGraphQLModels(Set) from accumulator acc over the remaining arguments. */
  function FoldFrom(acc: Payload, rest: seq<Payload>, mergeable: (Payload, Payload) -> bool,
                    mergeWith: (Payload, Payload) -> Payload): Result<Payload, MergeError>
    decreases |rest|
  {
    if rest == [] then Success(acc)
    else if !mergeable(acc, rest[0]) then Failure(IncompatibleArgs)
    else FoldFrom(mergeWith(acc, rest[0]), rest[1..], mergeable, mergeWith)
  }

  /** The accumulator after the first n arguments are merged, checks aside. */
  function Accumulated(ps: seq<Payload>, n: nat, mergeWith: (Payload, Payload) -> Payload): Payload
    requires 1 <= n <= |ps|
  {
    if n == 1 then ps[0] else mergeWith(Accumulated(ps, n - 1, mergeWith), ps[n - 1])
  }

  /** What mergeGraphQLModels(Set) yields for the models in iteration order. */
  function MergeSpec(models: seq<Node>, mergeable: (Payload, Payload) -> bool,
                     mergeWith: (Payload, Payload) -> Payload): Result<Node, MergeError>
    requires forall i :: 0 <= i < |models| ==> models[i].arg.ModelArg?
  {
    if models == [] then Failure(NullModel)
    else
      var ps := Payloads(models);
      match FoldFrom(ps[0], ps[1..], mergeable, mergeWith)
      case Failure(e) => Failure(e)
      case Success(p) => Success(models[0].(arg := ModelArg(p), target := MergedBuildTarget(TargetsOf(models))))
  }

  lemma {:induction false} FoldFromAccumulates(ps: seq<Payload>, n: nat, mergeable: (Payload, Payload) -> bool,
                                              mergeWith: (Payload, Payload) -> Payload)
    requires 1 <= n <= |ps|
    ensures FoldFrom(Accumulated(ps, n, mergeWith), ps[n..], mergeable, mergeWith).Success?
        <==> forall i :: n <= i < |ps| ==> mergeable(Accumulated(ps, i, mergeWith), ps[i])
    ensures FoldFrom(Accumulated(ps, n, mergeWith), ps[n..], mergeable, mergeWith).Success? ==>
        FoldFrom(Accumulated(ps, n, mergeWith), ps[n..], mergeable, mergeWith).value == Accumulated(ps, |ps|, mergeWith)
    decreases |ps| - n
  {
    if n < |ps| {
      var acc := Accumulated(ps, n, mergeWith);
      assert ps[n..][0] == ps[n] && ps[n..][1..] == ps[n + 1..];
      if mergeable(acc, ps[n]) {
        FoldFromAccumulates(ps, n + 1, mergeable, mergeWith);
      }
    }
  }

  /**
   * Compatibility is checked against the running accumulator, not pairwise:
   * the merge succeeds exactly when there is a model and every later argument
   * is mergeable with the merge of all before it; the result is the first
   * model with the merged argument and the synthesized target.
   */
  lemma MergeSpecMeaning(models: seq<Node>, mergeable: (Payload, Payload) -> bool,
                         mergeWith: (Payload, Payload) -> Payload)
    requires forall i :: 0 <= i < |models| ==> models[i].arg.ModelArg?
    ensures models == [] ==> MergeSpec(models, mergeable, mergeWith) == Failure(NullModel)
    ensures MergeSpec(models, mergeable, mergeWith).Success? <==>
      models != [] && forall i :: 1 <= i < |models| ==>
        mergeable(Accumulated(Payloads(models), i, mergeWith), models[i].arg.payload)
    ensures MergeSpec(models, mergeable, mergeWith).Success? ==>
      MergeSpec(models, mergeable, mergeWith).value ==
        models[0].(arg := ModelArg(Accumulated(Payloads(models), |models|, mergeWith)),
                   target := MergedBuildTarget(TargetsOf(models)))
  {
    if models != [] {
      FoldFromAccumulates(Payloads(models), 1, mergeable, mergeWith);
    }
  }

  /** AppleDescriptions.mergeGraphQLModels(Set), over the set in its iteration order. */
  method MergeGraphQLModels(models: seq<Node>, mergeable: (Payload, Payload) -> bool,
                            mergeWith: (Payload, Payload) -> Payload) returns (r: Result<Node, MergeError>)
    requires forall i :: 0 <= i < |models| ==> models[i].arg.ModelArg?
    ensures r == MergeSpec(models, mergeable, mergeWith)
  {
    if |models| == 0 {
      return Failure(NullModel);
    }
    ghost var ps := Payloads(models);
    // copyGraphQLArg copies every field, so the first argument is taken as is.
    var merged := models[0];
    var i := 1;
    while i < |models|
      invariant 1 <= i <= |models|
      invariant merged == models[0].(arg := merged.arg) && merged.arg.ModelArg?
      invariant FoldFrom(merged.arg.payload, ps[i..], mergeable, mergeWith) == FoldFrom(ps[0], ps[1..], mergeable, mergeWith)
    {
      var mergedArg := merged.arg.payload;
      var nextArg := models[i].arg.payload;
      assert ps[i..][0] == nextArg && ps[i..][1..] == ps[i + 1..];
      if !mergeable(mergedArg, nextArg) {
        return Failure(IncompatibleArgs);
      }
      merged := merged.(arg := ModelArg(mergeWith(mergedArg, nextArg)));
      i := i + 1;
    }
    r := Success(merged.(target := MergedBuildTarget(TargetsOf(models))));
  }

  // The memoised merge of every model set of the index.

  ghost predicate AllModelArgs(index: map<Target, set<Node>>) {
    forall k, n :: k in index && n in index[k] ==> n.arg.ModelArg?
  }

  /** node is what merging the models of s yields in some iteration order. */
  ghost predicate IsMergeOf(node: Node, s: set<Node>, mergeable: (Payload, Payload) -> bool,
                            mergeWith: (Payload, Payload) -> Payload)
  {
    exists o: seq<Node> :: IsEnumeration(o, s) && (forall i :: 0 <= i < |o| ==> o[i].arg.ModelArg?) &&
      MergeSpec(o, mergeable, mergeWith) == Success(node)
  }

  /** Merging the models of s fails in some iteration order. */
  ghost predicate MayFail(s: set<Node>, mergeable: (Payload, Payload) -> bool,
                          mergeWith: (Payload, Payload) -> Payload)
  {
    exists o: seq<Node> :: IsEnumeration(o, s) && (forall i :: 0 <= i < |o| ==> o[i].arg.ModelArg?) &&
      MergeSpec(o, mergeable, mergeWith).Failure?
  }

  /** Each key done maps to the memoised node of its set. */
  ghost predicate MemoLookup(index: map<Target, set<Node>>, models: map<Target, Node>,
                             mergedNodes: map<set<Node>, Node>)
    requires models.Keys <= index.Keys
  {
    forall k :: k in models ==> index[k] in mergedNodes && models[k] == mergedNodes[index[k]]
  }

  lemma MemoLookupGrows(index: map<Target, set<Node>>, models: map<Target, Node>,
                        mergedNodes: map<set<Node>, Node>, key: Target, node: Node)
    requires models.Keys <= index.Keys && key in index && key !in models
    requires MemoLookup(index, models, mergedNodes) && index[key] !in mergedNodes
    ensures MemoLookup(index, models[key := node], mergedNodes[index[key] := node])
  {
    var models', mergedNodes' := models[key := node], mergedNodes[index[key] := node];
    forall k | k in models' ensures index[k] in mergedNodes' && models'[k] == mergedNodes'[index[k]] {
      if k != key {
        assert index[k] in mergedNodes;
      }
    }
  }

  /** Each memoised node is a merge of its set. */
  ghost predicate MemoSound(mergedNodes: map<set<Node>, Node>, mergeable: (Payload, Payload) -> bool,
                            mergeWith: (Payload, Payload) -> Payload)
  {
    forall s :: s in mergedNodes ==> IsMergeOf(mergedNodes[s], s, mergeable, mergeWith)
  }

  /** Each memoised set is the set of some key already done. */
  ghost predicate MemoUsed(index: map<Target, set<Node>>, models: map<Target, Node>,
                           mergedNodes: map<set<Node>, Node>)
    requires models.Keys <= index.Keys
  {
    forall s :: s in mergedNodes ==> exists k :: k in models && index[k] == s
  }

  /** merged lists the memoised sets, each once. */
  ghost predicate Listed(merged: seq<set<Node>>, mergedNodes: map<set<Node>, Node>) {
    && (forall s :: s in merged <==> s in mergedNodes)
    && (forall i, j :: 0 <= i < j < |merged| ==> merged[i] != merged[j])
  }

  /**
   * The memo after the keys outside `pending` are done: models holds those
   * keys, each mapped to the memo's node for its set.
   */
  ghost predicate Memoised(index: map<Target, set<Node>>, pending: set<Target>, models: map<Target, Node>,
                           mergedNodes: map<set<Node>, Node>, merged: seq<set<Node>>)
  {
    && pending <= index.Keys
    && models.Keys == index.Keys - pending
    && MemoLookup(index, models, mergedNodes)
    && MemoUsed(index, models, mergedNodes)
    && Listed(merged, mergedNodes)
  }

  lemma MemoUsedGrows(index: map<Target, set<Node>>, models: map<Target, Node>,
                      mergedNodes: map<set<Node>, Node>, key: Target, node: Node)
    requires models.Keys <= index.Keys && key in index
    requires MemoUsed(index, models, mergedNodes)
    ensures MemoUsed(index, models[key := node], mergedNodes)
    ensures MemoUsed(index, models[key := node], mergedNodes[index[key] := node])
  {
    var models' := models[key := node];
    var mergedNodes' := mergedNodes[index[key] := node];
    forall s | s in mergedNodes' ensures exists k :: k in models' && index[k] == s {
      if s != index[key] {
        var k :| k in models && index[k] == s;
        assert k in models';
      } else {
        assert key in models';
      }
    }
  }

  lemma MemoSoundGrows(mergedNodes: map<set<Node>, Node>, s: set<Node>, node: Node,
                       mergeable: (Payload, Payload) -> bool, mergeWith: (Payload, Payload) -> Payload)
    requires MemoSound(mergedNodes, mergeable, mergeWith) && IsMergeOf(node, s, mergeable, mergeWith)
    ensures MemoSound(mergedNodes[s := node], mergeable, mergeWith)
  {
  }

  lemma ListedGrows(merged: seq<set<Node>>, mergedNodes: map<set<Node>, Node>, s: set<Node>, node: Node)
    requires Listed(merged, mergedNodes) && s !in mergedNodes
    ensures Listed(merged + [s], mergedNodes[s := node])
  {
  }

  /** A key whose set is already merged takes the memoised node. */
  lemma MemoHit(index: map<Target, set<Node>>, pending: set<Target>, models: map<Target, Node>,
                mergedNodes: map<set<Node>, Node>, merged: seq<set<Node>>, key: Target)
    requires Memoised(index, pending, models, mergedNodes, merged)
    requires key in pending && index[key] in mergedNodes
    ensures Memoised(index, pending - {key}, models[key := mergedNodes[index[key]]], mergedNodes, merged)
  {
    MemoUsedGrows(index, models, mergedNodes, key, mergedNodes[index[key]]);
  }

  /** A key whose set is new merges it once and memoises the result. */
  lemma MemoMiss(index: map<Target, set<Node>>, pending: set<Target>, models: map<Target, Node>,
                 mergedNodes: map<set<Node>, Node>, merged: seq<set<Node>>, key: Target, node: Node)
    requires Memoised(index, pending, models, mergedNodes, merged)
    requires key in pending && index[key] !in mergedNodes
    ensures Memoised(index, pending - {key}, models[key := node], mergedNodes[index[key] := node],
                     merged + [index[key]])
  {
    MemoUsedGrows(index, models, mergedNodes, key, node);
    ListedGrows(merged, mergedNodes, index[key], node);
    MemoLookupGrows(index, models, mergedNodes, key, node);
    assert models[key := node].Keys == index.Keys - (pending - {key});
  }

  /** When no key is pending, models covers the index, sharing one node per set, and merged lists the sets. */
  lemma MemoDone(index: map<Target, set<Node>>, models: map<Target, Node>,
                 mergedNodes: map<set<Node>, Node>, merged: seq<set<Node>>)
    requires Memoised(index, {}, models, mergedNodes, merged)
    ensures models.Keys == index.Keys
    ensures forall k, l :: k in index && l in index && index[k] == index[l] ==> models[k] == models[l]
    ensures forall s :: s in merged <==> exists k :: k in index && index[k] == s
  {
  }

  /** Every key's node is then a merge of its set. */
  lemma MemoSoundDone(index: map<Target, set<Node>>, models: map<Target, Node>,
                      mergedNodes: map<set<Node>, Node>,
                      mergeable: (Payload, Payload) -> bool, mergeWith: (Payload, Payload) -> Payload)
    requires models.Keys == index.Keys
    requires MemoLookup(index, models, mergedNodes) && MemoSound(mergedNodes, mergeable, mergeWith)
    ensures forall k :: k in index ==> IsMergeOf(models[k], index[k], mergeable, mergeWith)
  {
  }

  /**
   * AppleDescriptions.mergeGraphQLModels(Map): the result has exactly the
   * keys of the index, keys with equal model sets share one merged node, and
   * each node is the merge of its key's set. merged lists the sets that were
   * merged, each once.
   */
  method MergeGraphQLModelsByTarget(index: map<Target, set<Node>>, mergeable: (Payload, Payload) -> bool,
                                    mergeWith: (Payload, Payload) -> Payload)
    returns (r: Result<map<Target, Node>, MergeError>, ghost merged: seq<set<Node>>)
    requires AllModelArgs(index)
    ensures r.Success? ==> r.value.Keys == index.Keys
    ensures r.Success? ==> forall k, l :: k in index && l in index && index[k] == index[l] ==> r.value[k] == r.value[l]
    ensures r.Success? ==> forall k :: k in index ==> IsMergeOf(r.value[k], index[k], mergeable, mergeWith)
    ensures r.Success? ==> forall s :: s in merged <==> exists k :: k in index && index[k] == s
    ensures forall i, j :: 0 <= i < j < |merged| ==> merged[i] != merged[j]
    ensures r.Failure? ==> exists k :: k in index && MayFail(index[k], mergeable, mergeWith)
  {
    var models: map<Target, Node> := map[];
    var mergedNodes: map<set<Node>, Node> := map[];
    merged := [];
    var keys := index.Keys;
    while keys != {}
      invariant Memoised(index, keys, models, mergedNodes, merged)
      invariant MemoSound(mergedNodes, mergeable, mergeWith)
      decreases keys
    {
      var key :| key in keys;
      var modelSet := index[key];
      if modelSet in mergedNodes {
        MemoHit(index, keys, models, mergedNodes, merged, key);
        models := models[key := mergedNodes[modelSet]];
        keys := keys - {key};
        continue;
      }
      var order := Enumerate(modelSet);
      var mergedNode := MergeGraphQLModels(order, mergeable, mergeWith);
      if mergedNode.Failure? {
        assert MayFail(modelSet, mergeable, mergeWith);
        r := Failure(mergedNode.error);
        return;
      }
      assert IsMergeOf(mergedNode.value, modelSet, mergeable, mergeWith);
      MemoMiss(index, keys, models, mergedNodes, merged, key, mergedNode.value);
      MemoSoundGrows(mergedNodes, modelSet, mergedNode.value, mergeable, mergeWith);
      mergedNodes := mergedNodes[modelSet := mergedNode.value];
      merged := merged + [modelSet];
      models := models[key := mergedNode.value];
      keys := keys - {key};
    }
    MemoDone(index, models, mergedNodes, merged);
    MemoSoundDone(index, models, mergedNodes, mergeable, mergeWith);
    r := Success(models);
  }
}
