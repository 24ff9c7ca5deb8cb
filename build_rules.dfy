/**
 * Build-rule handles, rule parameters and the resolver's rule index. The rule
 * constructors themselves are external: a handle records the target, the
 * dependency sets and, for a symlink tree, the root and the link map.
 */
module BuildRules {
  import opened Wrappers
  import opened Paths
  import opened Targets
  import opened TargetGraphs

  /** BuildRuleParams reduced to the target and the two dependency sets. */
  datatype RuleParams = RuleParams(target: Target, declaredDeps: set<Target>, extraDeps: set<Target>)

  datatype RuleKind =
    | SymlinkTree(root: Path, links: map<Path, SourcePath>)
    | OtherRule(name: string)

  datatype Rule = Rule(target: Target, declaredDeps: set<Target>, extraDeps: set<Target>, kind: RuleKind)

  /**
   * SymlinkTree.getRootOfSymlinksDirectory: present only when the tree links
   * at least one file.
   */
  function RootOfSymlinksDirectory(r: Rule): (p: Option<Path>)
    requires r.kind.SymlinkTree?
    ensures p.Some? <==> r.kind.links != map[]
    ensures p.Some? ==> p.value == r.kind.root
  {
    if r.kind.links == map[] then None else Some(r.kind.root)
  }

  /** The BuildRuleResolver's index of rules by target. */
  class BuildRuleResolver {
    var index: map<Target, Rule>

    constructor ()
      ensures index == map[]
    {
      index := map[];
    }

    /** getRuleOptional: the rule indexed under t, absent when there is none. */
    function GetRuleOptional(t: Target): (r: Option<Rule>)
      reads this
      ensures r.Some? <==> t in index
      ensures r.Some? ==> r.value == index[t]
    {
      if t in index then Some(index[t]) else None
    }

    method AddToIndex(r: Rule)
      modifies this
      ensures index == old(index)[r.target := r]
    {
      index := index[r.target := r];
    }
  }
}
