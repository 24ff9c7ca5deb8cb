/**
 * Build targets: a base path, a short name and a set of flavors, with the
 * naming functions of BuildTarget and BuildTargets that the core relies on.
 */
module Targets {
  import opened Ordering
  import opened Paths

  type Flavor = string

  /** The flavor that selects a target's public-headers rule. */
  const HEADERS: Flavor := "headers"
  /** The flavor that selects a target's compilation database. */
  const COMPILATION_DATABASE: Flavor := "compilation-database"

  /** basePath holds the names of the directory after the leading "//". */
  datatype Target = Target(basePath: seq<string>, shortName: string, flavors: set<Flavor>)

  /** Guava's Joiner: the parts with sep between consecutive ones. */
  function Join(sep: string, parts: seq<string>): string {
    if |parts| == 0 then ""
    else if |parts| == 1 then parts[0]
    else parts[0] + sep + Join(sep, parts[1..])
  }

  function BaseName(t: Target): string {
    "//" + Join("/", t.basePath)
  }

  function BasePath(t: Target): Path {
    Relative(t.basePath)
  }

  function SortedFlavors(t: Target): seq<Flavor> {
    StringLessIsStrictTotal();
    SortSet(t.flavors, StringLess)
  }

  function FlavorPostfix(t: Target): string {
    if t.flavors == {} then "" else "#" + Join(",", SortedFlavors(t))
  }

  function ShortNameAndFlavorPostfix(t: Target): string {
    t.shortName + FlavorPostfix(t)
  }

  function FullyQualifiedName(t: Target): string {
    BaseName(t) + ":" + ShortNameAndFlavorPostfix(t)
  }

  predicate IsFlavored(t: Target) {
    t.flavors != {}
  }

  function Unflavored(t: Target): Target {
    t.(flavors := {})
  }

  /** BuildTargets.createFlavoredBuildTarget: the target with one more flavor. */
  function WithFlavor(t: Target, f: Flavor): Target {
    t.(flavors := t.flavors + {f})
  }

  /** BuildTargets.getBinPath / getGenPath with a format "<before>%s<after>". */
  function OutputPath(dir: string, t: Target, before: string, after: string): Path {
    Relative(["buck-out", dir] + t.basePath + [before + ShortNameAndFlavorPostfix(t) + after])
  }

  /** The three strings by which build targets are ordered. */
  datatype SortKey = SortKey(baseName: string, shortName: string, postfix: string)

  function KeyOf(t: Target): SortKey {
    SortKey(BaseName(t), t.shortName, FlavorPostfix(t))
  }

  function KeyFields(k: SortKey): seq<string> {
    [k.baseName, k.shortName, k.postfix]
  }

  predicate KeyLess(a: SortKey, b: SortKey) {
    LexLess(KeyFields(a), KeyFields(b), StringLess)
  }

  /** The fully qualified name is a function of the sort key. */
  function KeyName(k: SortKey): string {
    k.baseName + ":" + k.shortName + k.postfix
  }

  lemma KeyNameOfTarget(t: Target)
    ensures KeyName(KeyOf(t)) == FullyQualifiedName(t)
  {
  }

  lemma KeyLessIsStrictTotal()
    ensures IsStrictTotal(KeyLess)
  {
    StringLessIsStrictTotal();
    forall a: SortKey ensures !KeyLess(a, a) {
      LexIrreflexive(KeyFields(a), StringLess);
    }
    forall a: SortKey, b: SortKey, c: SortKey | KeyLess(a, b) && KeyLess(b, c)
      ensures KeyLess(a, c)
    {
      LexTransitive(KeyFields(a), KeyFields(b), KeyFields(c), StringLess);
    }
    forall a: SortKey, b: SortKey ensures a == b || KeyLess(a, b) || KeyLess(b, a) {
      LexTotal(KeyFields(a), KeyFields(b), StringLess);
      if KeyFields(a) == KeyFields(b) {
        assert KeyFields(a)[0] == KeyFields(b)[0];
        assert KeyFields(a)[1] == KeyFields(b)[1];
        assert KeyFields(a)[2] == KeyFields(b)[2];
      }
    }
  }
}
