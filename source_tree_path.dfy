/**
 * SourceTreePath: the (source tree, path) pair that identifies a file
 * reference in an Xcode project group, with its equality and hash code.
 */
module SourceTreePaths {
  import opened Wrappers
  import opened Paths

  /** PBXReference.SourceTree: what a file reference's path is relative to. */
  datatype SourceTree = Absolute | Group | SourceRoot | BuiltProductsDir | SdkRoot | DeveloperDir

  datatype SourceTreePath = SourceTreePath(sourceTree: SourceTree, path: Path)

  /** The argument of equals: null, a SourceTreePath, or an object of another class. */
  datatype JavaObject = Null | AsSourceTreePath(value: SourceTreePath) | OtherObject

  datatype ConstructionError = NullArgument  // Preconditions.checkNotNull fails

  /**
   * The constructor: both arguments are required, and the getters return
   * them unchanged.
   */
  function New(sourceTree: Option<SourceTree>, path: Option<Path>): (r: Result<SourceTreePath, ConstructionError>)
    ensures r.Success? <==> sourceTree.Some? && path.Some?
    ensures r.Success? ==> r.value.sourceTree == sourceTree.value && r.value.path == path.value
  {
    if sourceTree.None? || path.None? then Failure(NullArgument)
    else Success(SourceTreePath(sourceTree.value, path.value))
  }

  // 32-bit int arithmetic of Objects.hash.

  const TWO_TO_THE_32: int := 0x1_0000_0000
  const TWO_TO_THE_31: int := 0x8000_0000

  newtype int32 = x: int | -TWO_TO_THE_31 <= x < TWO_TO_THE_31

  /** Two's-complement wrap-around of an int result. */
  function Wrap(x: int): (r: int32)
    ensures (r as int - x) % TWO_TO_THE_32 == 0
  {
    (((x + TWO_TO_THE_31) % TWO_TO_THE_32) - TWO_TO_THE_31) as int32
  }

  /**
   * hashCode: Objects.hash(sourceTree, path), that is 31 * (31 + h(sourceTree))
   * + h(path) in int arithmetic. The two field hashes are parameters: the
   * enum's identity hash and Path.hashCode are not part of this model.
   */
  function HashCode(p: SourceTreePath, treeHash: SourceTree -> int32, pathHash: Path -> int32): (h: int32)
    ensures (h as int - (31 * (31 + treeHash(p.sourceTree) as int) + pathHash(p.path) as int)) % TWO_TO_THE_32 == 0
  {
    var inner := Wrap(31 + treeHash(p.sourceTree) as int);
    var h := Wrap(31 * inner as int + pathHash(p.path) as int);
    CongruentScaled(inner as int, 31 + treeHash(p.sourceTree) as int, 31, pathHash(p.path) as int);
    h
  }

  /** Scaling and shifting keep a congruence modulo 2^32. */
  lemma CongruentScaled(a: int, b: int, k: int, c: int)
    requires (a - b) % TWO_TO_THE_32 == 0
    ensures ((k * a + c) - (k * b + c)) % TWO_TO_THE_32 == 0
  {
    var q := (a - b) / TWO_TO_THE_32;
    assert a - b == q * TWO_TO_THE_32;
    assert (k * a + c) - (k * b + c) == (k * q) * TWO_TO_THE_32;
  }

  /** equals as written: either field matching is enough. */
  function EqualsAsWritten(p: SourceTreePath, other: JavaObject): (r: bool)
    ensures other.Null? || other.OtherObject? ==> !r
    ensures other.AsSourceTreePath? ==>
      (r <==> p.sourceTree == other.value.sourceTree || p.path == other.value.path)
  {
    match other
    case AsSourceTreePath(that) => p.sourceTree == that.sourceTree || p.path == that.path
    case _ => false
  }

  /** equals as the class describes it: the tuple of both fields. */
  function Equals(p: SourceTreePath, other: JavaObject): (r: bool)
    ensures other.Null? || other.OtherObject? ==> !r
    ensures r <==> other == AsSourceTreePath(p)
  {
    match other
    case AsSourceTreePath(that) => p.sourceTree == that.sourceTree && p.path == that.path
    case _ => false
  }

  /** As written, equals is still reflexive and symmetric. */
  lemma EqualsAsWrittenReflexiveSymmetric(p: SourceTreePath, q: SourceTreePath)
    ensures EqualsAsWritten(p, AsSourceTreePath(p))
    ensures EqualsAsWritten(p, AsSourceTreePath(q)) == EqualsAsWritten(q, AsSourceTreePath(p))
  {
  }

  /** Two references to different files in the same tree are equal as written. */
  lemma EqualsAsWrittenIsNotTupleEquality(p: Path, q: Path)
    requires p != q
    ensures EqualsAsWritten(SourceTreePath(Group, p), AsSourceTreePath(SourceTreePath(Group, q)))
    ensures SourceTreePath(Group, p) != SourceTreePath(Group, q)
  {
  }

  /** ... and can have different hash codes, breaking the hashCode contract. */
  lemma EqualsAsWrittenBreaksHashCode(p: Path, q: Path)
    requires p != q
    ensures var treeHash := (t: SourceTree) => 0 as int32;
      var pathHash := (x: Path) => if x == p then 0 as int32 else 1 as int32;
      && EqualsAsWritten(SourceTreePath(Group, p), AsSourceTreePath(SourceTreePath(Group, q)))
      && HashCode(SourceTreePath(Group, p), treeHash, pathHash) == 961
      && HashCode(SourceTreePath(Group, q), treeHash, pathHash) == 962
  {
  }

  /** As written, equals is not transitive. */
  lemma EqualsAsWrittenNotTransitive(p: Path, q: Path)
    requires p != q
    ensures EqualsAsWritten(SourceTreePath(Group, p), AsSourceTreePath(SourceTreePath(Group, q)))
    ensures EqualsAsWritten(SourceTreePath(Group, q), AsSourceTreePath(SourceTreePath(Absolute, q)))
    ensures !EqualsAsWritten(SourceTreePath(Group, p), AsSourceTreePath(SourceTreePath(Absolute, q)))
  {
  }

  /** The tuple equality is an equivalence. */
  lemma EqualsIsEquivalence(p: SourceTreePath, q: SourceTreePath, s: SourceTreePath)
    ensures Equals(p, AsSourceTreePath(p))
    ensures Equals(p, AsSourceTreePath(q)) == Equals(q, AsSourceTreePath(p))
    ensures Equals(p, AsSourceTreePath(q)) && Equals(q, AsSourceTreePath(s)) ==> Equals(p, AsSourceTreePath(s))
  {
  }

  /** Equal references have equal hash codes, whatever the field hashes are. */
  lemma EqualsAgreesWithHashCode(p: SourceTreePath, q: SourceTreePath,
                                 treeHash: SourceTree -> int32, pathHash: Path -> int32)
    requires Equals(p, AsSourceTreePath(q))
    ensures HashCode(p, treeHash, pathHash) == HashCode(q, treeHash, pathHash)
  {
  }

  /**
   * SourceTreePath.absolute: the path made absolute against the working
   * directory (which the JVM keeps absolute), in the Absolute tree.
   */
  function MakeAbsolute(path: Path, workingDirectory: Path): (r: SourceTreePath)
    requires workingDirectory.absolute
    ensures r.sourceTree == Absolute && r.path.absolute
    ensures path.absolute ==> r.path == path
    ensures !path.absolute ==> r.path.names == workingDirectory.names + path.names
  {
    var absolutePath := if path.absolute then path else Resolve(workingDirectory, path);
    SourceTreePath(Absolute, absolutePath)
  }
}
