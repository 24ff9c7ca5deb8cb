/**
 * java.nio.file.Path reduced to what the core uses: an optional root and a
 * sequence of name elements. The empty relative path has no names.
 */
module Paths {
  import opened Wrappers

  datatype Path = Path(absolute: bool, names: seq<string>)

  const EmptyPath := Path(false, [])

  function Relative(names: seq<string>): Path {
    Path(false, names)
  }

  /**
   * Path.getFileName: the last name element; the empty path is its own file
   * name and the root has none.
   */
  function FileName(p: Path): (r: Option<Path>)
    ensures r.None? <==> p.absolute && p.names == []
    ensures r.Some? ==> !r.value.absolute && |r.value.names| <= 1
    ensures r.Some? && p.names != [] ==> r.value.names == [p.names[|p.names| - 1]]
    ensures !p.absolute && p.names == [] ==> r == Some(EmptyPath)
  {
    if p.names != [] then Some(Relative([p.names[|p.names| - 1]]))
    else if p.absolute then None
    else Some(EmptyPath)
  }

  /** Path.resolve: an absolute argument wins, otherwise the names are appended. */
  function Resolve(base: Path, other: Path): (r: Path)
    ensures other.absolute ==> r == other
    ensures !other.absolute ==> r.absolute == base.absolute && r.names == base.names + other.names
  {
    if other.absolute then other else Path(base.absolute, base.names + other.names)
  }

  /** Path.startsWith(String) for a single relative name element. */
  predicate StartsWithName(p: Path, name: string) {
    !p.absolute && |p.names| >= 1 && p.names[0] == name
  }
}
