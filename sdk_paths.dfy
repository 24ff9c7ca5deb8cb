/** AppleDescriptions.translateAppleSdkPaths: the leading $SDKROOT or $DEVELOPER_DIR of a path. */
module SdkPaths {
  import opened Wrappers
  import opened Paths

  const SDKROOT := "$SDKROOT"
  const DEVELOPER_DIR := "$DEVELOPER_DIR"

  datatype SdkPathError = EmptySubpath  // Path.subpath(1, 1) on a path that is only the variable

  /**
   * A relative path whose first name is $SDKROOT (or $DEVELOPER_DIR) has that
   * name replaced by the SDK (or developer) path; any other path is kept.
   */
  function TranslateAppleSdkPaths(path: Path, sdkPath: Path, developerPath: Path): (r: Result<Path, SdkPathError>)
    ensures r.Failure? <==> (StartsWithName(path, SDKROOT) || StartsWithName(path, DEVELOPER_DIR)) && |path.names| == 1
    ensures r.Success? && StartsWithName(path, SDKROOT) ==>
      r.value == Path(sdkPath.absolute, sdkPath.names + path.names[1..])
    ensures r.Success? && StartsWithName(path, DEVELOPER_DIR) ==>
      r.value == Path(developerPath.absolute, developerPath.names + path.names[1..])
    ensures !StartsWithName(path, SDKROOT) && !StartsWithName(path, DEVELOPER_DIR) ==> r == Success(path)
  {
    if StartsWithName(path, SDKROOT) then
      if |path.names| <= 1 then Failure(EmptySubpath) else Success(Resolve(sdkPath, Relative(path.names[1..])))
    else if StartsWithName(path, DEVELOPER_DIR) then
      if |path.names| <= 1 then Failure(EmptySubpath) else Success(Resolve(developerPath, Relative(path.names[1..])))
    else Success(path)
  }

  /** With absolute SDK and developer paths, translating a translated path changes nothing. */
  lemma TranslateIsIdempotent(path: Path, sdkPath: Path, developerPath: Path)
    requires sdkPath.absolute && developerPath.absolute
    requires TranslateAppleSdkPaths(path, sdkPath, developerPath).Success?
    ensures var once := TranslateAppleSdkPaths(path, sdkPath, developerPath).value;
      TranslateAppleSdkPaths(once, sdkPath, developerPath) == Success(once)
  {
  }
}
