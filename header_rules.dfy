/**
 * The headers flavor of an Apple target (AppleDescriptions.createHeadersFlavor
 * and createSymlinkTree) and the flavor dispatch in createFlavoredRule.
 */
module HeaderRules {
  import opened Wrappers
  import opened Paths
  import opened Targets
  import opened TargetGraphs
  import opened BuildRules

  // ---------------------------------------------------------------------
  // Per-file flag strings: Splitter.on(' ').trimResults().omitEmptyStrings()

  /** Guava's CharMatcher.whitespace(), which trimResults strips. */
  predicate IsWhitespace(c: char) {
    || c == '\t' || c == '\n' || c == '\U{000B}' || c == '\U{000C}' || c == '\r' || c == ' '
    || c == '\U{0085}' || c == '\U{00A0}' || c == '\U{1680}'
    || ('\U{2000}' <= c <= '\U{200A}')
    || c == '\U{2028}' || c == '\U{2029}' || c == '\U{202F}' || c == '\U{205F}' || c == '\U{3000}'
  }

  /** The pieces of s between single spaces; there is always at least one. */
  function SplitOnSpace(s: string): (r: seq<string>)
    ensures |r| >= 1
    ensures forall i :: 0 <= i < |r| ==> ' ' !in r[i]
  {
    if |s| == 0 then [""]
    else
      var rest := SplitOnSpace(s[1..]);
      if s[0] == ' ' then [""] + rest
      else [[s[0]] + rest[0]] + rest[1..]
  }

  /** Splitting and joining with the same separator give back the input. */
  lemma {:induction false} JoinSplitOnSpace(s: string)
    ensures Join(" ", SplitOnSpace(s)) == s
  {
    if |s| > 0 {
      var rest := SplitOnSpace(s[1..]);
      JoinSplitOnSpace(s[1..]);
      JoinFirst(" ", rest);
      if s[0] == ' ' {
        assert SplitOnSpace(s) == [""] + rest;
        assert Join(" ", [""] + rest) == "" + " " + Join(" ", rest) by {
          assert ([""] + rest)[1..] == rest;
        }
      } else {
        var r := [[s[0]] + rest[0]] + rest[1..];
        assert SplitOnSpace(s) == r;
        if |rest| == 1 {
          assert r == [[s[0]] + rest[0]];
        } else {
          assert r[1..] == rest[1..];
          assert Join(" ", r) == [s[0]] + rest[0] + " " + Join(" ", rest[1..]);
        }
      }
    }
  }

  lemma JoinFirst(sep: string, parts: seq<string>)
    requires |parts| >= 1
    ensures Join(sep, parts) == parts[0] + (if |parts| == 1 then "" else sep + Join(sep, parts[1..]))
  {
  }

  function TrimLeading(s: string): (r: string)
    ensures |r| <= |s| && r == s[|s| - |r|..]
    ensures |r| > 0 ==> !IsWhitespace(r[0])
    ensures forall k :: 0 <= k < |s| - |r| ==> IsWhitespace(s[k])
  {
    if |s| > 0 && IsWhitespace(s[0]) then TrimLeading(s[1..]) else s
  }

  function TrimTrailing(s: string): (r: string)
    ensures |r| <= |s| && r == s[..|r|]
    ensures |r| > 0 ==> !IsWhitespace(r[|r| - 1])
    ensures forall k :: |r| <= k < |s| ==> IsWhitespace(s[k])
  {
    if |s| > 0 && IsWhitespace(s[|s| - 1]) then TrimTrailing(s[..|s| - 1]) else s
  }

  /** CharMatcher.whitespace().trimFrom. */
  function Trim(s: string): (r: string)
    ensures |r| > 0 ==> !IsWhitespace(r[0]) && !IsWhitespace(r[|r| - 1])
  {
    TrimTrailing(TrimLeading(s))
  }

  function NonEmptyTrimmed(pieces: seq<string>): seq<string> {
    if |pieces| == 0 then []
    else
      var t := Trim(pieces[0]);
      if t == "" then NonEmptyTrimmed(pieces[1..]) else [t] + NonEmptyTrimmed(pieces[1..])
  }

  /** The tokens are exactly the non-empty trimmed pieces. */
  lemma {:induction false} NonEmptyTrimmedMembers(pieces: seq<string>, x: string)
    ensures x in NonEmptyTrimmed(pieces) <==>
      x != "" && exists j :: 0 <= j < |pieces| && x == Trim(pieces[j])
  {
    if |pieces| > 0 {
      var rest := pieces[1..];
      var t := Trim(pieces[0]);
      NonEmptyTrimmedMembers(rest, x);
      assert NonEmptyTrimmed(pieces) == if t == "" then NonEmptyTrimmed(rest) else [t] + NonEmptyTrimmed(rest);
      if x in NonEmptyTrimmed(pieces) {
        if x == t {
          assert x == Trim(pieces[0]);
        } else {
          var j :| 0 <= j < |rest| && x == Trim(rest[j]);
          assert x == Trim(pieces[j + 1]);
        }
      }
      if x != "" && exists j :: 0 <= j < |pieces| && x == Trim(pieces[j]) {
        var j :| 0 <= j < |pieces| && x == Trim(pieces[j]);
        if j > 0 {
          assert x == Trim(rest[j - 1]);
        }
      }
    }
  }

  /** The tokens of a per-file flag string. */
  function FlagTokens(flags: string): seq<string> {
    NonEmptyTrimmed(SplitOnSpace(flags))
  }

  predicate IsPublicHeaderFlag(flags: string) {
    "public" in FlagTokens(flags)
  }

  /** A flag string names `public` exactly when one of its space-separated pieces trims to it. */
  lemma PublicFlagIffPiece(flags: string)
    ensures IsPublicHeaderFlag(flags) <==>
      exists j :: 0 <= j < |SplitOnSpace(flags)| && Trim(SplitOnSpace(flags)[j]) == "public"
  {
    var pieces := SplitOnSpace(flags);
    assert IsPublicHeaderFlag(flags) == ("public" in NonEmptyTrimmed(pieces));
    assert |"public"| == 6;
    NonEmptyTrimmedMembers(pieces, "public");
  }

  /** A piece without spaces followed by a space splits off as the first piece. */
  lemma {:induction false} SplitOnSpaceCons(a: string, b: string)
    requires ' ' !in a
    ensures SplitOnSpace(a + " " + b) == [a] + SplitOnSpace(b)
    decreases |a|
  {
    if |a| > 0 {
      assert (a + " " + b)[1..] == a[1..] + " " + b;
      SplitOnSpaceCons(a[1..], b);
      assert [a[0]] + a[1..] == a;
    } else {
      assert (a + " " + b)[1..] == b;
    }
  }

  /** A string without spaces is a single piece. */
  lemma {:induction false} SplitOnSpaceSingle(a: string)
    requires ' ' !in a
    ensures SplitOnSpace(a) == [a]
  {
    if |a| > 0 {
      SplitOnSpaceSingle(a[1..]);
      assert [a[0]] + a[1..] == a;
    }
  }

  /** Trimming keeps a string whose ends are not whitespace, and only such a one. */
  lemma TrimKeeps(s: string)
    ensures Trim(s) == s <==> s == "" || (!IsWhitespace(s[0]) && !IsWhitespace(s[|s| - 1]))
  {
    if s != "" && !IsWhitespace(s[0]) && !IsWhitespace(s[|s| - 1]) {
      assert TrimLeading(s) == s;
    }
  }

  /** A word that is a whole piece and survives trimming is a token. */
  lemma PieceIsToken(flags: string, w: string, j: int)
    requires 0 <= j < |SplitOnSpace(flags)| && SplitOnSpace(flags)[j] == w
    requires w != "" && Trim(w) == w
    ensures w in FlagTokens(flags)
  {
    NonEmptyTrimmedMembers(SplitOnSpace(flags), w);
  }

  /** A word without spaces, placed between two spaces, is a token whatever surrounds it. */
  lemma WordAmongOthers(before: string, w: string, after: string)
    requires ' ' !in before && ' ' !in w
    requires w != "" && Trim(w) == w
    ensures w in FlagTokens(before + " " + w + " " + after)
  {
    var flags := before + " " + w + " " + after;
    assert flags == before + " " + (w + " " + after);
    SplitOnSpaceCons(before, w + " " + after);
    SplitOnSpaceCons(w, after);
    PieceIsToken(flags, w, 1);
  }

  /** A word without spaces that survives trimming is, on its own, a token. */
  lemma WordAlone(w: string)
    requires ' ' !in w && w != "" && Trim(w) == w
    ensures w in FlagTokens(w)
  {
    SplitOnSpaceSingle(w);
    PieceIsToken(w, w, 0);
  }

  lemma PublicHasNoSpace()
    ensures ' ' !in "public"
  {
  }

  /** Trimming keeps `public`. */
  lemma PublicIsTrimmed()
    ensures Trim("public") == "public"
  {
    assert !IsWhitespace('p') && !IsWhitespace('c');
    TrimKeeps("public");
  }

  /** The flag string `public` on its own. The literal is passed in through
      `flags` so that the solver does not unfold the recursive split on it. */
  lemma PublicFlagAlone(flags: string)
    requires flags == "public"
    ensures IsPublicHeaderFlag(flags)
  {
    PublicHasNoSpace();
    PublicIsTrimmed();
    WordAlone(flags);
  }

  /** `public` between other flags is found, whatever follows it. As above,
      `word` carries the literal so that the split is not unfolded on it. */
  lemma PublicFlagAmongOthers(before: string, word: string, after: string)
    requires ' ' !in before && word == "public"
    ensures IsPublicHeaderFlag(before + " " + word + " " + after)
  {
    PublicHasNoSpace();
    PublicIsTrimmed();
    WordAmongOthers(before, word, after);
  }

  /** The token must equal `public`; any longer word that starts with it does not count. */
  lemma PublicFlagIsExact(w: string)
    requires |w| > 6 && w[..6] == "public" && ' ' !in w && !IsWhitespace(w[|w| - 1])
    ensures !IsPublicHeaderFlag(w)
  {
    SplitOnSpaceSingle(w);
    TrimKeeps(w);
    PublicFlagIffPiece(w);
  }

  // ---------------------------------------------------------------------
  // The symlink tree of public headers

  /** AppleDescriptions.getPathToHeaders: buck-out/bin/<base path>/__<name>_public_headers__. */
  function PathToHeaders(t: Target): (p: Path)
    ensures p == Relative(["buck-out", "bin"] + t.basePath + ["__" + ShortNameAndFlavorPostfix(t) + "_public_headers__"])
  {
    OutputPath("bin", t, "__", "_public_headers__")
  }

  /** The last name of the target's base path, under which its headers are linked. */
  function HeaderPathPrefix(t: Target): (p: Path)
    ensures !p.absolute
    ensures p.names == if t.basePath == [] then [] else [t.basePath[|t.basePath| - 1]]
  {
    FileName(BasePath(t)).GetOr(EmptyPath)
  }

  /** Where a public header is linked: the prefix followed by the source's file name. */
  function HeaderDestination(prefix: Path, fileNameOf: SourcePath -> string, src: SourcePath): Path {
    Resolve(prefix, Relative([fileNameOf(src)]))
  }

  /**
   * The destination-to-source map that putting every selected entry, in order,
   * into an empty map leaves behind. The source selects with IsPublicHeaderFlag;
   * the lemmas below hold for any selection.
   */
  function PublicHeaders(prefix: Path, fileNameOf: SourcePath -> string, isPublic: string -> bool,
                         entries: seq<(SourcePath, string)>): map<Path, SourcePath>
  {
    if |entries| == 0 then map[]
    else
      var m := PublicHeaders(prefix, fileNameOf, isPublic, entries[..|entries| - 1]);
      var e := entries[|entries| - 1];
      if isPublic(e.1) then m[HeaderDestination(prefix, fileNameOf, e.0) := e.0] else m
  }

  /** A destination is linked exactly when some public entry resolves to it. */
  lemma {:induction false} PublicHeadersDomain(prefix: Path, fileNameOf: SourcePath -> string,
                                               isPublic: string -> bool, entries: seq<(SourcePath, string)>, d: Path)
    ensures d in PublicHeaders(prefix, fileNameOf, isPublic, entries) <==>
      exists j :: 0 <= j < |entries| && isPublic(entries[j].1) &&
                  HeaderDestination(prefix, fileNameOf, entries[j].0) == d
  {
    if |entries| > 0 {
      var init := entries[..|entries| - 1];
      PublicHeadersDomain(prefix, fileNameOf, isPublic, init, d);
      assert forall j :: 0 <= j < |init| ==> init[j] == entries[j];
      if d in PublicHeaders(prefix, fileNameOf, isPublic, init) {
        var j :| 0 <= j < |init| && isPublic(init[j].1) && HeaderDestination(prefix, fileNameOf, init[j].0) == d;
        assert isPublic(entries[j].1);
      }
    }
  }

  /**
   * Every source linked is a public entry's, and it is the LAST public entry
   * with that destination: a later colliding entry overwrites an earlier one.
   */
  lemma {:induction false} PublicHeadersLastWins(prefix: Path, fileNameOf: SourcePath -> string,
                                                 isPublic: string -> bool, entries: seq<(SourcePath, string)>, j: nat)
    requires j < |entries| && isPublic(entries[j].1)
    requires forall k :: j < k < |entries| && isPublic(entries[k].1) ==>
      HeaderDestination(prefix, fileNameOf, entries[k].0) != HeaderDestination(prefix, fileNameOf, entries[j].0)
    ensures HeaderDestination(prefix, fileNameOf, entries[j].0) in PublicHeaders(prefix, fileNameOf, isPublic, entries)
    ensures PublicHeaders(prefix, fileNameOf, isPublic, entries)[HeaderDestination(prefix, fileNameOf, entries[j].0)] == entries[j].0
  {
    var init := entries[..|entries| - 1];
    if j < |entries| - 1 {
      assert forall k :: 0 <= k < |init| ==> init[k] == entries[k];
      PublicHeadersLastWins(prefix, fileNameOf, isPublic, init, j);
    }
  }

  /**
   * AppleDescriptions.createSymlinkTree: a symlink tree rooted at the target's
   * public-headers directory, with no declared deps and the given extra deps,
   * linking the public headers (none when header maps are used).
   */
  method CreateSymlinkTree(params: RuleParams, fileNameOf: SourcePath -> string,
                           perFileFlags: seq<(SourcePath, string)>, useBuckHeaderMaps: bool)
    returns (rule: Rule)
    ensures rule.target == params.target
    ensures rule.declaredDeps == {} && rule.extraDeps == params.extraDeps
    ensures rule.kind == SymlinkTree(
      PathToHeaders(params.target),
      if useBuckHeaderMaps then map[]
      else PublicHeaders(HeaderPathPrefix(params.target), fileNameOf, IsPublicHeaderFlag, perFileFlags))
  {
    var headersToCopy: map<Path, SourcePath>;
    if useBuckHeaderMaps {
      headersToCopy := map[];
    } else {
      var prefix := HeaderPathPrefix(params.target);
      headersToCopy := map[];
      var i := 0;
      while i < |perFileFlags|
        invariant 0 <= i <= |perFileFlags|
        invariant headersToCopy == PublicHeaders(prefix, fileNameOf, IsPublicHeaderFlag, perFileFlags[..i])
      {
        var entry := perFileFlags[i];
        assert perFileFlags[..i + 1][..i] == perFileFlags[..i];
        if IsPublicHeaderFlag(entry.1) {
          headersToCopy := headersToCopy[HeaderDestination(prefix, fileNameOf, entry.0) := entry.0];
        }
        i := i + 1;
      }
      assert perFileFlags[..i] == perFileFlags;
    }
    rule := Rule(params.target, {}, params.extraDeps, SymlinkTree(PathToHeaders(params.target), headersToCopy));
  }

  /** The target of a node's headers rule: its unflavored target with the single flavor `headers`. */
  function HeadersTarget(t: Target): (h: Target)
    ensures h.basePath == t.basePath && h.shortName == t.shortName && h.flavors == {HEADERS}
  {
    WithFlavor(Unflavored(t), HEADERS)
  }

  /**
   * AppleDescriptions.createHeadersFlavor: the headers rule of a native target,
   * whatever flavors the requested target carries.
   */
  method CreateHeadersFlavor(params: RuleParams, arg: Arg, fileNameOf: SourcePath -> string)
    returns (rule: Rule)
    requires arg.NativeArg?
    ensures rule.target == Target(params.target.basePath, params.target.shortName, {HEADERS})
    ensures rule.declaredDeps == {} && rule.extraDeps == params.extraDeps
    ensures rule.kind.SymlinkTree? && rule.kind.root == PathToHeaders(rule.target)
    ensures arg.useBuckHeaderMaps == Some(true) ==> rule.kind.links == map[]
    ensures arg.useBuckHeaderMaps != Some(true) ==>
      rule.kind.links == PublicHeaders(HeaderPathPrefix(params.target), fileNameOf, IsPublicHeaderFlag, arg.perFileFlags)
  {
    var targetForOriginalRule := params.target;
    if IsFlavored(targetForOriginalRule) {
      targetForOriginalRule := Unflavored(targetForOriginalRule);
    }
    var headersTarget := WithFlavor(targetForOriginalRule, HEADERS);
    var headerRuleParams := RuleParams(headersTarget, {}, params.extraDeps);
    var useBuckHeaderMaps := arg.useBuckHeaderMaps.GetOr(false);
    rule := CreateSymlinkTree(headerRuleParams, fileNameOf, arg.perFileFlags, useBuckHeaderMaps);
  }

  // ---------------------------------------------------------------------
  // Flavor dispatch

  datatype FlavoredRule =
    | CompilationDatabaseRule(target: Target)
    | HeadersRule(rule: Rule)

  /**
   * AppleDescriptions.createFlavoredRule: the compilation-database flavor wins
   * over `headers`; a target with neither gets no flavored rule.
   */
  method CreateFlavoredRule(params: RuleParams, arg: Arg, fileNameOf: SourcePath -> string)
    returns (r: Option<FlavoredRule>)
    requires arg.NativeArg?
    ensures COMPILATION_DATABASE in params.target.flavors ==> r == Some(CompilationDatabaseRule(params.target))
    ensures COMPILATION_DATABASE !in params.target.flavors && HEADERS in params.target.flavors ==>
      && r.Some? && r.value.HeadersRule? && r.value.rule.target == HeadersTarget(params.target)
      && r.value.rule.declaredDeps == {} && r.value.rule.extraDeps == params.extraDeps
      && r.value.rule.kind.SymlinkTree? && r.value.rule.kind.root == PathToHeaders(HeadersTarget(params.target))
      && r.value.rule.kind.links == (if arg.useBuckHeaderMaps == Some(true) then map[]
         else PublicHeaders(HeaderPathPrefix(params.target), fileNameOf, IsPublicHeaderFlag, arg.perFileFlags))
    ensures COMPILATION_DATABASE !in params.target.flavors && HEADERS !in params.target.flavors ==> r == None
  {
    var target := params.target;
    if COMPILATION_DATABASE in target.flavors {
      r := Some(CompilationDatabaseRule(target));
    } else if HEADERS in target.flavors {
      var headers := CreateHeadersFlavor(params, arg, fileNameOf);
      r := Some(HeadersRule(headers));
    } else {
      r := None;
    }
  }
}
