/**
 * How the `class`, `field` and `method` commands of the mappings extension
 * turn the optional version argument into a Minecraft version, and which
 * versions they accept.
 */
module MappingsVersion {
  import opened Wrappers
  import opened Text

  /** The latest versions the version-check extension has seen; `None` until it has loaded them. */
  datatype LatestVersions = LatestVersions(release: Option<string>, snapshot: Option<string>)

  const ReleaseAlias: string := "release"
  const SnapshotAlias: string := "snapshot"

  /** An argument (already lowercased) that names one of the two aliases. */
  predicate IsAlias(key: string) {
    key == ReleaseAlias || key == SnapshotAlias
  }

  /** The latest version an alias stands for. */
  function LatestFor(key: string, latest: LatestVersions): Option<string>
    requires IsAlias(key)
  {
    if key == ReleaseAlias then latest.release else latest.snapshot
  }

  /**
   * The `class` command: an alias is looked up in the mappings manager's
   * cached table of version names first, falling back to the latest version.
   */
  function ResolveClassVersion(version: Option<string>, versionNames: map<string, string>,
                               latest: LatestVersions): Option<string>
  {
    match version
    case None => latest.release
    case Some(v) =>
      var key := ToLower(v);
      if key == ReleaseAlias then
        (if key in versionNames then Some(versionNames[key]) else latest.release)
      else if key == SnapshotAlias then
        (if key in versionNames then Some(versionNames[key]) else latest.snapshot)
      else Some(v)
  }

  /**
   * The `field` and `method` commands: an alias goes straight to the latest
   * version; the table of version names plays no part.
   */
  function ResolveMemberVersion(version: Option<string>, latest: LatestVersions): Option<string>
  {
    match version
    case None => latest.release
    case Some(v) =>
      var key := ToLower(v);
      if key == ReleaseAlias then latest.release
      else if key == SnapshotAlias then latest.snapshot
      else Some(v)
  }

  /** With no version given, every command asks for the latest release. */
  lemma AbsentMeansLatestRelease(versionNames: map<string, string>, latest: LatestVersions)
    ensures ResolveClassVersion(None, versionNames, latest) == latest.release
    ensures ResolveMemberVersion(None, latest) == latest.release
  {
  }

  /** Any version other than the two aliases is used exactly as typed, case included. */
  lemma OtherVersionsPassThrough(v: string, versionNames: map<string, string>, latest: LatestVersions)
    requires !IsAlias(ToLower(v))
    ensures ResolveClassVersion(Some(v), versionNames, latest) == Some(v)
    ensures ResolveMemberVersion(Some(v), latest) == Some(v)
  {
  }

  /** In the `class` command an alias, in any case, prefers the cached name. */
  lemma ClassAliasPrefersCache(v: string, versionNames: map<string, string>, latest: LatestVersions)
    requires IsAlias(ToLower(v))
    ensures var key := ToLower(v);
      ResolveClassVersion(Some(v), versionNames, latest)
        == if key in versionNames then Some(versionNames[key]) else LatestFor(key, latest)
  {
  }

  /** In the `field` and `method` commands an alias, in any case, is the latest version itself. */
  lemma MemberAliasIsLatest(v: string, latest: LatestVersions)
    requires IsAlias(ToLower(v))
    ensures ResolveMemberVersion(Some(v), latest) == LatestFor(ToLower(v), latest)
  {
  }

  /**
   * The two resolutions disagree exactly when an alias was given and the
   * cached table holds a name for it other than the latest version.
   */
  lemma ResolutionsDiffer(version: Option<string>, versionNames: map<string, string>,
                          latest: LatestVersions)
    ensures ResolveClassVersion(version, versionNames, latest) != ResolveMemberVersion(version, latest)
        <==> (version.Some? && IsAlias(ToLower(version.value))
              && ToLower(version.value) in versionNames
              && Some(versionNames[ToLower(version.value)]) != LatestFor(ToLower(version.value), latest))
  {
  }

  /** Without cached alias names, `class` resolves like `field` and `method`. */
  lemma ResolutionsAgreeWithoutCache(version: Option<string>, versionNames: map<string, string>,
                                     latest: LatestVersions)
    requires ReleaseAlias !in versionNames && SnapshotAlias !in versionNames
    ensures ResolveClassVersion(version, versionNames, latest) == ResolveMemberVersion(version, latest)
  {
    ResolutionsDiffer(version, versionNames, latest);
  }

  /** A character of the class `[a-z0-9.]`, matched case-sensitively. */
  predicate InVersionClass(c: char) {
    IsAsciiLower(c) || IsAsciiDigit(c) || c == '.'
  }

  /**
   * A character of `[a-z0-9.]` under case-insensitive matching: it, or its
   * other case, lies in the class.
   */
  predicate MatchesVersionClass(c: char) {
    InVersionClass(c) || InVersionClass(LowerChar(c)) || InVersionClass(UpperChar(c))
  }

  /** The pattern `[a-z0-9.]+` matched case-insensitively against all of `s`. */
  predicate MatchesVersionRegex(s: string) {
    |s| >= 1 && MatchesVersionClass(s[0]) && (|s| == 1 || MatchesVersionRegex(s[1..]))
  }

  /** An ASCII letter, a digit or a dot. */
  predicate IsVersionChar(c: char) {
    IsAsciiLower(c) || IsAsciiUpper(c) || IsAsciiDigit(c) || c == '.'
  }

  /** The case-insensitive class is exactly letters of either case, digits and the dot. */
  lemma VersionClassIff(c: char)
    ensures MatchesVersionClass(c) <==> IsVersionChar(c)
  {
  }

  /** A version is accepted iff it is non-empty and made only of letters, digits and dots. */
  lemma {:induction false} VersionRegexIff(s: string)
    ensures MatchesVersionRegex(s) <==> |s| >= 1 && forall i :: 0 <= i < |s| ==> IsVersionChar(s[i])
  {
    if |s| >= 1 {
      VersionClassIff(s[0]);
      if |s| > 1 {
        VersionRegexIff(s[1..]);
        forall i | 1 <= i < |s|
          ensures s[i] == s[1..][i - 1]
        {
        }
        if forall i :: 0 <= i < |s| ==> IsVersionChar(s[i]) {
          forall i | 0 <= i < |s| - 1
            ensures IsVersionChar(s[1..][i])
          {
            assert s[1..][i] == s[i + 1];
          }
        }
      }
    }
  }
}
