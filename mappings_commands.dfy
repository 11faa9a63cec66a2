/**
 * The `class`, `field` and `method` commands of the mappings extension: the
 * chain of early returns that picks, for one invocation, the reply to send.
 */
module MappingsCommands {
  import opened Wrappers
  import opened MappingsVersion
  import opened MappingsPages

  datatype Command = ClassCommand | FieldCommand | MethodCommand

  /** The noun a command uses for what it looks up. */
  function Noun(c: Command): string {
    match c
    case ClassCommand => "class"
    case FieldCommand => "field"
    case MethodCommand => "method"
  }

  /** The reply a command sends. */
  datatype Reply =
    | StillLoading                              // no latest version known yet
    | InvalidVersion(version: string)           // the version fails the pattern
    | NoMappings(version: string)               // no mappings exist for the version
    | NoMatches(command: Command)               // the mappings hold no such name
    | Paginated(title: string, pages: seq<string>)

  /** The version a command resolves its argument to. */
  function ResolveVersion(c: Command, version: Option<string>, versionNames: map<string, string>,
                          latest: LatestVersions): Option<string>
  {
    if c == ClassCommand then ResolveClassVersion(version, versionNames, latest)
    else ResolveMemberVersion(version, latest)
  }

  const LoadingText: string := "I'm still loading up the latest "
    + "Minecraft version information - try again later!"
  const InvalidPrefix: string := "Invalid Minecraft version specified: `"
  const NoMappingsPrefix: string := "Unable to find Yarn mappings for Minecraft `"
  const NoMatchesPrefix: string := "Unable to find any matching "

  /** The text of every reply other than the paginator. */
  function ReplyText(r: Reply): string
    requires !r.Paginated?
  {
    match r
    case StillLoading => LoadingText
    case InvalidVersion(v) => InvalidPrefix + v + "`"
    case NoMappings(v) => NoMappingsPrefix + v + "`."
    case NoMatches(c) => NoMatchesPrefix + Noun(c) + " names."
  }

  /** Characters 0, 1 and 15 of a reply text tell which kind of reply it is. */
  lemma ReplyTextKind(r: Reply)
    requires !r.Paginated?
    ensures |ReplyText(r)| > 15
    ensures r.StillLoading? <==> ReplyText(r)[1] == '\''
    ensures r.InvalidVersion? <==> ReplyText(r)[0] == 'I' && ReplyText(r)[1] == 'n'
    ensures r.NoMappings? <==> ReplyText(r)[0] == 'U' && ReplyText(r)[15] == 'Y'
    ensures r.NoMatches? <==> ReplyText(r)[0] == 'U' && ReplyText(r)[15] == 'a'
  {
    var t := ReplyText(r);
    match r
    case StillLoading =>
      assert t[0] == 'I' && t[1] == '\'';
    case InvalidVersion(v) =>
      assert t[0] == InvalidPrefix[0] == 'I';
      assert t[1] == InvalidPrefix[1] == 'n';
    case NoMappings(v) =>
      assert t[0] == NoMappingsPrefix[0] == 'U';
      assert t[1] == NoMappingsPrefix[1] == 'n';
      assert t[15] == NoMappingsPrefix[15] == 'Y';
    case NoMatches(c) =>
      assert t[0] == NoMatchesPrefix[0] == 'U';
      assert t[1] == NoMatchesPrefix[1] == 'n';
      assert t[15] == NoMatchesPrefix[15] == 'a';
  }

  /** Different replies read differently, so the text tells the user which case occurred. */
  lemma ReplyTextInjective(a: Reply, b: Reply)
    requires !a.Paginated? && !b.Paginated?
    requires ReplyText(a) == ReplyText(b)
    ensures a == b
  {
    ReplyTextKind(a);
    ReplyTextKind(b);
    var t := ReplyText(a);
    match a
    case StillLoading =>
    case InvalidVersion(v) =>
      assert t[|InvalidPrefix|..|t| - 1] == v;
      assert t[|InvalidPrefix|..|t| - 1] == b.version;
    case NoMappings(v) =>
      assert t[|NoMappingsPrefix|..|t| - 2] == v;
      assert t[|NoMappingsPrefix|..|t| - 2] == b.version;
    case NoMatches(c) =>
      assert t[|NoMatchesPrefix|] == Noun(c)[0];
      assert t[|NoMatchesPrefix|] == Noun(b.command)[0];
  }

  /**
   * One invocation of a mappings command. `lookup` holds, per version, what
   * the mappings manager finds for the queried name; a version missing from
   * it has no mappings. `lookedUp` is the version the manager was asked
   * about, if any.
   */
  method Action(c: Command, version: Option<string>, versionNames: map<string, string>,
                latest: LatestVersions, lookup: map<string, seq<MappingsResult>>)
    returns (reply: Reply, lookedUp: Option<string>)
    ensures var resolved := ResolveVersion(c, version, versionNames, latest);
      && (resolved.None? ==> reply == StillLoading && lookedUp == None)
      && (resolved.Some? && !MatchesVersionRegex(resolved.value) ==>
            reply == InvalidVersion(resolved.value) && lookedUp == None)
      && (resolved.Some? && MatchesVersionRegex(resolved.value) ==> lookedUp == resolved)
    ensures lookedUp.Some? ==>
      var v := lookedUp.value;
      && (v !in lookup ==> reply == NoMappings(v))
      && (v in lookup && lookup[v] == [] ==> reply == NoMatches(c))
      && (v in lookup && lookup[v] != [] ==>
            && reply.Paginated?
            && reply.title == Title(v, |lookup[v]|)
            && |reply.pages| == |lookup[v]|
            && forall i :: 0 <= i < |lookup[v]| ==> reply.pages[i] == Page(lookup[v][i]))
  {
    var mcVersion := if c == ClassCommand then ResolveClassVersion(version, versionNames, latest)
                     else ResolveMemberVersion(version, latest);
    if mcVersion.None? {
      return StillLoading, None;
    }
    var v := mcVersion.value;
    if !MatchesVersionRegex(v) {
      return InvalidVersion(v), None;
    }
    lookedUp := Some(v);
    if v !in lookup {
      return NoMappings(v), lookedUp;
    }
    var mappingsData := lookup[v];
    if mappingsData == [] {
      return NoMatches(c), lookedUp;
    }
    var title, pages := Paginate(v, mappingsData);
    reply := Paginated(title, pages);
  }
}
