/**
 * The paginated reply of the mappings commands: one page of text per
 * mappings result, and the title above them.
 */
module MappingsPages {
  import opened Wrappers
  import opened Text
  import opened Decimal

  /** A class or member name in the official, intermediary and named (Yarn) namespaces. */
  datatype Names = Names(official: string, intermediary: string, named: string)

  /** Whether a member of a mappings tree is a method or a field. */
  datatype MemberKind = FieldDef | MethodDef

  /** A member: its kind, its names and its descriptor in the named namespace. */
  datatype MemberDef = MemberDef(kind: MemberKind, names: Names, descriptor: string)

  /** One hit of a lookup: the class, and the member when the query was for a field or method. */
  datatype MappingsResult = MappingsResult(classNames: Names, member: Option<MemberDef>)

  // The fixed pieces of a page. The padding after each label only aligns the
  // raw text; the chat client does not show it.
  const ClassHeading: string := "__**Class names**__\n\n"
  const MemberHeading: string := "__**Member Names**__\n\n"
  const DescriptorHeading: string := "__**Descriptor**__\n\n"
  const ClassWidenerHeading: string := "__**Access widener**__\n\n"
  const MemberWidenerHeading: string := "__**Access Widener**__\n\n"
  const OfficialLabel: string := "Official     **»** `"
  const IntermediaryLabel: string := "Intermediary **»** `"
  const YarnLabel: string := "Yarn         **»** `"
  const Fence: string := "```"

  /** A name line other than the last of its group. */
  function NameLine(prefix: string, name: string): string {
    prefix + name + "`\n"
  }

  /** The last name line of a group, followed by a blank line. */
  function LastNameLine(prefix: string, name: string): string {
    prefix + name + "`\n\n"
  }

  /** The access-widener keyword for a member kind. */
  function KindKeyword(k: MemberKind): string {
    if k == MethodDef then "method" else "field"
  }

  /** The access-widener entry for a result, as printed inside its code block. */
  function AccessWidener(r: MappingsResult): string {
    match r.member
    case None => "accessible\tclass\t" + r.classNames.named
    case Some(m) =>
      "accessible\t" + (KindKeyword(m.kind) + "\t") + (r.classNames.named + "\t")
      + (m.names.named + "\t") + m.descriptor
  }

  /** The class heading and name lines that open every page. */
  function ClassSection(r: MappingsResult): string {
    ClassHeading
    + NameLine(OfficialLabel, r.classNames.official)
    + NameLine(IntermediaryLabel, r.classNames.intermediary)
    + LastNameLine(YarnLabel, r.classNames.named)
  }

  /** What stands between the class section and the access-widener block. */
  function Middle(r: MappingsResult): string {
    match r.member
    case None => ClassWidenerHeading
    case Some(m) =>
      MemberHeading
      + NameLine(OfficialLabel, m.names.official)
      + NameLine(IntermediaryLabel, m.names.intermediary)
      + LastNameLine(YarnLabel, m.names.named)
      + DescriptorHeading
      + (Fence + m.descriptor + "```\n\n")
      + MemberWidenerHeading
  }

  /**
   * The page shown for one result: the class section, then either the class
   * access widener or the member's names, descriptor and access widener.
   */
  function Page(r: MappingsResult): string {
    ClassSection(r) + Middle(r) + (Fence + AccessWidener(r) + Fence)
  }

  /** The names that appear in a result's access-widener entry contain no tab. */
  predicate TabFree(r: MappingsResult) {
    Free(r.classNames.named, '\t')
    && (r.member.Some? ==> Free(r.member.value.names.named, '\t') && Free(r.member.value.descriptor, '\t'))
  }

  /** A class entry splits into `accessible`, `class` and the class name. */
  lemma ClassWidenerFields(c: string)
    requires Free(c, '\t')
    ensures Split("accessible\tclass\t" + c, '\t') == ["accessible", "class", c]
  {
    assert "accessible\tclass\t" + c == "accessible" + ['\t'] + ("class" + ['\t'] + c);
    SplitCons("accessible", '\t', "class" + ['\t'] + c);
    SplitCons("class", '\t', c);
    SplitFree(c, '\t');
  }

  /** A member entry splits into `accessible`, the kind, the class, the member and the descriptor. */
  lemma MemberWidenerFields(k: string, c: string, n: string, d: string)
    requires Free(k, '\t') && Free(c, '\t') && Free(n, '\t') && Free(d, '\t')
    ensures Split("accessible\t" + (k + "\t") + (c + "\t") + (n + "\t") + d, '\t')
      == ["accessible", k, c, n, d]
  {
    var tail3 := n + ['\t'] + d;
    var tail2 := c + ['\t'] + tail3;
    var tail1 := k + ['\t'] + tail2;
    assert "accessible\t" + (k + "\t") + (c + "\t") + (n + "\t") + d == "accessible" + ['\t'] + tail1;
    SplitCons("accessible", '\t', tail1);
    SplitCons(k, '\t', tail2);
    SplitCons(c, '\t', tail3);
    SplitCons(n, '\t', d);
    SplitFree(d, '\t');
  }

  /**
   * The access-widener entry is tab-separated: `accessible`, `class` and the
   * class name for a class result; `accessible`, `method` or `field`, the
   * class, the member and the descriptor for a member result.
   */
  lemma AccessWidenerFields(r: MappingsResult)
    requires TabFree(r)
    ensures r.member.None? ==>
      Split(AccessWidener(r), '\t') == ["accessible", "class", r.classNames.named]
    ensures r.member.Some? ==>
      Split(AccessWidener(r), '\t')
        == ["accessible", KindKeyword(r.member.value.kind), r.classNames.named,
            r.member.value.names.named, r.member.value.descriptor]
  {
    match r.member
    case None =>
      ClassWidenerFields(r.classNames.named);
    case Some(m) =>
      var k := KindKeyword(m.kind);
      assert Free(k, '\t');
      MemberWidenerFields(k, r.classNames.named, m.names.named, m.descriptor);
  }

  /** The second field of a member's access-widener entry is `method` exactly for a method. */
  lemma AccessWidenerKind(r: MappingsResult)
    requires TabFree(r) && r.member.Some?
    ensures |Split(AccessWidener(r), '\t')| == 5
    ensures Split(AccessWidener(r), '\t')[1] == "method" <==> r.member.value.kind == MethodDef
  {
    AccessWidenerFields(r);
  }

  /** Every page opens with the class names and closes with the access-widener code block. */
  lemma PageLayout(r: MappingsResult)
    ensures StartsWith(Page(r), ClassSection(r))
    ensures EndsWith(Page(r), Fence + AccessWidener(r) + Fence)
    ensures r.member.None? <==> StartsWith(Page(r)[|ClassSection(r)|..], ClassWidenerHeading)
  {
    var block := Fence + AccessWidener(r) + Fence;
    ThreePieces(ClassSection(r), Middle(r), block);
    var rest := Middle(r) + block;
    if r.member.None? {
      ThreePieces(ClassWidenerHeading, block, "");
      assert rest == ClassWidenerHeading + block + "";
    } else {
      assert rest[4] == Middle(r)[4] == MemberHeading[4];
      assert rest[..|ClassWidenerHeading|][4] == rest[4] == 'M' != ClassWidenerHeading[4];
    }
  }

  /** Builds a page by appending one piece after another, as the command does. */
  method RenderPage(result: MappingsResult) returns (page: string)
    ensures page == Page(result)
  {
    page := "";
    var classDef := result.classNames;
    page := page + ClassHeading;
    assert page == ClassHeading;
    page := page + (OfficialLabel + classDef.official + "`\n");
    page := page + (IntermediaryLabel + classDef.intermediary + "`\n");
    page := page + (YarnLabel + classDef.named + "`\n\n");
    ghost var head := page;
    match result.member
    case None =>
      page := page + ClassWidenerHeading;
      var entry := "accessible\tclass\t" + classDef.named;
      page := page + (Fence + entry + Fence);
    case Some(member) =>
      // `middle` is what has been appended after the class section so far.
      page := page + MemberHeading;
      ghost var middle := MemberHeading;
      page := page + (OfficialLabel + member.names.official + "`\n");
      middle := middle + NameLine(OfficialLabel, member.names.official);
      page := page + (IntermediaryLabel + member.names.intermediary + "`\n");
      middle := middle + NameLine(IntermediaryLabel, member.names.intermediary);
      page := page + (YarnLabel + member.names.named + "`\n\n");
      middle := middle + LastNameLine(YarnLabel, member.names.named);
      assert page == head + middle;
      var kind := if member.kind == MethodDef then "method" else "field";
      page := page + DescriptorHeading;
      middle := middle + DescriptorHeading;
      page := page + (Fence + member.descriptor + "```\n\n");
      middle := middle + (Fence + member.descriptor + "```\n\n");
      page := page + MemberWidenerHeading;
      middle := middle + MemberWidenerHeading;
      assert page == head + middle;
      var entry := "accessible\t" + (kind + "\t") + (classDef.named + "\t")
        + (member.names.named + "\t") + member.descriptor;
      page := page + (Fence + entry + Fence);
  }

  /** The paginator's title: the version and the number of results, pluralised. */
  function Title(version: string, count: nat): string {
    "Minecraft " + version + " / " + NatToString(count) + " result" + (if count > 1 then "s" else "")
  }

  /** The title says "result" for at most one result and "results" for more. */
  lemma TitlePlural(version: string, count: nat)
    ensures count > 1 ==> EndsWith(Title(version, count), " results")
    ensures count <= 1 ==> EndsWith(Title(version, count), " result")
    ensures EndsWith(Title(version, count), "s") <==> count > 1
  {
    var head := "Minecraft " + version + " / " + NatToString(count);
    var t := Title(version, count);
    if count > 1 {
      assert t == head + " results";
      assert t[|t| - |" results"|..] == " results";
    } else {
      assert t == head + " result";
      assert t[|t| - |" result"|..] == " result";
      assert t[|t| - 1] == 't';
    }
  }

  /** The title determines the number of results it announces. */
  lemma TitleDeterminesCount(version: string, m: nat, n: nat)
    requires Title(version, m) == Title(version, n)
    ensures m == n
  {
    var p := "Minecraft " + version + " / ";
    var dm, dn := NatToString(m), NatToString(n);
    var sm := " result" + (if m > 1 then "s" else "");
    var sn := " result" + (if n > 1 then "s" else "");
    var t := Title(version, m);
    assert t == p + (dm + sm);
    assert Title(version, n) == p + (dn + sn);
    var rest := t[|p|..];
    assert rest == dm + sm && rest == dn + sn;
    if |dm| < |dn| {
      assert false;
    } else if |dn| < |dm| {
      assert false;
    }
    assert dm == rest[..|dm|] == dn;
    NatToStringInjective(m, n);
  }

  /**
   * Extending `ys`, the images under `f` of a prefix of `xs`, by the image of
   * the next element. Stated for any `f`, so that it is used without looking
   * inside the images.
   */
  lemma MappedSnoc<A, B>(xs: seq<A>, ys: seq<B>, f: A -> B, y: B)
    requires |ys| < |xs|
    requires forall j :: 0 <= j < |ys| ==> ys[j] == f(xs[j])
    requires y == f(xs[|ys|])
    ensures forall j :: 0 <= j < |ys| + 1 ==> (ys + [y])[j] == f(xs[j])
  {
  }

  /** One page per result, in result order, under the title. */
  method Paginate(version: string, results: seq<MappingsResult>) returns (title: string, pages: seq<string>)
    ensures title == Title(version, |results|)
    ensures |pages| == |results|
    ensures forall i :: 0 <= i < |results| ==> pages[i] == Page(results[i])
  {
    pages := [];
    for i := 0 to |results|
      invariant |pages| == i
      invariant forall j :: 0 <= j < i ==> pages[j] == Page(results[j])
    {
      var page := RenderPage(results[i]);
      MappedSnoc(results, pages, Page, page);
      pages := pages + [page];
    }
    title := Title(version, |results|);
  }
}
