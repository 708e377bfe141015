/** The documentation the doclet renders, as functions of the option set: the line for one option
    (`optionToHtml`), the lines of an option list (`optionListToHtml`), the whole HTML list
    (`optionsToHtml`), its javadoc-comment form (`optionsToJavadoc`), the flattening of comment tags
    (`javadocToHtml`) and the description `processJavadoc` chooses for an option. */
module Render {
  import opened Wrappers
  import opened Strings
  import opened OptionModel

  // ---------------------------------------------------------------- one option

  /** The dashes in front of a long option name. */
  function DashPrefix(singleDash: bool): string {
    if singleDash then "-" else "--"
  }

  function ShortNameHtml(shortName: Option<string>): string {
    match shortName
    case None => ""
    case Some(s) => "<b>-" + s + "</b> "
  }

  function AliasHtml(a: string): string {
    "<b>" + a + "</b> "
  }

  /** The aliases, each in bold and followed by a space, in order. */
  function AliasesHtml(aliases: seq<string>): string
    decreases |aliases|
  {
    if |aliases| == 0 then ""
    else AliasesHtml(aliases[..|aliases| - 1]) + AliasHtml(aliases[|aliases| - 1])
  }

  /** The long name in bold, with its dashes and the '=' after it. */
  function LongNameBold(o: OptionInfo, singleDash: bool): string {
    "<b>" + (DashPrefix(singleDash) + (o.longName + "=</b>"))
  }

  /** The type name in italics and the full stop after it. */
  function TypeHtml(o: OptionInfo): string {
    "<i>" + (o.typeName + "</i>. ")
  }

  /** The default part of an option's line, before HTML escaping. */
  function DefaultText(defaultStr: Option<string>): (r: string)
    ensures r == "no default" <==> defaultStr.None?
  {
    match defaultStr
    case None => "no default"
    case Some(d) =>
      assert ("default " + d)[0] == 'd';
      "default " + d
  }

  /** The description of an option, empty while none was found. */
  function JdocText(jdoc: Option<string>): string {
    match jdoc
    case None => ""
    case Some(j) => j
  }

  /** The end of an option's line: its description and its escaped default part in brackets. */
  function DescriptionHtml(o: OptionInfo, escape: string -> string): string {
    JdocText(o.jdoc) + (" [" + (escape(DefaultText(o.defaultStr)) + "]"))
  }

  /** `optionToHtml`: the HTML line describing option `o`, piece by piece as the builder receives them. */
  function OptionToHtml(o: OptionInfo, singleDash: bool, escape: string -> string): string {
    ShortNameHtml(o.shortName) + (AliasesHtml(o.aliases) + (LongNameBold(o, singleDash)
      + (TypeHtml(o) + DescriptionHtml(o, escape))))
  }

  /** The aliases of two runs are the aliases of each, one after the other. */
  lemma {:induction false} AliasesHtmlAppend(a: seq<string>, b: seq<string>)
    ensures AliasesHtml(a + b) == AliasesHtml(a) + AliasesHtml(b)
    decreases |b|
  {
    if |b| == 0 {
      assert a + b == a;
    } else {
      var b' := b[..|b| - 1];
      assert (a + b)[..|a + b| - 1] == a + b';
      assert (a + b)[|a + b| - 1] == b[|b| - 1];
      AliasesHtmlAppend(a, b');
    }
  }

  /** The first alias is rendered first. */
  lemma FirstAlias(aliases: seq<string>)
    requires |aliases| > 0
    ensures AliasesHtml(aliases) == AliasHtml(aliases[0]) + AliasesHtml(aliases[1..])
  {
    var x := aliases[0];
    assert [x][..0] == [];
    assert AliasesHtml([x]) == "" + AliasHtml(x);
    EmptyAppend(AliasHtml(x));
    AliasesHtmlAppend([x], aliases[1..]);
    assert [x] + aliases[1..] == aliases;
  }

  /** A line made of a short name, aliases and a rest starts with the short name in bold; without
      one, with the first alias in bold; without aliases, with the rest. */
  lemma LineStart(short: Option<string>, aliases: seq<string>, rest: string)
    ensures short.Some? ==> "<b>-" + short.value + "</b> " <= ShortNameHtml(short) + (AliasesHtml(aliases) + rest)
    ensures short.None? && |aliases| > 0 ==> AliasHtml(aliases[0]) <= ShortNameHtml(short) + (AliasesHtml(aliases) + rest)
    ensures short.None? && |aliases| == 0 ==> rest <= ShortNameHtml(short) + (AliasesHtml(aliases) + rest)
  {
    if short.Some? {
      PrefixOfAppend(ShortNameHtml(short), AliasesHtml(aliases) + rest);
    } else if |aliases| > 0 {
      var first, others := AliasHtml(aliases[0]), AliasesHtml(aliases[1..]);
      FirstAlias(aliases);
      AppendAssoc(first, others, rest);
      PrefixOfAppend(first, others + rest);
    } else {
      assert ShortNameHtml(short) + (AliasesHtml(aliases) + rest) == rest;
    }
  }

  /** What an option's line starts with: its short name in bold, else its first alias in bold, else
      its long name in bold. */
  lemma OptionToHtmlStart(o: OptionInfo, singleDash: bool, escape: string -> string)
    ensures o.shortName.Some? ==> "<b>-" + o.shortName.value + "</b> " <= OptionToHtml(o, singleDash, escape)
    ensures o.shortName.None? && |o.aliases| > 0 ==> AliasHtml(o.aliases[0]) <= OptionToHtml(o, singleDash, escape)
    ensures o.shortName.None? && |o.aliases| == 0 ==> LongNameBold(o, singleDash) <= OptionToHtml(o, singleDash, escape)
  {
    var tail := TypeHtml(o) + DescriptionHtml(o, escape);
    LineStart(o.shortName, o.aliases, LongNameBold(o, singleDash) + tail);
    PrefixOfAppend(LongNameBold(o, singleDash), tail);
  }

  /** What an option's line ends with: its type, its description and its escaped default part. */
  lemma OptionToHtmlEnd(o: OptionInfo, singleDash: bool, escape: string -> string)
    ensures EndsWith(OptionToHtml(o, singleDash, escape), TypeHtml(o) + DescriptionHtml(o, escape))
  {
    var tail := TypeHtml(o) + DescriptionHtml(o, escape);
    var long := LongNameBold(o, singleDash);
    EndsWithAppended(long, tail, tail);
    EndsWithAppended(AliasesHtml(o.aliases), long + tail, tail);
    EndsWithAppended(ShortNameHtml(o.shortName), AliasesHtml(o.aliases) + (long + tail), tail);
  }

  /** Single-dash mode changes one thing in an option's line: the long name has one dash in front
      of it instead of two. */
  lemma SingleDashDropsOneDash(o: OptionInfo, escape: string -> string)
    ensures var single := OptionToHtml(o, true, escape);
      var k := |ShortNameHtml(o.shortName)| + |AliasesHtml(o.aliases)| + 3;
      k < |single| && OptionToHtml(o, false, escape) == single[..k] + "-" + single[k..]
  {
    var short, aliases := ShortNameHtml(o.shortName), AliasesHtml(o.aliases);
    var q := "-" + (o.longName + "=</b>");
    var tail := TypeHtml(o) + DescriptionHtml(o, escape);
    assert LongNameBold(o, true) == "<b>" + q;
    assert LongNameBold(o, false) == "<b>" + ("-" + q) by {
      assert "--" + (o.longName + "=</b>") == "-" + q;
    }
    var pre := short + (aliases + "<b>");
    var single := OptionToHtml(o, true, escape);
    assert single == pre + (q + tail) by {
      assert aliases + (("<b>" + q) + tail) == (aliases + "<b>") + (q + tail);
    }
    assert OptionToHtml(o, false, escape) == pre + ("-" + (q + tail)) by {
      assert aliases + (("<b>" + ("-" + q)) + tail) == (aliases + "<b>") + ("-" + (q + tail));
    }
    assert single[..|pre|] == pre;
    assert single[|pre|..] == q + tail;
  }

  // ---------------------------------------------------------------- option lists

  /** One entry of an option list: `padding` spaces and the option's line as an HTML list item. */
  function ListItem(o: OptionInfo, padding: int, singleDash: bool, escape: string -> string): string {
    Spaces(padding) + "<li>" + OptionToHtml(o, singleDash, escape) + "</li>"
  }

  /** The lines `optionListToHtml` appends for `opts`: one list item per publicized option, in
      list order. */
  function OptionListLines(opts: seq<OptionInfo>, padding: int, singleDash: bool, escape: string -> string)
    : (r: seq<string>)
    ensures |r| == |Publicized(opts)|
    ensures forall i :: 0 <= i < |r| ==> r[i] == ListItem(Publicized(opts)[i], padding, singleDash, escape)
    decreases |opts|
  {
    if |opts| == 0 then []
    else
      var last := opts[|opts| - 1];
      OptionListLines(opts[..|opts| - 1], padding, singleDash, escape)
        + (if last.unpublicized then [] else [ListItem(last, padding, singleDash, escape)])
  }

  // ---------------------------------------------------------------- the whole list

  /** The fixed lines of the HTML list markup. */
  const ListOpen := "<ul>"
  const ListClose := "</ul>"
  const GroupOpen := "  <li>"
  const GroupListOpen := "    <ul>"
  const GroupListClose := "    </ul>"
  const GroupClose := "  </li>"

  /** The two pieces that open a rendered group, and the two that close it. */
  function GroupHead(g: GroupInfo): seq<string> {
    [GroupOpen + g.name, GroupListOpen]
  }

  const GroupFoot: seq<string> := [GroupListClose, GroupClose]

  /** The five pieces `optionsToHtml` appends for a group it renders; the third is the text of the
      group's option list. */
  function GroupPieces(g: GroupInfo, opts: seq<OptionInfo>, singleDash: bool, escape: string -> string, eol: string)
    : seq<string>
    requires MembersIn(g, opts)
  {
    GroupHead(g) + [Join(OptionListLines(Members(g, opts), 6, singleDash, escape), eol)] + GroupFoot
  }

  /** The pieces of the grouped part of the HTML, group by group, skipping the groups without a
      publicized option. */
  function GroupsPieces(gs: seq<GroupInfo>, opts: seq<OptionInfo>, singleDash: bool, escape: string -> string, eol: string)
    : seq<string>
    requires GroupsIn(gs, opts)
    decreases |gs|
  {
    if |gs| == 0 then []
    else
      var g := gs[|gs| - 1];
      var earlier := GroupsPieces(gs[..|gs| - 1], opts, singleDash, escape, eol);
      if ContainsPublicizedOption(g, opts) then earlier + GroupPieces(g, opts, singleDash, escape, eol) else earlier
  }

  /** The five pieces of a rendered group, one by one. A step of `GroupsPiecesStep`. */
  lemma GroupPiecesAre(g: GroupInfo, opts: seq<OptionInfo>, singleDash: bool, escape: string -> string, eol: string)
    requires MembersIn(g, opts)
    ensures GroupPieces(g, opts, singleDash, escape, eol)
         == [GroupOpen + g.name, GroupListOpen, Join(OptionListLines(Members(g, opts), 6, singleDash, escape), eol),
             GroupListClose, GroupClose]
  {
  }

  /** Rendering one more group appends its five pieces, or nothing when it has no publicized option. */
  lemma GroupsPiecesStep(gs: seq<GroupInfo>, k: nat, opts: seq<OptionInfo>, singleDash: bool, escape: string -> string,
                         eol: string)
    requires GroupsIn(gs, opts) && k < |gs|
    ensures GroupsIn(gs[..k], opts) && GroupsIn(gs[..k + 1], opts) && MembersIn(gs[k], opts)
    ensures GroupsPieces(gs[..k + 1], opts, singleDash, escape, eol)
         == GroupsPieces(gs[..k], opts, singleDash, escape, eol)
            + (if ContainsPublicizedOption(gs[k], opts)
               then [GroupOpen + gs[k].name, GroupListOpen,
                     Join(OptionListLines(Members(gs[k], opts), 6, singleDash, escape), eol),
                     GroupListClose, GroupClose]
               else [])
  {
    assert gs[..k + 1][..k] == gs[..k];
    GroupPiecesAre(gs[k], opts, singleDash, escape, eol);
  }

  /** The groups `optionsToHtml` renders: exactly those of `gs` that contain a publicized
      option, none left out (their order is `RenderedGroupsAppend`). */
  function RenderedGroups(gs: seq<GroupInfo>, opts: seq<OptionInfo>): (r: seq<GroupInfo>)
    requires GroupsIn(gs, opts)
    ensures GroupsIn(r, opts)
    ensures |r| <= |gs|
    ensures forall k :: 0 <= k < |r| ==> r[k] in gs && ContainsPublicizedOption(r[k], opts)
    ensures forall k :: 0 <= k < |gs| && ContainsPublicizedOption(gs[k], opts) ==> gs[k] in r
    decreases |gs|
  {
    if |gs| == 0 then []
    else
      var n := |gs| - 1;
      var earlier := RenderedGroups(gs[..n], opts);
      assert forall k :: 0 <= k < n ==> gs[..n][k] == gs[k];
      if ContainsPublicizedOption(gs[n], opts) then earlier + [gs[n]] else earlier
  }

  /** The last group is rendered after the others exactly when it contains a publicized option. */
  lemma RenderedGroupsLast(gs: seq<GroupInfo>, opts: seq<OptionInfo>)
    requires GroupsIn(gs, opts) && |gs| > 0
    ensures GroupsIn(gs[..|gs| - 1], opts)
    ensures RenderedGroups(gs, opts) == RenderedGroups(gs[..|gs| - 1], opts)
      + (if ContainsPublicizedOption(gs[|gs| - 1], opts) then [gs[|gs| - 1]] else [])
  {
  }

  /** Two runs of groups over the same options make one. */
  lemma GroupsInAppend(a: seq<GroupInfo>, b: seq<GroupInfo>, opts: seq<OptionInfo>)
    requires GroupsIn(a, opts) && GroupsIn(b, opts)
    ensures GroupsIn(a + b, opts)
  {
    forall k | 0 <= k < |a + b|
      ensures MembersIn((a + b)[k], opts)
    {
      if k < |a| { assert (a + b)[k] == a[k]; } else { assert (a + b)[k] == b[k - |a|]; }
    }
  }

  /** The groups are rendered in their order: those of two runs of groups are those of the first
      run followed by those of the second. */
  lemma {:induction false} RenderedGroupsAppend(a: seq<GroupInfo>, b: seq<GroupInfo>, opts: seq<OptionInfo>)
    requires GroupsIn(a, opts) && GroupsIn(b, opts)
    ensures GroupsIn(a + b, opts)
    ensures RenderedGroups(a + b, opts) == RenderedGroups(a, opts) + RenderedGroups(b, opts)
    decreases |b|
  {
    GroupsInAppend(a, b, opts);
    if |b| > 0 {
      var n := |b| - 1;
      GroupsInAppend(a, b[..n], opts);
      var tail := if ContainsPublicizedOption(b[n], opts) then [b[n]] else [];
      RenderedGroupsLast(a + b, opts);
      assert (a + b)[..|a + b| - 1] == a + b[..n] && (a + b)[|a + b| - 1] == b[n];
      RenderedGroupsLast(b, opts);
      RenderedGroupsAppend(a, b[..n], opts);
      AppendAssoc(RenderedGroups(a, opts), RenderedGroups(b[..n], opts), tail);
    } else {
      assert a + b == a;
    }
  }

  /** `p` holds, five pieces at a time, the pieces of the groups of `r`. */
  ghost predicate BlocksOf(p: seq<string>, r: seq<GroupInfo>, opts: seq<OptionInfo>, singleDash: bool,
                           escape: string -> string, eol: string)
    requires GroupsIn(r, opts)
  {
    && |p| == 5 * |r|
    && forall k :: 0 <= k < |r| ==> p[5 * k..5 * k + 5] == GroupPieces(r[k], opts, singleDash, escape, eol)
  }

  /** Appending one more group's pieces appends one more block. */
  lemma BlocksOfSnoc(p: seq<string>, r: seq<GroupInfo>, g: GroupInfo, opts: seq<OptionInfo>, singleDash: bool,
                     escape: string -> string, eol: string)
    requires GroupsIn(r, opts) && MembersIn(g, opts)
    requires BlocksOf(p, r, opts, singleDash, escape, eol)
    ensures GroupsIn(r + [g], opts)
    ensures BlocksOf(p + GroupPieces(g, opts, singleDash, escape, eol), r + [g], opts, singleDash, escape, eol)
  {
    var block := GroupPieces(g, opts, singleDash, escape, eol);
    assert |block| == 5;
    forall k | 0 <= k < |r| + 1
      ensures (p + block)[5 * k..5 * k + 5] == GroupPieces((r + [g])[k], opts, singleDash, escape, eol)
    {
      if k < |r| {
        SliceOfAppend(p, block, 5 * k, 5 * k + 5);
      } else {
        SliceOfAppend(p, block, |p|, |p| + 5);
      }
    }
  }

  /** The grouped HTML consists of one block of five pieces per group that contains a publicized
      option, in order: a group with no publicized option leaves no trace. */
  lemma {:induction false} GroupsPiecesBlocks(gs: seq<GroupInfo>, opts: seq<OptionInfo>, singleDash: bool,
                                             escape: string -> string, eol: string)
    requires GroupsIn(gs, opts)
    ensures BlocksOf(GroupsPieces(gs, opts, singleDash, escape, eol), RenderedGroups(gs, opts), opts, singleDash,
                     escape, eol)
    decreases |gs|
  {
    if |gs| > 0 {
      var gs', g := gs[..|gs| - 1], gs[|gs| - 1];
      GroupsPiecesBlocks(gs', opts, singleDash, escape, eol);
      if ContainsPublicizedOption(g, opts) {
        BlocksOfSnoc(GroupsPieces(gs', opts, singleDash, escape, eol), RenderedGroups(gs', opts), g, opts,
                     singleDash, escape, eol);
      }
    }
  }

  const OptionsHeading := "<p>Command line options: </p>"

  /** The flattened comment of the first class, and the line after it, when `-classdoc` was given. */
  function ClassDocPieces(classDoc: Option<string>): seq<string> {
    match classDoc
    case None => []
    case Some(c) => [c, OptionsHeading]
  }

  /** The pieces `optionsToHtml` appends, in order. */
  function HtmlPieces(os: OptionSet, classDoc: Option<string>, escape: string -> string, eol: string): seq<string>
    requires os.Valid()
  {
    ClassDocPieces(classDoc) + [ListOpen]
      + (if !os.usingGroups then [Join(OptionListLines(os.options, 2, os.singleDash, escape), eol)]
         else GroupsPieces(os.groups, os.options, os.singleDash, escape, eol))
      + [ListClose]
  }

  /** `optionsToHtml`: the pieces joined with the line separator. */
  function HtmlText(os: OptionSet, classDoc: Option<string>, escape: string -> string, eol: string): string
    requires os.Valid()
  {
    Join(HtmlPieces(os, classDoc, escape, eol), eol)
  }

  /** The lines of one rendered group once its option list is spelled out. */
  function GroupLines(g: GroupInfo, opts: seq<OptionInfo>, singleDash: bool, escape: string -> string): seq<string>
    requires MembersIn(g, opts)
  {
    GroupHead(g) + Expanded(OptionListLines(Members(g, opts), 6, singleDash, escape)) + GroupFoot
  }

  function GroupsLines(gs: seq<GroupInfo>, opts: seq<OptionInfo>, singleDash: bool, escape: string -> string)
    : seq<string>
    requires GroupsIn(gs, opts)
    decreases |gs|
  {
    if |gs| == 0 then []
    else
      var g := gs[|gs| - 1];
      var earlier := GroupsLines(gs[..|gs| - 1], opts, singleDash, escape);
      if ContainsPublicizedOption(g, opts) then earlier + GroupLines(g, opts, singleDash, escape) else earlier
  }

  /** The lines of the HTML: the class comment if requested, `<ul>`, the option items (flat, or
      group by group), `</ul>`. */
  function HtmlLines(os: OptionSet, classDoc: Option<string>, escape: string -> string): seq<string>
    requires os.Valid()
  {
    ClassDocPieces(classDoc) + [ListOpen]
      + (if !os.usingGroups then Expanded(OptionListLines(os.options, 2, os.singleDash, escape))
         else GroupsLines(os.groups, os.options, os.singleDash, escape))
      + [ListClose]
  }

  /** Spelling out the option lists of the groups does not change the joined text. */
  lemma {:induction false} GroupsFlatten(a: seq<string>, gs: seq<GroupInfo>, opts: seq<OptionInfo>,
                                         singleDash: bool, escape: string -> string, eol: string, c: seq<string>)
    requires GroupsIn(gs, opts)
    ensures Join(a + GroupsPieces(gs, opts, singleDash, escape, eol) + c, eol)
         == Join(a + GroupsLines(gs, opts, singleDash, escape) + c, eol)
    decreases |gs|
  {
    if |gs| > 0 {
      var gs', g := gs[..|gs| - 1], gs[|gs| - 1];
      var p' := GroupsPieces(gs', opts, singleDash, escape, eol);
      var l' := GroupsLines(gs', opts, singleDash, escape);
      if ContainsPublicizedOption(g, opts) {
        var inner := OptionListLines(Members(g, opts), 6, singleDash, escape);
        var head := GroupHead(g);
        var gl := GroupLines(g, opts, singleDash, escape);
        Regroup(a, p', head, [Join(inner, eol)], GroupFoot, c);
        JoinFlatten(a + p' + head, inner, GroupFoot + c, eol);
        Regroup(a, p', head, Expanded(inner), GroupFoot, c);
        GroupsFlatten(a, gs', opts, singleDash, escape, eol, gl + c);
        Regroup(a, l', head, Expanded(inner), GroupFoot, c);
      } else {
        assert GroupsPieces(gs, opts, singleDash, escape, eol) == p';
        assert GroupsLines(gs, opts, singleDash, escape) == l';
        GroupsFlatten(a, gs', opts, singleDash, escape, eol, c);
      }
    }
  }

  /** The HTML text is its lines joined with the line separator. */
  lemma HtmlTextIsLines(os: OptionSet, classDoc: Option<string>, escape: string -> string, eol: string)
    requires os.Valid()
    ensures HtmlText(os, classDoc, escape, eol) == Join(HtmlLines(os, classDoc, escape), eol)
  {
    var a := ClassDocPieces(classDoc) + [ListOpen];
    if !os.usingGroups {
      JoinFlatten(a, OptionListLines(os.options, 2, os.singleDash, escape), [ListClose], eol);
    } else {
      GroupsFlatten(a, os.groups, os.options, os.singleDash, escape, eol, [ListClose]);
    }
  }

  // ---------------------------------------------------------------- javadoc format

  /** The comment lines `optionsToJavadoc` makes of `lines`: each one after `padding` spaces and "* ". */
  function JavadocLines(padding: int, lines: seq<string>): (r: seq<string>)
    ensures |r| == |lines|
    ensures forall i :: 0 <= i < |r| ==> r[i] == Spaces(padding) + "* " + lines[i]
    decreases |lines|
  {
    if |lines| == 0 then []
    else JavadocLines(padding, lines[..|lines| - 1]) + [Spaces(padding) + "* " + lines[|lines| - 1]]
  }

  /** `optionsToJavadoc(padding)` applied to the HTML text `html`. */
  function JavadocText(padding: int, html: string, eol: string): string {
    Join(JavadocLines(padding, Lines(html)), eol)
  }

  /** When no rendered line holds a line terminator, the javadoc form has exactly the lines of the
      HTML, each prefixed with `padding` spaces and "* ". */
  lemma JavadocMirrorsHtml(os: OptionSet, classDoc: Option<string>, escape: string -> string, eol: string,
                           padding: int)
    requires os.Valid() && IsLineSeparator(eol)
    requires var lines := HtmlLines(os, classDoc, escape);
      forall i :: 0 <= i < |lines| ==> HasNoTerminator(lines[i])
    ensures Lines(HtmlText(os, classDoc, escape, eol)) == HtmlLines(os, classDoc, escape)
    ensures var lines, doc := HtmlLines(os, classDoc, escape), JavadocLines(padding, Lines(HtmlText(os, classDoc, escape, eol)));
      |doc| == |lines| && forall i :: 0 <= i < |doc| ==> doc[i] == Spaces(padding) + "* " + lines[i]
  {
    HtmlTextIsLines(os, classDoc, escape, eol);
    LinesOfJoin(HtmlLines(os, classDoc, escape), eol);
  }

  /** Whatever the HTML, the javadoc form read back line by line has one comment line per HTML
      line: the HTML line after `padding` spaces and "* ". */
  lemma JavadocKeepsLines(padding: int, html: string, eol: string)
    requires IsLineSeparator(eol)
    ensures Lines(JavadocText(padding, html, eol)) == JavadocLines(padding, Lines(html))
    ensures |Lines(JavadocText(padding, html, eol))| == |Lines(html)|
  {
    var lines := Lines(html);
    var doc := JavadocLines(padding, lines);
    LinesHaveNoTerminator(html);
    forall i | 0 <= i < |doc|
      ensures HasNoTerminator(doc[i])
    {
      assert doc[i] == Spaces(padding) + "* " + lines[i];
      assert HasNoTerminator(lines[i]);
    }
    if |doc| > 0 {
      assert |doc[|doc| - 1]| >= 2;
    }
    LinesOfJoin(doc, eol);
  }

  // ---------------------------------------------------------------- comment tags

  function Code(s: string): string {
    "<code>" + s + "</code>"
  }

  /** An inline tag as HTML: a reference in code style, plain text as it is. */
  function TagHtml(t: Tag): string {
    if t.isSee then Code(t.text) else t.text
  }

  function InlineHtml(tags: seq<Tag>): string
    decreases |tags|
  {
    if |tags| == 0 then "" else InlineHtml(tags[..|tags| - 1]) + TagHtml(tags[|tags| - 1])
  }

  /** The block `@see` tags as a sentence of code-styled references, or nothing when there are none. */
  function SeeAlsoHtml(seeTags: seq<string>): (r: string)
    ensures r == "" <==> |seeTags| == 0
    ensures |seeTags| > 0 ==> |r| > 6 && r[..6] == " See: " && r[|r| - 1] == '.'
  {
    if |seeTags| > 0
    then " See: " + Join(seq(|seeTags|, i requires 0 <= i < |seeTags| => Code(seeTags[i])), ", ") + "."
    else ""
  }

  /** `javadocToHtml`: the inline tags flattened, then the block `@see` tags. The text is the
      flattened inline tags alone exactly when there is no block `@see` tag. */
  function JavadocToHtml(d: DocComment): (r: string)
    ensures r == InlineHtml(d.inlineTags) <==> |d.seeTags| == 0
  {
    InlineHtml(d.inlineTags) + SeeAlsoHtml(d.seeTags)
  }

  /** Flattening distributes over a split of the tags. */
  lemma {:induction false} InlineHtmlAppend(a: seq<Tag>, b: seq<Tag>)
    ensures InlineHtml(a + b) == InlineHtml(a) + InlineHtml(b)
    decreases |b|
  {
    if |b| == 0 {
      assert a + b == a;
    } else {
      var b' := b[..|b| - 1];
      assert (a + b)[..|a + b| - 1] == a + b';
      assert (a + b)[|a + b| - 1] == b[|b| - 1];
      InlineHtmlAppend(a, b');
    }
  }

  /** Each tag contributes its own HTML at its own place: references in code style, text unchanged. */
  lemma {:induction false} InlineHtmlAt(tags: seq<Tag>, k: nat)
    requires k < |tags|
    ensures InlineHtml(tags) == InlineHtml(tags[..k]) + TagHtml(tags[k]) + InlineHtml(tags[k + 1..])
  {
    var pre, t, post := tags[..k], tags[k], tags[k + 1..];
    assert tags == (pre + [t]) + post;
    InlineHtmlAppend(pre + [t], post);
    assert (pre + [t])[..|pre + [t]| - 1] == pre;
  }

  // ---------------------------------------------------------------- descriptions

  /** The description `processJavadoc` takes from a field's comment: the escaped `@Option`
      description when the comment is empty, else the comment text in javadoc format, else the
      flattened comment. */
  function FieldJdoc(fd: FieldDoc, description: string, formatJavadoc: bool, escape: string -> string): string {
    if |fd.rawCommentText| == 0 then escape(description)
    else if formatJavadoc then fd.commentText
    else JavadocToHtml(fd.doc)
  }

  /** The description `processJavadoc` finds for `o`: none when its declaring class or its field
      (the long name with '-' read as '_') is not in the javadoc tree. */
  function ChosenJdoc(o: OptionInfo, root: RootDoc, formatJavadoc: bool, escape: string -> string): Option<string> {
    match ClassNamed(root.classes, o.declaringClass)
    case None => None
    case Some(c) =>
      match FieldNamed(c.fields, ReplaceChar(o.longName, '-', '_'))
      case None => None
      case Some(fd) => Some(FieldJdoc(fd, o.description, formatJavadoc, escape))
  }

  /** Option `o` after `processJavadoc`: only its description can have changed. */
  function WithJdoc(o: OptionInfo, root: RootDoc, formatJavadoc: bool, escape: string -> string): (r: OptionInfo)
    ensures r.(jdoc := o.jdoc) == o
    ensures r.jdoc == match ChosenJdoc(o, root, formatJavadoc, escape) case None => o.jdoc case Some(j) => Some(j)
  {
    match ChosenJdoc(o, root, formatJavadoc, escape)
    case None => o
    case Some(j) => o.(jdoc := Some(j))
  }

  /** When the declaring class and the field are found, the option takes the field's description. */
  lemma WithJdocFound(o: OptionInfo, root: RootDoc, formatJavadoc: bool, escape: string -> string, c: ClassDoc,
                      fd: FieldDoc)
    requires ClassNamed(root.classes, o.declaringClass) == Some(c)
    requires FieldNamed(c.fields, ReplaceChar(o.longName, '-', '_')) == Some(fd)
    ensures WithJdoc(o, root, formatJavadoc, escape) == o.(jdoc := Some(FieldJdoc(fd, o.description, formatJavadoc, escape)))
  {
  }

  /** When the declaring class or the field is missing, the option keeps its description. */
  lemma WithJdocMissing(o: OptionInfo, root: RootDoc, formatJavadoc: bool, escape: string -> string)
    requires match ClassNamed(root.classes, o.declaringClass)
      case None => true
      case Some(c) => FieldNamed(c.fields, ReplaceChar(o.longName, '-', '_')).None?
    ensures WithJdoc(o, root, formatJavadoc, escape) == o
  {
  }
}
