/** The doclet object: its fields, the flag setters that update them, and the builder loops that
    produce its output. Each loop is proved to produce the text the functions of `Render` and
    `Splice` specify. The line separator and the HTML escaping of Apache Commons Lang are given to
    the constructor; the docfile's lines are handed to `NewDocFileText` already read. */
module Doclet {
  import opened Wrappers
  import opened Strings
  import opened OptionModel
  import Render
  import opened Splice
  import opened Flags

  /** The options after `processJavadoc`, each with the description found for it. */
  function WithJdocs(opts: seq<OptionInfo>, root: RootDoc, formatJavadoc: bool, escape: string -> string)
    : (r: seq<OptionInfo>)
    ensures |r| == |opts|
    ensures forall i :: 0 <= i < |opts| ==> r[i] == Render.WithJdoc(opts[i], root, formatJavadoc, escape)
  {
    seq(|opts|, i requires 0 <= i < |opts| => Render.WithJdoc(opts[i], root, formatJavadoc, escape))
  }

  class OptionsDoclet {
    var startDelim: string
    var endDelim: string
    var docFile: Option<string>
    var outFile: Option<string>
    var inPlace: bool
    var formatJavadoc: bool
    var includeClassDoc: bool
    const root: RootDoc
    /** The `Options` instance; the doclet changes the options' descriptions and the dash mode. */
    var options: OptionSet
    /** The `line.separator` system property. */
    const eol: string
    /** `StringEscapeUtils.escapeHtml`. */
    const escape: string -> string

    /** The fields the flags set, and the dash mode of the options. */
    function CurrentSettings(): Settings
      reads this
    {
      Settings(docFile, outFile, inPlace, formatJavadoc, includeClassDoc, startDelim, endDelim, options.singleDash)
    }

    predicate Valid()
      reads this
    {
      options.Valid()
    }

    /** The flattened comment of the first class, when `-classdoc` was given. */
    function ClassComment(): Option<string>
      reads this
      requires includeClassDoc ==> |root.classes| > 0
    {
      if includeClassDoc then Some(Render.JavadocToHtml(root.classes[0].doc)) else None
    }

    /** The text `optionsToHtml` returns for the current state. */
    function Html(): string
      reads this
      requires Valid() && (includeClassDoc ==> |root.classes| > 0)
    {
      Render.HtmlText(options, ClassComment(), escape, eol)
    }

    constructor(root: RootDoc, options: OptionSet, eol: string, escape: string -> string)
      requires options.Valid()
      ensures Valid()
      ensures this.root == root && this.options == options && this.eol == eol && this.escape == escape
      ensures CurrentSettings() == InitialSettings(options.singleDash)
    {
      this.root := root;
      this.options := options;
      this.eol := eol;
      this.escape := escape;
      startDelim := DefaultStartDelim;
      endDelim := DefaultEndDelim;
      docFile := None;
      outFile := None;
      inPlace := false;
      formatJavadoc := false;
      includeClassDoc := false;
    }

    // ------------------------------------------------------------ setters

    /** `setFormatJavadoc`, with the arguments of `removeStart` in the intended order. */
    method SetFormatJavadoc(val: bool)
      requires Valid()
      modifies this
      ensures Valid()
      ensures CurrentSettings() == WithFormatJavadoc(old(CurrentSettings()), val)
      ensures options == old(options)
    {
      if val && !formatJavadoc {
        startDelim := "* " + startDelim;
        endDelim := "* " + endDelim;
      } else if !val && formatJavadoc {
        startDelim := RemoveStart(startDelim, "* ");
        endDelim := RemoveStart(endDelim, "* ");
      }
      formatJavadoc := val;
    }

    /** `getUseSingleDash`. */
    function GetUseSingleDash(): bool
      reads this
    {
      options.singleDash
    }

    /** `setUseSingleDash`: the options are put in single-dash mode whatever `val` is. */
    method SetUseSingleDash(val: bool)
      requires Valid()
      modifies this
      ensures Valid()
      ensures GetUseSingleDash()
      ensures CurrentSettings() == WithSingleDash(old(CurrentSettings()), val)
      ensures options == old(options).(singleDash := true)
    {
      options := options.(singleDash := true);
    }

    /** `setOptions`: the tuples applied in order. Nothing of the options changes but the dash mode. */
    method SetOptions(flags: seq<seq<string>>)
      requires Valid() && AllWellFormed(flags)
      modifies this
      ensures Valid()
      ensures CurrentSettings() == ApplyFlags(old(CurrentSettings()), Parse(flags))
      ensures options == old(options).(singleDash := options.singleDash)
    {
      ghost var args := Parse(flags);
      for oi := 0 to |flags|
        invariant ApplyFlags(old(CurrentSettings()), args) == ApplyFlags(CurrentSettings(), args[oi..])
        invariant options == old(options).(singleDash := options.singleDash)
        invariant Valid()
      {
        ApplyFlagsAt(CurrentSettings(), args, oi);
        ApplyOption(flags[oi]);
      }
    }

    /** One turn of the `setOptions` loop: the tuple `os` updates the setting its flag names. */
    method ApplyOption(os: seq<string>)
      requires Valid() && WellFormed(os)
      modifies this
      ensures Valid()
      ensures CurrentSettings() == ApplyFlag(old(CurrentSettings()), ParseTuple(os))
      ensures options == old(options).(singleDash := options.singleDash)
    {
      var opt := Classify(os[0]);
      if opt == DocFileFlag {
        docFile := Some(os[1]);
      } else if opt == OutFileFlag {
        outFile := Some(os[1]);
      } else if opt == InPlaceFlag {
        inPlace := true;
      } else if opt == FormatFlag {
        if os[1] == "javadoc" {
          SetFormatJavadoc(true);
        }
      } else if opt == ClassDocFlag {
        includeClassDoc := true;
      } else if opt == SingleDashFlag {
        SetUseSingleDash(true);
      }
    }

    // ------------------------------------------------------------ rendering

    /** `optionListToHtml`: one list item per publicized option, in list order. */
    method OptionListToHtml(optList: seq<OptionInfo>, padding: int) returns (r: string)
      ensures r == Join(Render.OptionListLines(optList, padding, options.singleDash, escape), eol)
    {
      var b: seq<string> := [];
      for k := 0 to |optList|
        invariant b == Render.OptionListLines(optList[..k], padding, options.singleDash, escape)
      {
        assert optList[..k + 1][..k] == optList[..k];
        var oi := optList[k];
        if oi.unpublicized {
          continue;
        }
        var optHtml := Render.OptionToHtml(oi, GetUseSingleDash(), escape);
        var bb := Spaces(padding) + "<li>" + optHtml + "</li>";
        b := b + [bb];
      }
      assert optList[..|optList|] == optList;
      r := Join(b, eol);
    }

    /** `optionsToHtml`: the class comment when asked for, then the options in a list, grouped
        when the options use groups. */
    method OptionsToHtml() returns (r: string)
      requires Valid() && (includeClassDoc ==> |root.classes| > 0)
      ensures r == Html()
    {
      var b: seq<string> := [];
      if includeClassDoc {
        b := b + [Render.JavadocToHtml(root.classes[0].doc)];
        b := b + [Render.OptionsHeading];
      }
      b := b + [Render.ListOpen];
      ghost var pre := b;
      assert pre == Render.ClassDocPieces(ClassComment()) + [Render.ListOpen];
      if !options.usingGroups {
        var list := OptionListToHtml(options.options, 2);
        b := b + [list];
      } else {
        var groups, opts := options.groups, options.options;
        for k := 0 to |groups|
          invariant GroupsIn(groups[..k], opts)
          invariant b == pre + Render.GroupsPieces(groups[..k], opts, options.singleDash, escape, eol)
        {
          Render.GroupsPiecesStep(groups, k, opts, options.singleDash, escape, eol);
          var gi := groups[k];
          if ContainsPublicizedOption(gi, opts) {
            b := b + [Render.GroupOpen + gi.name];
            b := b + [Render.GroupListOpen];
            var list := OptionListToHtml(Members(gi, opts), 6);
            b := b + [list];
            b := b + [Render.GroupListClose];
            b := b + [Render.GroupClose];
            GroupAppended(pre, Render.GroupsPieces(groups[..k], opts, options.singleDash, escape, eol),
                          Render.GroupOpen + gi.name, Render.GroupListOpen, list, Render.GroupListClose,
                          Render.GroupClose, b);
          }
        }
        assert groups[..|groups|] == groups;
      }
      b := b + [Render.ListClose];
      r := Join(b, eol);
    }

    /** `optionsToJavadoc`: each line of the HTML after `padding` spaces and "* ". */
    method OptionsToJavadoc(padding: int) returns (r: string)
      requires Valid() && (includeClassDoc ==> |root.classes| > 0)
      ensures r == Render.JavadocText(padding, Html(), eol)
    {
      var b: seq<string> := [];
      var html := OptionsToHtml();
      var s := Lines(html);
      for k := 0 to |s|
        invariant b == Render.JavadocLines(padding, s[..k])
      {
        assert s[..k + 1][..k] == s[..k];
        var bb := Spaces(padding) + "* " + s[k];
        b := b + [bb];
      }
      assert s[..|s|] == s;
      r := Join(b, eol);
    }

    /** `newDocFileText` on the lines of the docfile: the documentation spliced in after the first
        start delimiter, in javadoc format when that format was chosen. */
    method NewDocFileText(docLines: seq<string>) returns (r: string)
      requires Valid() && (includeClassDoc ==> |root.classes| > 0)
      ensures r == Join(NewDocLines(docLines, startDelim, endDelim, InsertedBlock(Html(), formatJavadoc, eol)), eol)
    {
      ghost var block := InsertedBlock(Html(), formatJavadoc, eol);
      ghost var isStart, isEnd := IsDelimiter(startDelim), IsDelimiter(endDelim);
      var b: seq<string> := [];
      var replacing, replacedOnce := false, false;
      for i := 0 to |docLines|
        invariant Scan(docLines, isStart, isEnd, block, Pristine)
               == b + Scan(docLines[i..], isStart, isEnd, block, ScanState(replacing, replacedOnce))
      {
        var docline := docLines[i];
        ghost var st, done := ScanState(replacing, replacedOnce), b;
        assert isStart(docline) == (Trim(docline) == startDelim);
        assert isEnd(docline) == (Trim(docline) == endDelim);
        if replacing {
          if Trim(docline) == endDelim {
            replacing := false;
          } else {
            ScanSkipsAt(docLines, i, isStart, isEnd, block, st);
            continue;
          }
        }
        b := b + [docline];
        if !replacedOnce && Trim(docline) == startDelim {
          ScanInsertsAt(done, docLines, i, isStart, isEnd, block, st);
          var text;
          if formatJavadoc {
            text := OptionsToJavadoc(IndexOf(docline, '*'));
          } else {
            text := OptionsToHtml();
          }
          assert text == block(docline);
          b := b + [text];
          replacedOnce := true;
          replacing := true;
        } else {
          ScanCopiesAt(done, docLines, i, isStart, isEnd, block, st);
        }
      }
      assert docLines[|docLines|..] == [];
      assert b == Scan(docLines, isStart, isEnd, block, Pristine);
      assert block == InsertedBlock(Html(), formatJavadoc, eol);
      assert isStart == IsDelimiter(startDelim) && isEnd == IsDelimiter(endDelim);
      r := Join(b, eol);
    }

    /** `output`: the documentation alone when there is no docfile, else the new docfile text. */
    method Output(docLines: seq<string>) returns (r: string)
      requires Valid() && (includeClassDoc ==> |root.classes| > 0)
      ensures docFile.None? && formatJavadoc ==> r == Render.JavadocText(0, Html(), eol)
      ensures docFile.None? && !formatJavadoc ==> r == Html()
      ensures docFile.Some? ==>
        r == Join(NewDocLines(docLines, startDelim, endDelim, InsertedBlock(Html(), formatJavadoc, eol)), eol)
    {
      if docFile.None? {
        if formatJavadoc {
          r := OptionsToJavadoc(0);
        } else {
          r := OptionsToHtml();
        }
        return;
      }
      r := NewDocFileText(docLines);
    }

    // ------------------------------------------------------------ descriptions

    /** `processJavadoc`: each option gets the description found for its field, and nothing else changes. */
    method ProcessJavadoc()
      requires Valid()
      modifies this
      ensures options == old(options).(options := WithJdocs(old(options.options), root, formatJavadoc, escape))
      ensures CurrentSettings() == old(CurrentSettings())
      ensures Valid()
    {
      var infos := options.options;
      ghost var target := WithJdocs(infos, root, formatJavadoc, escape);
      for i := 0 to |infos|
        modifies {}
        invariant |infos| == |target|
        invariant forall j :: 0 <= j < i ==> infos[j] == target[j]
        invariant forall j :: i <= j < |infos| ==> infos[j] == old(options.options)[j]
      {
        var described := DescribeOption(infos[i]);
        infos := infos[i := described];
      }
      assert infos == target;
      options := options.(options := infos);
    }

    /** One turn of the `processJavadoc` loop: find the declaring class, then the field named after
        the option, and take the description it gives. */
    method DescribeOption(oi: OptionInfo) returns (r: OptionInfo)
      ensures r == Render.WithJdoc(oi, root, formatJavadoc, escape)
    {
      r := oi;
      var optDoc := ClassNamed(root.classes, oi.declaringClass);
      if optDoc.Some? {
        var nameWithUnderscores := ReplaceChar(oi.longName, '-', '_');
        var fields := optDoc.value.fields;
        var k := 0;
        while k < |fields|
          invariant k <= |fields|
          invariant forall j :: 0 <= j < k ==> fields[j].name != nameWithUnderscores
          invariant r == oi
        {
          var fd := fields[k];
          if fd.name == nameWithUnderscores {
            FieldNamedAt(fields, nameWithUnderscores, k);
            Render.WithJdocFound(oi, root, formatJavadoc, escape, optDoc.value, fd);
            var jdoc;
            if |fd.rawCommentText| == 0 {
              jdoc := escape(oi.description);
            } else if formatJavadoc {
              jdoc := fd.commentText;
            } else {
              jdoc := Render.JavadocToHtml(fd.doc);
            }
            assert jdoc == Render.FieldJdoc(fd, oi.description, formatJavadoc, escape);
            r := oi.(jdoc := Some(jdoc));
            return;
          }
          k := k + 1;
        }
        FieldNamedNone(fields, nameWithUnderscores);
        Render.WithJdocMissing(oi, root, formatJavadoc, escape);
      } else {
        Render.WithJdocMissing(oi, root, formatJavadoc, escape);
      }
    }
  }

  /** The five pieces appended for a rendered group, seen as one run after the earlier ones.
      A step of the loop invariant of `OptionsDoclet.OptionsToHtml`. */
  lemma GroupAppended<T>(pre: seq<T>, earlier: seq<T>, x0: T, x1: T, x2: T, x3: T, x4: T, b: seq<T>)
    requires b == pre + earlier + [x0] + [x1] + [x2] + [x3] + [x4]
    ensures b == pre + (earlier + [x0, x1, x2, x3, x4])
  {
  }
}
