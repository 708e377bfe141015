# OptionsDoclet

A model of plume-lib's `OptionsDoclet`. This javadoc doclet documents the `@Option`-annotated
fields of a program as HTML. It can write the HTML on its own, format it as a javadoc
comment, or splice it into a docfile between a start delimiter line and an end delimiter line.

The modules follow the doclet's structure:

- `strings.dfy` (`Strings`) supplies the platform string operations the doclet uses. These
  include `trim`, `toLowerCase`, `indexOf`, `replace`, `StringUtils.repeat`,
  `StringUtils.removeStart`, the line-separated builder (`Join`) and `Scanner` line splitting
  (`Lines`).
- `options_model.dfy` (`OptionModel`) holds the option metadata the doclet reads: the option
  records, the option groups and the javadoc tree of classes, fields and comment tags.
- `flags.dfy` (`Flags`) covers the doclet's own flags:
  - `optionLength`;
  - `validOptions`, as a specification function, a loop method and a declarative
    characterization;
  - `setOptions`, `setFormatJavadoc` and `setUseSingleDash`, as functions on the doclet's
    settings.
- `render.dfy` (`Render`) specifies the produced HTML:
  - one option's line;
  - option lists and the grouped list;
  - the javadoc-comment form;
  - how comment tags are flattened;
  - the description `processJavadoc` chooses for an option.
- `splice.dfy` (`Splice`) specifies the scan `newDocFileText` makes over the docfile, and
  proves a closed form of it.
- `doclet.dfy` (`Doclet`) holds the class `OptionsDoclet`. It has the doclet's fields, the
  setters that update them, and the builder loops. Each loop is proved to produce what the
  functions above specify.

Some things the doclet gets from its environment are inputs to the model:

- The line separator and the HTML escaping function are constructor arguments.
- File existence (`new File(f).exists()`) is an oracle given to `ValidOptions`.
- The docfile's lines are given to `NewDocFileText` already read.

## Model

| member | source | states |
|---|---|---|
| Flags.OptionLength | java/src/plume/OptionsDoclet.java:179-195 | The length is 2 exactly for `-docfile`, `-outfile` and `-format`; 1 exactly for `-help`, `-i`, `-classdoc` and `-singledash`; and 0 exactly for every other name. |
| Flags.ArityGivesWellFormed | java/src/plume/OptionsDoclet.java:179-195 | A tuple as long as `optionLength` says carries a value whenever its lowercased flag is one that takes a value. |
| Flags.ClassifyIgnoresCase | java/src/plume/OptionsDoclet.java:214 | Flag names are recognised regardless of the case of their letters: lowercasing a name first changes nothing. |
| Strings.ToLowerIdempotent | java/src/plume/OptionsDoclet.java:214 | Lowercasing an already lowercased name changes nothing. |
| Flags.ValidOptions | java/src/plume/OptionsDoclet.java:204-264 | The loop returns the verdict `Validate` specifies, including the message of the first error it reports. |
| Flags.ValidateCharacterized | java/src/plume/OptionsDoclet.java:204-264 | The flags are accepted if and only if: `-docfile`, `-outfile` and `-format` each occur at most once; the docfile exists; the format is `javadoc`; `-i` and `-outfile` do not both occur (in either order); and the docfile differs from the outfile. |
| Flags.Validate | java/src/plume/OptionsDoclet.java:204-264 | Defined as the verdict of the loop over the parsed tuples from the initial state, followed by the check that the docfile and the outfile differ. |
| Flags.ValidateFrom | java/src/plume/OptionsDoclet.java:212-258 | Defined as the loop over the tuples: each tuple is validated in turn from the state the previous ones left. The first rejected tuple stops the loop with its message. |
| Flags.FinalVerdict | java/src/plume/OptionsDoclet.java:259-263 | Defined as the last step: a rejection from the loop is reported as is. If both a docfile and an outfile were given and they are the same name, the result is a rejection for that. Otherwise the options are accepted. |
| Flags.ValidateStep | java/src/plume/OptionsDoclet.java:215-257 | A tuple accepted for `-docfile` names an existing file and becomes the docfile. One accepted for `-format` names `javadoc`. Files already held are kept. An accepted tuple keeps the state consistent: no `-i` together with an outfile. |
| Flags.ValidateFromCharacterized | java/src/plume/OptionsDoclet.java:212-258 | From a consistent state, the loop gets through the remaining tuples if and only if they are acceptable from that state. It then holds the first docfile and outfile given, or the ones it already had. |
| Flags.StepErrShowsConflict | java/src/plume/OptionsDoclet.java:215-257 | A tuple the loop rejects really violates one of the acceptance conditions. |
| Flags.StepOkShiftsAcceptance | java/src/plume/OptionsDoclet.java:215-257 | A tuple the loop accepts keeps its state consistent, moves the acceptance question to the next state, and keeps the files the run ends with. |
| Flags.ValidatedSettingsConsistent | java/src/plume/OptionsDoclet.java:204-289 | Flags `validOptions` accepts make `setOptions` leave: no in-place editing together with an outfile; an existing docfile; and a docfile different from the outfile. |
| Flags.ApplyFlagsEffect | java/src/plume/OptionsDoclet.java:270-289 | After `setOptions`: the docfile and outfile are the last ones given, or the ones held. `-i`, `-classdoc` and `-singledash` switch their settings on and never off. The javadoc format is on exactly when it was on already or `-format javadoc` occurs. The delimiters then carry "* " in front once. |
| Flags.ApplyFlagsClosedForm | java/src/plume/OptionsDoclet.java:270-289 | The tuples applied one by one give the settings their tally determines, in closed form. |
| Flags.ApplyFlags | java/src/plume/OptionsDoclet.java:270-289 | Defined as the tuples applied one by one, in order, each by `ApplyFlag`. |
| Flags.ApplyFlag | java/src/plume/OptionsDoclet.java:273-287 | A tuple sets the docfile or the outfile to its value, and switches in-place editing, class documentation and single-dash mode on for its flag. It switches the javadoc format on only for `-format javadoc`, and then puts "* " in front of both delimiters if the format was off. Every other setting is kept. |
| Flags.WithFormatJavadoc | java/src/plume/OptionsDoclet.java:514-523 | The corrected setter sets the format flag to `val` and changes nothing else except the delimiters. |
| Flags.FormatJavadocOnce | java/src/plume/OptionsDoclet.java:514-517 | Switching the javadoc format on puts "* " in front of each delimiter once. A second call changes nothing. |
| Flags.FormatJavadocRoundTrip | java/src/plume/OptionsDoclet.java:514-523 | With the corrected setter, switching the javadoc format on and then off restores the settings. |
| Flags.WithFormatJavadocAsWritten | java/src/plume/OptionsDoclet.java:514-523 | The setter as written sets the format flag to `val` and changes nothing else except the delimiters. |
| Flags.FormatJavadocOffLosesDelimiters | java/src/plume/OptionsDoclet.java:518-520 | As written, switching the format on and then off turns both default delimiters into "* ". |
| Flags.FormatJavadocOnAgrees | java/src/plume/OptionsDoclet.java:515-517 | When switching the format on, the setter as written and the corrected one agree, so `setOptions` is unaffected by the fix. |
| Flags.WithSingleDash | java/src/plume/OptionsDoclet.java:529-531 | Single-dash mode is on afterwards whatever `val` is, and nothing else changes. |
| Doclet.OptionsDoclet.constructor | java/src/plume/OptionsDoclet.java:112-127 | A new doclet holds the default delimiters, no docfile or outfile, and every switch off. |
| Doclet.OptionsDoclet.SetFormatJavadoc | java/src/plume/OptionsDoclet.java:514-523 | The fields become the corrected `WithFormatJavadoc` of the old ones, and the options are untouched. |
| Doclet.OptionsDoclet.SetUseSingleDash | java/src/plume/OptionsDoclet.java:529-531 | The options are put in single-dash mode whatever `val` is. No other field changes. |
| Doclet.OptionsDoclet.GetUseSingleDash | java/src/plume/OptionsDoclet.java:525-527 | Defined as the option set's dash mode. `SetUseSingleDash` makes it true. |
| Doclet.OptionsDoclet.SetOptions | java/src/plume/OptionsDoclet.java:270-289 | The fields become `ApplyFlags` of the old ones over the parsed tuples. Nothing of the options changes except the dash mode. |
| Doclet.OptionsDoclet.ApplyOption | java/src/plume/OptionsDoclet.java:271-287 | One turn of the loop: the fields become `ApplyFlag` of the old ones for the parsed tuple. The doclet stays valid, and nothing of the options changes except the dash mode. |
| Doclet.OptionsDoclet.ProcessJavadoc | java/src/plume/OptionsDoclet.java:366-389 | Each option gets the description `WithJdoc` chooses for it. The rest of the options and every doclet setting stay as they were. |
| Doclet.OptionsDoclet.DescribeOption | java/src/plume/OptionsDoclet.java:368-386 | One turn of the loop: the option comes out as `WithJdoc` says. It takes the description chosen from the first field with its underscored name in its declaring class, and stays as it was when the class or the field is missing. |
| Render.WithJdoc | java/src/plume/OptionsDoclet.java:366-389 | Only an option's description can change. It becomes the chosen one when the declaring class and the field are found, and otherwise stays as it was. |
| Doclet.WithJdocs | java/src/plume/OptionsDoclet.java:366-389 | The loop's target: the option list has the same length, and each option is updated on its own, as `WithJdoc` says. |
| Render.WithJdocFound | java/src/plume/OptionsDoclet.java:369-384 | When the class is found and a field has the long name with '-' read as '_', the option's description is: the escaped `@Option` description for an empty comment; the comment text in javadoc format; and otherwise the flattened comment. |
| Render.WithJdocMissing | java/src/plume/OptionsDoclet.java:368-372 | Without the declaring class or a matching field, the option is unchanged. |
| Render.ChosenJdoc | java/src/plume/OptionsDoclet.java:367-384 | Defined as: no description when the declaring class is not in the tree or has no field named by the long name with '-' read as '_'; otherwise `FieldJdoc` of the first such field. |
| Render.FieldJdoc | java/src/plume/OptionsDoclet.java:375-383 | Defined as: the escaped `@Option` description for an empty raw comment; otherwise the comment text in javadoc format, and the flattened comment in HTML format. |
| OptionModel.ClassNamed | java/src/plume/OptionsDoclet.java:368 | A class found has the requested name and is in the tree. When none is found, no class has that name. |
| OptionModel.FieldNamed | java/src/plume/OptionsDoclet.java:371-372 | The field found is the first one with the name. When none is found, no field has it. |
| OptionModel.FieldNamedAt | java/src/plume/OptionsDoclet.java:371-385 | The search loop, stopping at the first field with the name, finds the field `FieldNamed` names. |
| Render.DefaultText | java/src/plume/OptionsDoclet.java:469-471 | The default part is "no default" exactly when the option has no default. |
| Render.OptionToHtml | java/src/plume/OptionsDoclet.java:460-477 | Defined as, one after the other: the short name in bold; each alias in bold; the long name in bold after "--" ("-" in single-dash mode) and "="; the type name in italics with a full stop; the description (empty while none was found); the escaped default part in brackets. |
| Render.OptionToHtmlStart | java/src/plume/OptionsDoclet.java:463-468 | An option's line starts with its short name in bold. Without one, it starts with its first alias in bold; without aliases, with its long name in bold. |
| Render.OptionToHtmlEnd | java/src/plume/OptionsDoclet.java:468-475 | An option's line ends with its type in italics, its description, and its escaped default part in brackets. |
| Render.AliasesHtmlAppend | java/src/plume/OptionsDoclet.java:465-466 | The aliases are rendered in order: the HTML of two runs of aliases is the HTML of each, one after the other. |
| Render.SingleDashDropsOneDash | java/src/plume/OptionsDoclet.java:467-468 | Single-dash mode changes one thing in an option's line: one dash fewer in front of the long name. |
| Render.OptionListLines | java/src/plume/OptionsDoclet.java:443-455 | An option list has one item per publicized option, in list order. Each item is the padded option line in `<li>` tags. |
| OptionModel.Publicized | java/src/plume/OptionsDoclet.java:445-447 | The options kept are exactly those of the list that are not unpublicized. |
| OptionModel.PublicizedAppend | java/src/plume/OptionsDoclet.java:445-447 | The options are kept in list order: those of two runs of options are those of the first run followed by those of the second. |
| Doclet.OptionsDoclet.OptionListToHtml | java/src/plume/OptionsDoclet.java:443-455 | The loop's text is the items of `OptionListLines` joined with the line separator. |
| OptionModel.ContainsPublicizedIffNonEmpty | java/src/plume/OptionsDoclet.java:407-409 | A group contains a publicized option exactly when its rendered option list is not empty. |
| Render.RenderedGroups | java/src/plume/OptionsDoclet.java:406-416 | The groups rendered are exactly those of the list that contain a publicized option: each rendered group is one of the list and contains one, and every group of the list that contains one is rendered. |
| Render.RenderedGroupsAppend | java/src/plume/OptionsDoclet.java:406-409 | The groups are rendered in list order: those of two runs of groups are those of the first run followed by those of the second. |
| Render.RenderedGroupsLast | java/src/plume/OptionsDoclet.java:406-416 | The last group is rendered after the others exactly when it contains a publicized option; otherwise the rendered groups are those of the others. |
| Render.GroupsPiecesBlocks | java/src/plume/OptionsDoclet.java:406-416 | The grouped HTML has one block of five pieces per group with a publicized option, in group order. A group without one leaves no trace. |
| Doclet.OptionsDoclet.OptionsToHtml | java/src/plume/OptionsDoclet.java:394-421 | The builder's text is the specified HTML, `HtmlText`, for the current options and class comment. |
| Render.HtmlTextIsLines | java/src/plume/OptionsDoclet.java:394-421 | The HTML text is its lines joined with the line separator, once the nested option lists are spelled out. |
| Render.GroupsPieces | java/src/plume/OptionsDoclet.java:406-416 | Defined as the group loop's output: for each group in order, its five pieces (the group's name, the opening of the nested list, the group's option list at padding 6, the closing tags), and nothing for a group without a publicized option. |
| Render.HtmlText | java/src/plume/OptionsDoclet.java:394-421 | Defined as the pieces joined with the line separator: the class comment and "Command line options" when class documentation is on; "<ul>"; the option list at padding 2, or the pieces of each rendered group; "</ul>". |
| Strings.LinesOfJoin | java/src/plume/OptionsDoclet.java:429-434 | Reading back joined lines that hold no terminator gives the same lines, when the last one is not empty. |
| Strings.LinesOfCons | java/src/plume/OptionsDoclet.java:429-434 | A first line without terminators, followed by LF or CR LF, is read back as that line, and the remaining lines follow. |
| Strings.LinesHaveNoTerminator | java/src/plume/OptionsDoclet.java:429-434 | No line a Scanner hands out holds a line terminator. |
| Render.JavadocMirrorsHtml | java/src/plume/OptionsDoclet.java:427-438 | When no rendered line holds a terminator, the javadoc form has exactly the HTML's lines, each after `padding` spaces and "* ". |
| Render.JavadocText | java/src/plume/OptionsDoclet.java:427-438 | Defined as the HTML's lines, each after `padding` spaces and "* ", joined with the line separator. |
| Render.JavadocKeepsLines | java/src/plume/OptionsDoclet.java:427-438 | For LF or CR LF, the javadoc form of any text reads back as exactly its lines, each prefixed, and has as many lines as the text. |
| Render.JavadocLines | java/src/plume/OptionsDoclet.java:431-435 | Each comment line is the HTML line at the same place after `padding` spaces and "* ". |
| Doclet.OptionsDoclet.OptionsToJavadoc | java/src/plume/OptionsDoclet.java:427-438 | The loop's text is the specified javadoc form of `optionsToHtml`'s text. |
| Render.JavadocToHtml | java/src/plume/OptionsDoclet.java:487-506 | The flattened comment is the flattened inline tags alone exactly when there is no block `@see` tag. |
| Render.InlineHtml | java/src/plume/OptionsDoclet.java:488-495 | Defined as the HTML of the inline tags, one after the other in order. |
| Render.SeeAlsoHtml | java/src/plume/OptionsDoclet.java:496-504 | The text is empty exactly when there is no block `@see` tag. Otherwise it starts with " See: " and ends with a period. |
| Render.InlineHtmlAt | java/src/plume/OptionsDoclet.java:489-495 | Each inline tag contributes its own HTML at its own place: a reference in `<code>`, plain text unchanged. |
| Render.InlineHtmlAppend | java/src/plume/OptionsDoclet.java:490-495 | Flattening tags distributes over any split of them. |
| Doclet.OptionsDoclet.NewDocFileText | java/src/plume/OptionsDoclet.java:330-359 | The loop's text is the specified scan of the docfile lines joined with the line separator. The block inserted is the HTML, or in javadoc format its comment form indented to the start line's '*'. |
| Splice.NewDocLinesIsSpliced | java/src/plume/OptionsDoclet.java:337-355 | Without a start line, the docfile is copied unchanged. Otherwise: the lines up to the first start line are copied; the block follows; the lines up to the next end line are dropped; the end line and every later line are kept. Without an end line, nothing after the block survives. |
| Splice.Scan | java/src/plume/OptionsDoclet.java:337-355 | At most one block is inserted, and none once the replacement is done: the pieces are at most one more than the lines. The definition follows the loop: inside a region, a line that is not an end line is dropped; the first start line outside one is kept, the block follows and a region begins; any other line is kept and ends the region. |
| Splice.NewDocLines | java/src/plume/OptionsDoclet.java:330-359 | The new docfile has at most one line more than the old one. It is defined as the scan from the initial state, with lines compared to the delimiters after trimming. |
| Splice.Block | java/src/plume/OptionsDoclet.java:348-351 | Defined as the text inserted after the start line: in the javadoc format, the javadoc form of the HTML, padded by as many spaces as the start line has characters before its first `*`; and the HTML itself otherwise. |
| Splice.InsertedBlock | java/src/plume/OptionsDoclet.java:347-351 | Defined as `Block` with the HTML, the format and the line separator fixed, as a function of the start line. |
| Splice.SplicePositions | java/src/plume/OptionsDoclet.java:339-347 | The positions of the closed form are delimiter lines, compared after trimming. They are the first: no start line comes before, and no end line comes between. |
| Splice.FirstMatchCharacterized | java/src/plume/OptionsDoclet.java:347 | The first match is the one passing position with no passing line before it. |
| Splice.ScanPristine | java/src/plume/OptionsDoclet.java:337-355 | A scan from the initial state copies the lines before the first start line, then performs the splice. With no start line, it copies everything. |
| Splice.ScanReplacing | java/src/plume/OptionsDoclet.java:338-343 | Inside the replaced region, lines are dropped up to the end line. It and all later lines are kept. |
| Splice.ScanCopies | java/src/plume/OptionsDoclet.java:345-355 | Once the replacement is done and its region is closed, the remaining lines are copied unchanged. |
| Splice.SpliceIdempotent | java/src/plume/OptionsDoclet.java:330-359 | Splicing the same block into the result again changes nothing, provided no inserted piece is itself an end line. A multi-line block counts as one piece. |
| Strings.TrimIsInnerSlice | java/src/plume/OptionsDoclet.java:339-347 | A trimmed line is the slice of the line between its leading and trailing blanks, and neither end of it is blank. |
| Strings.IndexOf | java/src/plume/OptionsDoclet.java:349 | The index is -1 exactly when the character is absent; otherwise it is the first position of the character. |
| Doclet.OptionsDoclet.Output | java/src/plume/OptionsDoclet.java:316-325 | Without a docfile, the output is the javadoc form at padding 0 in javadoc format, and the HTML otherwise. With a docfile, it is the new docfile text. |

## Left out

- `start` (reflection over the classes, `Options` construction, the "no @Option-annotated fields" check) and `write` (choosing the outfile, the docfile or standard output, and printing): these are file and process I/O.
- The docfile is not read: `NewDocFileText` takes its lines as a parameter, as `BufferedReader.readLine` would return them.
- The usage text `optionLength` prints for `-help` is not modelled; only the returned length is.
- The `DocErrorReporter` is not modelled: `ValidOptions` returns the message it would print, in a `Rejected` verdict.
- File existence is an oracle parameter (`fileExists`). HTML escaping (`StringEscapeUtils.escapeHtml`) is an uninterpreted function given to the doclet.
- The binder `Options.java` is not part of this model. Its option records and groups are plain data. `containsPublicizedOption` is modelled from what it says: some member of the group is not unpublicized.
- The doclet's getter `getFormatJavadoc` is a field read and has no member of its own.
- `OptionGroup.java` is an annotation declaration with no behaviour the doclet uses beyond the grouping in the option set.
- `ToLower`: lowercases ASCII capital letters only, not the full Unicode case mapping of `String.toLowerCase`.
- `Lines` models `java.util.Scanner`'s line splitting for the five line terminators it recognises. `LinesOfJoin`, `JavadocMirrorsHtml` and `JavadocKeepsLines` assume the separator is LF or CR LF.
- `root.classNamed` is looked up by the class's qualified name, and `get_declaring_class().getName()` is taken to name the class the same way; binary names of nested classes are not distinguished.
- Doclet.OptionsDoclet.SetFormatJavadoc: switching the format off follows the corrected `Flags.WithFormatJavadoc`, which drops a leading "* " from each delimiter. The source's `removeStart("* ", startDelim)` is modelled separately, as `Flags.WithFormatJavadocAsWritten` under "## Findings". Within the doclet, `setFormatJavadoc` is only called with `true` (for `-format javadoc`, OptionsDoclet.java:282), and for that branch `Flags.FormatJavadocOnAgrees` proves the two agree.
- Doclet.OptionsDoclet.OptionsToHtml: `-classdoc` requires the tree to hold at least one class, where the source would throw an exception on `root.classes()[0]`.
- Doclet.OptionsDoclet.ProcessJavadoc: option records are values, so the update is made to the option list. Groups refer to options by position and see the new descriptions through it. No aliasing of records is modelled.
- `optionToHtml` and `javadocToHtml` are modelled as functions (`Render.OptionToHtml`, `Render.JavadocToHtml`). Their loops only append to a local builder.
- Flags.ValidOptions: the source tests the four flag names with consecutive `if`s. The model uses one `if`/`else if` chain over the classified flag, which is equivalent because a name matches at most one flag.
- Flags.ValidOptions and Doclet.OptionsDoclet.SetOptions: each tuple must be non-empty and must carry a value when its flag takes one, as javadoc guarantees through `optionLength`. A shorter tuple would make the source throw.
- Doclet.OptionsDoclet.OptionsToHtml: the group loop's `continue` is written as an `if` around the appends, which has the same effect.

## Findings

| source | as written | input that shows it | evidently intended | confidence | as-written member | corrected member |
|---|---|---|---|---|---|---|
| java/src/plume/OptionsDoclet.java:519-520 | `StringUtils.removeStart("* ", startDelim)` removes the delimiter from the start of "* ". It leaves "* " as the new delimiter. | `setFormatJavadoc(true)` then `setFormatJavadoc(false)` on a new doclet: both delimiters become "* " instead of the defaults. | `removeStart(startDelim, "* ")`: drop the leading "* " from each delimiter, so switching the format off restores them. | high; not executed | Flags.WithFormatJavadocAsWritten, Flags.FormatJavadocOffLosesDelimiters | Flags.WithFormatJavadoc, Flags.FormatJavadocRoundTrip |
