/** The doclet's own command-line flags: how many tokens each takes (`optionLength`), which
    combinations are accepted (`validOptions`), and what they set (`setOptions`,
    `setFormatJavadoc`, `setUseSingleDash`). An option tuple is a flag name followed by its value,
    if it takes one. */
module Flags {
  import opened Wrappers
  import opened Strings

  // ---------------------------------------------------------------- arity

  /** The flags that take a value. */
  const ValueFlags: set<string> := {"-docfile", "-outfile", "-format"}

  /** The flags that stand alone. */
  const SwitchFlags: set<string> := {"-help", "-i", "-classdoc", "-singledash"}

  /** `optionLength`: the number of tokens a flag occupies, its value included, and 0 for a name
      that is not one of the doclet's flags. Names are compared exactly here. */
  function OptionLength(option: string): (n: nat)
    ensures n == 2 <==> option in ValueFlags
    ensures n == 1 <==> option in SwitchFlags
    ensures n == 0 <==> option !in ValueFlags && option !in SwitchFlags
  {
    if option == "-help" then 1
    else if option == "-i" || option == "-classdoc" || option == "-singledash" then 1
    else if option == "-docfile" || option == "-outfile" || option == "-format" then 2
    else 0
  }

  // ---------------------------------------------------------------- flag names

  /** What a tuple's flag name means to `validOptions` and `setOptions`, which lowercase it
      before comparing. */
  datatype Flag = DocFileFlag | OutFileFlag | InPlaceFlag | FormatFlag | ClassDocFlag | SingleDashFlag | OtherFlag
  {
    predicate TakesValue() {
      this == DocFileFlag || this == OutFileFlag || this == FormatFlag
    }
  }

  function Classify(name: string): Flag {
    var opt := ToLower(name);
    if opt == "-docfile" then DocFileFlag
    else if opt == "-outfile" then OutFileFlag
    else if opt == "-i" then InPlaceFlag
    else if opt == "-format" then FormatFlag
    else if opt == "-classdoc" then ClassDocFlag
    else if opt == "-singledash" then SingleDashFlag
    else OtherFlag
  }

  /** Flag names are matched without regard to the case of ASCII letters. */
  lemma ClassifyIgnoresCase(name: string)
    ensures Classify(ToLower(name)) == Classify(name)
  {
    ToLowerIdempotent(name);
  }

  /** A tuple as javadoc hands it over: a name, and a value when the name takes one. */
  predicate WellFormed(os: seq<string>) {
    |os| >= 1 && (Classify(os[0]).TakesValue() ==> |os| >= 2)
  }

  predicate AllWellFormed(options: seq<seq<string>>) {
    forall i :: 0 <= i < |options| ==> WellFormed(options[i])
  }

  /** Javadoc makes each tuple as long as `optionLength` says; such tuples are well formed. */
  lemma ArityGivesWellFormed(os: seq<string>)
    requires |os| > 0 && |os| == OptionLength(os[0])
    ensures WellFormed(os)
  {
    if |os| == 1 {
      assert |os[0]| != 7 && |os[0]| != 8;
      NoValueAtOtherLengths(os[0]);
    }
  }

  /** The flags that take a value have names of seven or eight characters. */
  lemma NoValueAtOtherLengths(name: string)
    requires |name| != 7 && |name| != 8
    ensures !Classify(name).TakesValue()
  {
    var opt := ToLower(name);
    assert |opt| == |name|;
    assert opt != "-docfile" && opt != "-outfile" && opt != "-format";
  }

  /** A tuple as the doclet reads it: the meaning of its name, and its value when it takes one. */
  datatype Arg = Arg(flag: Flag, value: string)

  function ParseTuple(os: seq<string>): Arg
    requires WellFormed(os)
  {
    var f := Classify(os[0]);
    Arg(f, if f.TakesValue() then os[1] else "")
  }

  function Parse(options: seq<seq<string>>): (args: seq<Arg>)
    requires AllWellFormed(options)
    ensures |args| == |options|
    ensures forall i :: 0 <= i < |options| ==> args[i] == ParseTuple(options[i])
  {
    seq(|options|, i requires 0 <= i < |options| => ParseTuple(options[i]))
  }

  /** How many tuples carry flag `f`. */
  function Count(args: seq<Arg>, f: Flag): (n: nat)
    ensures n <= |args|
  {
    if |args| == 0 then 0
    else (if args[0].flag == f then 1 else 0) + Count(args[1..], f)
  }

  /** The values given to flag `f`, in order. */
  function Values(args: seq<Arg>, f: Flag): (vs: seq<string>)
    ensures |vs| == Count(args, f)
  {
    if |args| == 0 then []
    else (if args[0].flag == f then [args[0].value] else []) + Values(args[1..], f)
  }

  // ---------------------------------------------------------------- validOptions

  /** The locals of `validOptions` between two tuples. */
  datatype ValidatorState = ValidatorState(
    hasDocFile: bool, hasOutFile: bool, hasFormat: bool, inPlace: bool,
    docFile: Option<string>, outFile: Option<string>)
  {
    /** The file locals are set exactly when their flags were seen, and `-i` never meets `-outfile`. */
    predicate Consistent() {
      docFile.Some? == hasDocFile && outFile.Some? == hasOutFile && !(inPlace && hasOutFile)
    }
  }

  const InitialValidator := ValidatorState(false, false, false, false, None, None)

  /** The messages `validOptions` reports. */
  const DocFileTwice := "-docfile option specified twice"
  const OutFileTwice := "-outfile option specified twice"
  const InPlaceWithOutFile := "-i and -outfile can not be used at the same time"
  const FormatTwice := "-format option specified twice"
  const SameDocAndOutFile := "docfile must be different from outfile"
  const FileNotFound := "file not found: "
  const UnknownFormat := "unrecognized output format: "

  /** What `validOptions` does with one tuple: the next state, or the error it reports. */
  function ValidateStep(st: ValidatorState, a: Arg, fileExists: string -> bool): (r: Result<ValidatorState>)
    ensures r.Ok? && a.flag == DocFileFlag ==> fileExists(a.value) && r.value.docFile == Some(a.value)
    ensures r.Ok? && a.flag == FormatFlag ==> a.value == "javadoc"
    ensures r.Ok? ==> (st.hasDocFile ==> r.value.docFile == st.docFile) && (st.hasOutFile ==> r.value.outFile == st.outFile)
    ensures r.Ok? && st.Consistent() ==> r.value.Consistent()
  {
    match a.flag
    case DocFileFlag =>
      if st.hasDocFile then Err(DocFileTwice)
      else if !fileExists(a.value) then Err(FileNotFound + a.value)
      else Ok(st.(docFile := Some(a.value), hasDocFile := true))
    case OutFileFlag =>
      if st.hasOutFile then Err(OutFileTwice)
      else if st.inPlace then Err(InPlaceWithOutFile)
      else Ok(st.(outFile := Some(a.value), hasOutFile := true))
    case InPlaceFlag =>
      if st.hasOutFile then Err(InPlaceWithOutFile)
      else Ok(st.(inPlace := true))
    case FormatFlag =>
      if st.hasFormat then Err(FormatTwice)
      else if a.value != "javadoc" then Err(UnknownFormat + a.value)
      else Ok(st.(hasFormat := true))
    case _ => Ok(st)
  }

  /** The loop of `validOptions` over the remaining tuples, stopping at the first error. */
  function ValidateFrom(st: ValidatorState, args: seq<Arg>, fileExists: string -> bool): Result<ValidatorState>
    decreases |args|
  {
    if |args| == 0 then Ok(st)
    else
      match ValidateStep(st, args[0], fileExists)
      case Err(m) => Err(m)
      case Ok(next) => ValidateFrom(next, args[1..], fileExists)
  }

  /** The outcome of `validOptions`: accepted, or rejected with the message it reports. */
  datatype Verdict = Accepted | Rejected(message: string)

  /** The verdict on the state the loop ended with: the docfile must differ from the outfile. */
  function FinalVerdict(r: Result<ValidatorState>): Verdict {
    match r
    case Err(m) => Rejected(m)
    case Ok(st) =>
      if st.docFile.Some? && st.outFile.Some? && st.outFile.value == st.docFile.value
      then Rejected(SameDocAndOutFile)
      else Accepted
  }

  function Validate(options: seq<seq<string>>, fileExists: string -> bool): Verdict
    requires AllWellFormed(options)
  {
    FinalVerdict(ValidateFrom(InitialValidator, Parse(options), fileExists))
  }

  /** Every docfile named exists. */
  predicate AllExist(files: seq<string>, fileExists: string -> bool) {
    forall v :: v in files ==> fileExists(v)
  }

  /** Every format named is `javadoc`. */
  predicate AllJavadoc(formats: seq<string>) {
    forall v :: v in formats ==> v == "javadoc"
  }

  /** The flag combinations `validOptions` accepts, said without its loop: `-docfile`, `-outfile`
      and `-format` each at most once, every docfile existing, `javadoc` as the only format,
      never both `-i` and `-outfile`, and the docfile different from the outfile. */
  predicate Acceptable(options: seq<seq<string>>, fileExists: string -> bool)
    requires AllWellFormed(options)
  {
    var args := Parse(options);
    var docs, outs, formats := Values(args, DocFileFlag), Values(args, OutFileFlag), Values(args, FormatFlag);
    && |docs| <= 1 && |outs| <= 1 && |formats| <= 1
    && AllExist(docs, fileExists) && AllJavadoc(formats)
    && !(Count(args, InPlaceFlag) > 0 && |outs| > 0)
    && !(|docs| == 1 && docs == outs)
  }

  /** What the tuples name: the docfiles, outfiles and formats in order, and how often each switch occurs. */
  datatype Tally = Tally(docs: seq<string>, outs: seq<string>, formats: seq<string>,
                         inPlaces: nat, classDocs: nat, singleDashes: nat)

  function TallyOf(args: seq<Arg>): Tally {
    Tally(Values(args, DocFileFlag), Values(args, OutFileFlag), Values(args, FormatFlag),
          Count(args, InPlaceFlag), Count(args, ClassDocFlag), Count(args, SingleDashFlag))
  }

  /** The tally of one more tuple in front. */
  function AddTally(a: Arg, t: Tally): Tally {
    match a.flag
    case DocFileFlag => t.(docs := [a.value] + t.docs)
    case OutFileFlag => t.(outs := [a.value] + t.outs)
    case FormatFlag => t.(formats := [a.value] + t.formats)
    case InPlaceFlag => t.(inPlaces := t.inPlaces + 1)
    case ClassDocFlag => t.(classDocs := t.classDocs + 1)
    case SingleDashFlag => t.(singleDashes := t.singleDashes + 1)
    case OtherFlag => t
  }

  lemma TallyCons(args: seq<Arg>)
    requires |args| > 0
    ensures TallyOf(args) == AddTally(args[0], TallyOf(args[1..]))
  {
    var a, t := args[0], TallyOf(args[1..]);
    ValuesUnfold(args, DocFileFlag);
    ValuesUnfold(args, OutFileFlag);
    ValuesUnfold(args, FormatFlag);
    ValuesUnfold(args, InPlaceFlag);
    ValuesUnfold(args, ClassDocFlag);
    ValuesUnfold(args, SingleDashFlag);
  }

  /** What tuples with tally `t` may contain from state `st` without an error. */
  predicate AcceptableAt(st: ValidatorState, t: Tally, fileExists: string -> bool) {
    && (if st.hasDocFile then 1 else 0) + |t.docs| <= 1
    && (if st.hasOutFile then 1 else 0) + |t.outs| <= 1
    && (if st.hasFormat then 1 else 0) + |t.formats| <= 1
    && AllExist(t.docs, fileExists) && AllJavadoc(t.formats)
    && !((st.inPlace || t.inPlaces > 0) && (st.hasOutFile || |t.outs| > 0))
  }

  /** What the remaining tuples may still contain from state `st` without an error. */
  predicate AcceptableFrom(st: ValidatorState, args: seq<Arg>, fileExists: string -> bool) {
    AcceptableAt(st, TallyOf(args), fileExists)
  }

  /** The file a run ends with: the one given in the remaining tuples, else the one already held. */
  function FinalFile(held: Option<string>, given: seq<string>): Option<string> {
    if |given| > 0 then Some(given[0]) else held
  }

  /** The loop over the remaining tuples gets through them exactly when they are acceptable from
      its state, and it ends with the docfile and outfile given, or those it held. */
  lemma {:induction false} ValidateFromCharacterized(st: ValidatorState, args: seq<Arg>, fileExists: string -> bool)
    requires st.Consistent()
    ensures ValidateFrom(st, args, fileExists).Ok? <==> AcceptableFrom(st, args, fileExists)
    ensures ValidateFrom(st, args, fileExists).Ok? ==>
      var fin := ValidateFrom(st, args, fileExists).value;
      && fin.docFile == FinalFile(st.docFile, Values(args, DocFileFlag))
      && fin.outFile == FinalFile(st.outFile, Values(args, OutFileFlag))
    decreases |args|
  {
    if |args| > 0 {
      TallyCons(args);
      var t := TallyOf(args[1..]);
      match ValidateStep(st, args[0], fileExists)
      case Err(m) =>
        StepErrShowsConflict(st, args[0], t, fileExists);
      case Ok(next) =>
        StepOkShiftsAcceptance(st, args[0], t, fileExists);
        ValidateFromCharacterized(next, args[1..], fileExists);
    }
  }

  /** One tuple's share of the values and the count of flag `f`. */
  lemma ValuesUnfold(args: seq<Arg>, f: Flag)
    requires |args| > 0
    ensures Values(args, f) == (if args[0].flag == f then [args[0].value] + Values(args[1..], f) else Values(args[1..], f))
    ensures Count(args, f) == (if args[0].flag == f then 1 else 0) + Count(args[1..], f)
  {
  }

  /** A tuple `validOptions` rejects makes the tuples unacceptable from the state it met. */
  lemma StepErrShowsConflict(st: ValidatorState, a: Arg, t: Tally, fileExists: string -> bool)
    requires st.Consistent() && ValidateStep(st, a, fileExists).Err?
    ensures !AcceptableAt(st, AddTally(a, t), fileExists)
  {
    var u := AddTally(a, t);
    if a.flag == DocFileFlag {
      assert u.docs[0] in u.docs;
    } else if a.flag == FormatFlag {
      assert u.formats[0] in u.formats;
    }
  }

  /** A value that passes the test can be put in front of a run without changing whether all pass. */
  lemma AllConsPassing(v: string, vs: seq<string>, fileExists: string -> bool)
    ensures fileExists(v) ==> (AllExist([v] + vs, fileExists) <==> AllExist(vs, fileExists))
    ensures v == "javadoc" ==> (AllJavadoc([v] + vs) <==> AllJavadoc(vs))
  {
    assert forall w :: w in [v] + vs <==> w == v || w in vs;
  }

  /** A tuple `validOptions` accepts moves the acceptance question on to the next state, and the
      files the run ends with stay the same. */
  lemma StepOkShiftsAcceptance(st: ValidatorState, a: Arg, t: Tally, fileExists: string -> bool)
    requires st.Consistent() && ValidateStep(st, a, fileExists).Ok?
    ensures var next := ValidateStep(st, a, fileExists).value;
      && next.Consistent()
      && (AcceptableAt(st, AddTally(a, t), fileExists) <==> AcceptableAt(next, t, fileExists))
      && (AcceptableAt(st, AddTally(a, t), fileExists) ==>
            && FinalFile(st.docFile, AddTally(a, t).docs) == FinalFile(next.docFile, t.docs)
            && FinalFile(st.outFile, AddTally(a, t).outs) == FinalFile(next.outFile, t.outs))
  {
    if a.flag == DocFileFlag {
      AllConsPassing(a.value, t.docs, fileExists);
    } else if a.flag == FormatFlag {
      AllConsPassing(a.value, t.formats, fileExists);
    }
  }

  /** `validOptions` accepts exactly the acceptable flag combinations. */
  lemma ValidateCharacterized(options: seq<seq<string>>, fileExists: string -> bool)
    requires AllWellFormed(options)
    ensures Validate(options, fileExists) == Accepted <==> Acceptable(options, fileExists)
  {
    var args := Parse(options);
    ValidateFromCharacterized(InitialValidator, args, fileExists);
    var docs, outs := Values(args, DocFileFlag), Values(args, OutFileFlag);
    if |docs| == 1 && |outs| == 1 {
      assert docs == outs <==> docs[0] == outs[0];
    }
  }

  /** The loop of `validOptions` from tuple `i` on. */
  lemma ValidateFromAt(st: ValidatorState, args: seq<Arg>, i: nat, fileExists: string -> bool)
    requires i < |args|
    ensures ValidateFrom(st, args[i..], fileExists) ==
      match ValidateStep(st, args[i], fileExists)
      case Err(m) => Err(m)
      case Ok(next) => ValidateFrom(next, args[i + 1..], fileExists)
  {
    assert args[i..][0] == args[i] && args[i..][1..] == args[i + 1..];
  }

  /** `validOptions`, written as its loop: the verdict returned is `Validate`'s. */
  method ValidOptions(options: seq<seq<string>>, fileExists: string -> bool) returns (v: Verdict)
    requires AllWellFormed(options)
    ensures v == Validate(options, fileExists)
  {
    ghost var args := Parse(options);
    var hasDocFile, hasOutFile, hasFormat, inPlace := false, false, false, false;
    var docFile: Option<string> := None;
    var outFile: Option<string> := None;
    for oi := 0 to |options|
      invariant var st := ValidatorState(hasDocFile, hasOutFile, hasFormat, inPlace, docFile, outFile);
        ValidateFrom(InitialValidator, args, fileExists) == ValidateFrom(st, args[oi..], fileExists)
    {
      var a := ParseTuple(options[oi]);
      ValidateFromAt(ValidatorState(hasDocFile, hasOutFile, hasFormat, inPlace, docFile, outFile), args, oi, fileExists);
      if a.flag == DocFileFlag {
        if hasDocFile {
          return Rejected(DocFileTwice);
        }
        if !fileExists(a.value) {
          return Rejected(FileNotFound + a.value);
        }
        docFile := Some(a.value);
        hasDocFile := true;
      } else if a.flag == OutFileFlag {
        if hasOutFile {
          return Rejected(OutFileTwice);
        }
        if inPlace {
          return Rejected(InPlaceWithOutFile);
        }
        outFile := Some(a.value);
        hasOutFile := true;
      } else if a.flag == InPlaceFlag {
        if hasOutFile {
          return Rejected(InPlaceWithOutFile);
        }
        inPlace := true;
      } else if a.flag == FormatFlag {
        if hasFormat {
          return Rejected(FormatTwice);
        }
        if a.value != "javadoc" {
          return Rejected(UnknownFormat + a.value);
        }
        hasFormat := true;
      }
    }
    assert args[|options|..] == [];
    if docFile.Some? && outFile.Some? && outFile.value == docFile.value {
      return Rejected(SameDocAndOutFile);
    }
    return Accepted;
  }

  // ---------------------------------------------------------------- setOptions

  const DefaultStartDelim := "<!-- start options doc (DO NOT EDIT BY HAND) -->"
  const DefaultEndDelim := "<!-- end options doc -->"

  /** The doclet fields the flags set, and the single-dash mode of the option set. */
  datatype Settings = Settings(
    docFile: Option<string>, outFile: Option<string>, inPlace: bool, formatJavadoc: bool,
    includeClassDoc: bool, startDelim: string, endDelim: string, singleDash: bool)

  /** The fields of a new doclet, for an option set in the given dash mode. */
  function InitialSettings(singleDash: bool): Settings {
    Settings(None, None, false, false, false, DefaultStartDelim, DefaultEndDelim, singleDash)
  }

  /** `setFormatJavadoc(val)` as the doclet writes it: turning the format on puts "* " in front of
      both delimiters; turning it off calls `removeStart` with the delimiter as the text to remove
      from "* ", so both delimiters become "* ". */
  function WithFormatJavadocAsWritten(s: Settings, val: bool): (r: Settings)
    ensures r.formatJavadoc == val
    ensures r.(startDelim := s.startDelim, endDelim := s.endDelim, formatJavadoc := s.formatJavadoc) == s
  {
    if val && !s.formatJavadoc then
      s.(startDelim := "* " + s.startDelim, endDelim := "* " + s.endDelim, formatJavadoc := val)
    else if !val && s.formatJavadoc then
      s.(startDelim := RemoveStart("* ", s.startDelim), endDelim := RemoveStart("* ", s.endDelim),
         formatJavadoc := val)
    else s.(formatJavadoc := val)
  }

  /** Switching the javadoc format on and then off, as written, loses both default delimiters:
      each becomes "* ". */
  lemma FormatJavadocOffLosesDelimiters(singleDash: bool)
    ensures var off := WithFormatJavadocAsWritten(WithFormatJavadocAsWritten(InitialSettings(singleDash), true), false);
      off.startDelim == "* " && off.endDelim == "* " && off.startDelim != DefaultStartDelim
  {
    var start, end := "* " + DefaultStartDelim, "* " + DefaultEndDelim;
    assert |start| > 2 && |end| > 2;
    assert RemoveStart("* ", start) == "* " && RemoveStart("* ", end) == "* ";
  }

  /** `setFormatJavadoc(val)` as evidently intended: turning the format on puts "* " in front of
      both delimiters and turning it off removes a leading "* " from each. */
  function WithFormatJavadoc(s: Settings, val: bool): (r: Settings)
    ensures r.formatJavadoc == val
    ensures r.(startDelim := s.startDelim, endDelim := s.endDelim, formatJavadoc := s.formatJavadoc) == s
  {
    if val && !s.formatJavadoc then
      s.(startDelim := "* " + s.startDelim, endDelim := "* " + s.endDelim, formatJavadoc := val)
    else if !val && s.formatJavadoc then
      s.(startDelim := RemoveStart(s.startDelim, "* "), endDelim := RemoveStart(s.endDelim, "* "),
         formatJavadoc := val)
    else s.(formatJavadoc := val)
  }

  /** Removing a prefix just put in front gives the text back. */
  lemma RemoveStartOfPrefixed(x: string)
    ensures RemoveStart("* " + x, "* ") == x
  {
    assert "* " <= "* " + x;
  }

  /** Turning the javadoc format on and off again restores the delimiters. */
  lemma FormatJavadocRoundTrip(s: Settings)
    requires !s.formatJavadoc
    ensures WithFormatJavadoc(WithFormatJavadoc(s, true), false) == s
  {
    RemoveStartOfPrefixed(s.startDelim);
    RemoveStartOfPrefixed(s.endDelim);
  }

  /** On the path `setOptions` takes, the as-written and the corrected setter agree. */
  lemma FormatJavadocOnAgrees(s: Settings)
    ensures WithFormatJavadocAsWritten(s, true) == WithFormatJavadoc(s, true)
  {
  }

  /** Turning the javadoc format on prefixes "* " to both delimiters exactly once: a second call
      changes nothing, and from the javadoc format the delimiters stay as they are. */
  lemma FormatJavadocOnce(s: Settings)
    ensures var on := WithFormatJavadoc(s, true);
      && on.startDelim == (if s.formatJavadoc then s.startDelim else "* " + s.startDelim)
      && on.endDelim == (if s.formatJavadoc then s.endDelim else "* " + s.endDelim)
      && WithFormatJavadoc(on, true) == on
  {
  }

  /** `setUseSingleDash(val)`: the option set is put in single-dash mode whatever `val` is. */
  function WithSingleDash(s: Settings, val: bool): (r: Settings)
    ensures r.singleDash
    ensures r.(singleDash := s.singleDash) == s
  {
    s.(singleDash := true)
  }

  /** What `setOptions` does with one tuple. */
  function ApplyFlag(s: Settings, a: Arg): (r: Settings)
    ensures r.docFile == (if a.flag == DocFileFlag then Some(a.value) else s.docFile)
    ensures r.outFile == (if a.flag == OutFileFlag then Some(a.value) else s.outFile)
    ensures r.inPlace == (s.inPlace || a.flag == InPlaceFlag)
    ensures r.includeClassDoc == (s.includeClassDoc || a.flag == ClassDocFlag)
    ensures r.singleDash == (s.singleDash || a.flag == SingleDashFlag)
    ensures r.formatJavadoc == (s.formatJavadoc || (a.flag == FormatFlag && a.value == "javadoc"))
    ensures r.startDelim ==
      (if a.flag == FormatFlag && a.value == "javadoc" && !s.formatJavadoc then "* " + s.startDelim else s.startDelim)
    ensures r.endDelim ==
      (if a.flag == FormatFlag && a.value == "javadoc" && !s.formatJavadoc then "* " + s.endDelim else s.endDelim)
  {
    match a.flag
    case DocFileFlag => s.(docFile := Some(a.value))
    case OutFileFlag => s.(outFile := Some(a.value))
    case InPlaceFlag => s.(inPlace := true)
    case FormatFlag => if a.value == "javadoc" then WithFormatJavadoc(s, true) else s
    case ClassDocFlag => s.(includeClassDoc := true)
    case SingleDashFlag => WithSingleDash(s, true)
    case OtherFlag => s
  }

  /** `setOptions`: the tuples applied in order. */
  function ApplyFlags(s: Settings, args: seq<Arg>): Settings
    decreases |args|
  {
    if |args| == 0 then s else ApplyFlags(ApplyFlag(s, args[0]), args[1..])
  }

  /** The run from position `i` on applies the tuple at `i` first. A step of the loop invariant of
      `Doclet.OptionsDoclet.SetOptions`. */
  lemma ApplyFlagsAt(s: Settings, args: seq<Arg>, i: nat)
    requires i < |args|
    ensures ApplyFlags(s, args[i..]) == ApplyFlags(ApplyFlag(s, args[i]), args[i + 1..])
  {
    assert args[i..][0] == args[i] && args[i..][1..] == args[i + 1..];
  }

  /** The file a run of `setOptions` ends with: the last one given, else the one held. */
  function LastFile(held: Option<string>, given: seq<string>): Option<string> {
    if |given| > 0 then Some(given[|given| - 1]) else held
  }

  /** The settings after tuples with tally `t`, said without the loop. */
  function SettingsAfter(s: Settings, t: Tally): Settings {
    var fj := s.formatJavadoc || "javadoc" in t.formats;
    var prefix := if !s.formatJavadoc && fj then "* " else "";
    s.(docFile := LastFile(s.docFile, t.docs), outFile := LastFile(s.outFile, t.outs),
       inPlace := s.inPlace || t.inPlaces > 0, includeClassDoc := s.includeClassDoc || t.classDocs > 0,
       singleDash := s.singleDash || t.singleDashes > 0, formatJavadoc := fj,
       startDelim := prefix + s.startDelim, endDelim := prefix + s.endDelim)
  }

  /** One tuple applied first, then the rest, is the closed form of the whole. */
  lemma ApplyFlagShift(s: Settings, a: Arg, t: Tally)
    ensures SettingsAfter(ApplyFlag(s, a), t) == SettingsAfter(s, AddTally(a, t))
  {
    if a.flag == DocFileFlag || a.flag == OutFileFlag {
      var held := if a.flag == DocFileFlag then s.docFile else s.outFile;
      var later := if a.flag == DocFileFlag then t.docs else t.outs;
      assert LastFile(held, [a.value] + later) == LastFile(Some(a.value), later);
    } else if a.flag == FormatFlag {
      assert "javadoc" in [a.value] + t.formats <==> a.value == "javadoc" || "javadoc" in t.formats;
      assert "" + s.startDelim == s.startDelim && "" + s.endDelim == s.endDelim;
      if a.value == "javadoc" && !s.formatJavadoc {
        var s' := ApplyFlag(s, a);
        assert s'.startDelim == "* " + s.startDelim && s'.formatJavadoc;
        assert "" + s'.startDelim == s'.startDelim && "" + s'.endDelim == s'.endDelim;
      }
    }
  }

  lemma {:induction false} ApplyFlagsClosedForm(s: Settings, args: seq<Arg>)
    ensures ApplyFlags(s, args) == SettingsAfter(s, TallyOf(args))
    decreases |args|
  {
    if |args| == 0 {
      assert "" + s.startDelim == s.startDelim && "" + s.endDelim == s.endDelim;
    } else {
      TallyCons(args);
      ApplyFlagsClosedForm(ApplyFlag(s, args[0]), args[1..]);
      ApplyFlagShift(s, args[0], TallyOf(args[1..]));
    }
  }

  /** What `setOptions` leaves behind: the last docfile and outfile given (or those held), in-place
      editing, class documentation and single-dash mode switched on by their flags and never off,
      and the javadoc format switched on by a `-format javadoc` with the delimiters prefixed once. */
  lemma ApplyFlagsEffect(s: Settings, args: seq<Arg>)
    ensures var r := ApplyFlags(s, args);
      && r.docFile == LastFile(s.docFile, Values(args, DocFileFlag))
      && r.outFile == LastFile(s.outFile, Values(args, OutFileFlag))
      && r.inPlace == (s.inPlace || Count(args, InPlaceFlag) > 0)
      && r.includeClassDoc == (s.includeClassDoc || Count(args, ClassDocFlag) > 0)
      && r.singleDash == (s.singleDash || Count(args, SingleDashFlag) > 0)
      && r.formatJavadoc == (s.formatJavadoc || "javadoc" in Values(args, FormatFlag))
      && r.startDelim == (if !s.formatJavadoc && r.formatJavadoc then "* " + s.startDelim else s.startDelim)
      && r.endDelim == (if !s.formatJavadoc && r.formatJavadoc then "* " + s.endDelim else s.endDelim)
  {
    ApplyFlagsClosedForm(s, args);
    assert "" + s.startDelim == s.startDelim && "" + s.endDelim == s.endDelim;
  }

  /** Flags `validOptions` accepts put the doclet in a consistent configuration: not both editing
      in place and writing an outfile, an existing docfile, and a docfile different from the outfile. */
  lemma ValidatedSettingsConsistent(options: seq<seq<string>>, fileExists: string -> bool, singleDash: bool)
    requires AllWellFormed(options) && Validate(options, fileExists) == Accepted
    ensures var r := ApplyFlags(InitialSettings(singleDash), Parse(options));
      && !(r.inPlace && r.outFile.Some?)
      && (r.docFile.Some? ==> fileExists(r.docFile.value))
      && (r.docFile.Some? && r.outFile.Some? ==> r.docFile != r.outFile)
  {
    var args := Parse(options);
    var s := InitialSettings(singleDash);
    var r := ApplyFlags(s, args);
    ValidateCharacterized(options, fileExists);
    ApplyFlagsEffect(s, args);
    var docs, outs := Values(args, DocFileFlag), Values(args, OutFileFlag);
    assert |docs| <= 1 && |outs| <= 1 && AllExist(docs, fileExists);
    assert r.docFile == LastFile(None, docs) && r.outFile == LastFile(None, outs);
    if |docs| == 1 {
      assert docs[0] in docs;
      if |outs| == 1 {
        assert docs == [docs[0]] && outs == [outs[0]];
      }
    }
  }
}
