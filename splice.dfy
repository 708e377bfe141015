/** `newDocFileText`: the option documentation spliced into the lines of a docfile, between a line
    whose trimmed text is the start delimiter and the next line whose trimmed text is the end
    delimiter. The pieces handed to the line-separated builder are specified here; the text is
    those pieces joined with the line separator. The scan is stated for any two tests on lines,
    and `NewDocLines` instantiates them with the delimiter comparisons. */
module Splice {
  import opened Wrappers
  import opened Strings
  import opened Render

  /** The two flags the scan keeps: inside the region being replaced, and the replacement done. */
  datatype ScanState = ScanState(replacing: bool, replacedOnce: bool)

  const Pristine := ScanState(false, false)

  /** The rendered documentation inserted after the start line: the HTML, or in javadoc format the
      HTML as a comment indented like the start line's '*'. */
  function Block(line: string, html: string, javadoc: bool, eol: string): string {
    if javadoc then JavadocText(IndexOf(line, '*'), html, eol) else html
  }

  /** The pieces the loop appends for the remaining lines `lines` from state `st`: `isStart` and
      `isEnd` recognise the delimiter lines, `block` gives the documentation inserted after a start line. */
  function Scan<L>(lines: seq<L>, isStart: L -> bool, isEnd: L -> bool, block: L -> L,
                st: ScanState): (r: seq<L>)
    ensures |r| <= |lines| + (if st.replacedOnce then 0 else 1)
    decreases |lines|
  {
    if |lines| == 0 then []
    else
      var line, rest := lines[0], lines[1..];
      if st.replacing && !isEnd(line) then
        Scan(rest, isStart, isEnd, block, st)
      else if !st.replacedOnce && isStart(line) then
        [line, block(line)] + Scan(rest, isStart, isEnd, block, ScanState(true, true))
      else
        [line] + Scan(rest, isStart, isEnd, block, st.(replacing := false))
  }

  /** A line is a delimiter line when its text, trimmed, is the delimiter. */
  function IsDelimiter(delim: string): string -> bool {
    line => Trim(line) == delim
  }

  /** The block inserted after a start line `line`, for documentation `html`. */
  function InsertedBlock(html: string, javadoc: bool, eol: string): string -> string {
    line => Block(line, html, javadoc, eol)
  }

  /** Inside the region being replaced, a line that is not an end line is dropped. */
  lemma ScanSkipsAt<L>(lines: seq<L>, i: nat, isStart: L -> bool, isEnd: L -> bool, block: L -> L, st: ScanState)
    requires i < |lines| && st.replacing && !isEnd(lines[i])
    ensures Scan(lines[i..], isStart, isEnd, block, st) == Scan(lines[i + 1..], isStart, isEnd, block, st)
  {
    assert lines[i..][0] == lines[i] && lines[i..][1..] == lines[i + 1..];
  }

  /** The first start line outside a region is kept and followed by the block, and a region begins. */
  lemma ScanInsertsAt<L>(done: seq<L>, lines: seq<L>, i: nat, isStart: L -> bool, isEnd: L -> bool, block: L -> L,
                         st: ScanState)
    requires i < |lines| && (!st.replacing || isEnd(lines[i])) && !st.replacedOnce && isStart(lines[i])
    ensures done + Scan(lines[i..], isStart, isEnd, block, st)
         == done + [lines[i]] + [block(lines[i])] + Scan(lines[i + 1..], isStart, isEnd, block, ScanState(true, true))
  {
    assert lines[i..][0] == lines[i] && lines[i..][1..] == lines[i + 1..];
    var later := Scan(lines[i + 1..], isStart, isEnd, block, ScanState(true, true));
    assert done + ([lines[i], block(lines[i])] + later) == done + [lines[i]] + [block(lines[i])] + later;
  }

  /** Any other line outside a region, or the end line closing one, is kept and the region is over. */
  lemma ScanCopiesAt<L>(done: seq<L>, lines: seq<L>, i: nat, isStart: L -> bool, isEnd: L -> bool, block: L -> L,
                        st: ScanState)
    requires i < |lines| && (!st.replacing || isEnd(lines[i])) && !(!st.replacedOnce && isStart(lines[i]))
    ensures done + Scan(lines[i..], isStart, isEnd, block, st)
         == done + [lines[i]] + Scan(lines[i + 1..], isStart, isEnd, block, ScanState(false, st.replacedOnce))
  {
    assert lines[i..][0] == lines[i] && lines[i..][1..] == lines[i + 1..];
    var later := Scan(lines[i + 1..], isStart, isEnd, block, ScanState(false, st.replacedOnce));
    assert done + ([lines[i]] + later) == done + [lines[i]] + later;
  }

  /** The pieces of the new docfile text. */
  function NewDocLines(lines: seq<string>, startDelim: string, endDelim: string, block: string -> string)
    : (r: seq<string>)
    ensures |r| <= |lines| + 1
  {
    Scan(lines, IsDelimiter(startDelim), IsDelimiter(endDelim), block, Pristine)
  }

  // ---------------------------------------------------------------- closed form

  /** The position of the first line that passes `test`, if there is one. */
  function FirstMatch<L>(lines: seq<L>, test: L -> bool): (r: Option<nat>)
    ensures r.Some? ==> r.value < |lines|
    decreases |lines|
  {
    if |lines| == 0 then None
    else if test(lines[0]) then Some(0)
    else
      match FirstMatch(lines[1..], test)
      case None => None
      case Some(k) => Some(k + 1)
  }

  /** `FirstMatch` finds a passing line with no passing line before it, and finds nothing only when
      no line passes. */
  lemma {:induction false} FirstMatchIsFirst<L>(lines: seq<L>, test: L -> bool)
    ensures FirstMatch(lines, test).Some? ==>
      var s := FirstMatch(lines, test).value;
      test(lines[s]) && forall j :: 0 <= j < s ==> !test(lines[j])
    ensures FirstMatch(lines, test).None? ==> forall j :: 0 <= j < |lines| ==> !test(lines[j])
    decreases |lines|
  {
    if |lines| > 0 && !test(lines[0]) {
      FirstMatchIsFirst(lines[1..], test);
      forall j | 1 <= j < |lines|
        ensures lines[j] == lines[1..][j - 1]
      {
      }
    }
  }

  /** The first match is the one position that passes with no passing line before it. */
  lemma {:induction false} FirstMatchCharacterized<L>(lines: seq<L>, test: L -> bool, s: nat)
    requires s < |lines| && test(lines[s])
    requires forall j :: 0 <= j < s ==> !test(lines[j])
    ensures FirstMatch(lines, test) == Some(s)
    decreases s
  {
    if s > 0 {
      assert !test(lines[0]);
      forall j | 0 <= j < s - 1
        ensures !test(lines[1..][j])
      {
        assert lines[1..][j] == lines[j + 1];
      }
      FirstMatchCharacterized(lines[1..], test, s - 1);
    }
  }

  /** What survives of the lines after the start line: everything from the first end line on,
      and nothing when no end line follows. */
  function Kept<L>(rest: seq<L>, isEnd: L -> bool): seq<L> {
    match FirstMatch(rest, isEnd)
    case None => []
    case Some(e) => rest[e..]
  }

  /** `lines` with `inserted` after the first start line and the lines up to the next end line
      dropped; `lines` itself when no line is a start line. */
  function SplicedWith<L>(lines: seq<L>, isStart: L -> bool, isEnd: L -> bool, inserted: seq<L>)
    : seq<L>
  {
    match FirstMatch(lines, isStart)
    case None => lines
    case Some(s) => lines[..s + 1] + (inserted + Kept(lines[s + 1..], isEnd))
  }

  /** Once the replacement is done and its region closed, the remaining lines are copied as they are. */
  lemma {:induction false} ScanCopies<L>(lines: seq<L>, isStart: L -> bool, isEnd: L -> bool,
                                      block: L -> L)
    ensures Scan(lines, isStart, isEnd, block, ScanState(false, true)) == lines
    decreases |lines|
  {
    if |lines| > 0 {
      ScanCopies(lines[1..], isStart, isEnd, block);
      assert lines == [lines[0]] + lines[1..];
    }
  }

  /** Inside the replaced region, lines are dropped up to the end line; it and all later lines are kept. */
  lemma {:induction false} ScanReplacing<L>(lines: seq<L>, isStart: L -> bool, isEnd: L -> bool,
                                         block: L -> L)
    ensures Scan(lines, isStart, isEnd, block, ScanState(true, true)) == Kept(lines, isEnd)
    decreases |lines|
  {
    if |lines| > 0 {
      if isEnd(lines[0]) {
        ScanCopies(lines[1..], isStart, isEnd, block);
        assert lines == [lines[0]] + lines[1..];
      } else {
        ScanReplacing(lines[1..], isStart, isEnd, block);
      }
    }
  }

  /** A scan from the pristine state whose first line is a start line. */
  lemma ScanPristineAtStart<L>(lines: seq<L>, isStart: L -> bool, isEnd: L -> bool,
                            block: L -> L)
    requires |lines| > 0 && isStart(lines[0])
    ensures Scan(lines, isStart, isEnd, block, Pristine) == SplicedWith(lines, isStart, isEnd, [block(lines[0])])
  {
    var line, rest := lines[0], lines[1..];
    ScanReplacing(rest, isStart, isEnd, block);
    assert lines[..1] == [line];
  }

  /** A scan from the pristine state whose first line is not a start line copies it. */
  lemma ScanPristineBeforeStart<L>(lines: seq<L>, isStart: L -> bool, isEnd: L -> bool,
                                block: L -> L, s: nat)
    requires 0 < |lines| && !isStart(lines[0])
    requires FirstMatch(lines[1..], isStart) == Some(s)
    requires Scan(lines[1..], isStart, isEnd, block, Pristine)
          == SplicedWith(lines[1..], isStart, isEnd, [block(lines[1..][s])])
    ensures Scan(lines, isStart, isEnd, block, Pristine) == SplicedWith(lines, isStart, isEnd, [block(lines[s + 1])])
  {
    var line, rest := lines[0], lines[1..];
    var tail := [block(rest[s])] + Kept(rest[s + 1..], isEnd);
    assert Scan(lines, isStart, isEnd, block, Pristine) == [line] + (rest[..s + 1] + tail);
    assert FirstMatch(lines, isStart) == Some(s + 1);
    ConsSlices(lines, s + 1, tail);
    assert SplicedWith(lines, isStart, isEnd, [block(lines[s + 1])]) == lines[..s + 2] + tail;
  }

  /** Before the start line, lines are copied; the first start line is followed by the block, and
      the rest is as `ScanReplacing` says. */
  lemma {:induction false} ScanPristine<L>(lines: seq<L>, isStart: L -> bool, isEnd: L -> bool,
                                        block: L -> L)
    ensures var out := Scan(lines, isStart, isEnd, block, Pristine);
      match FirstMatch(lines, isStart)
      case None => out == lines
      case Some(s) => out == SplicedWith(lines, isStart, isEnd, [block(lines[s])])
    decreases |lines|
  {
    if |lines| > 0 {
      if isStart(lines[0]) {
        ScanPristineAtStart(lines, isStart, isEnd, block);
      } else {
        ScanPristine(lines[1..], isStart, isEnd, block);
        match FirstMatch(lines[1..], isStart)
        case None =>
          assert lines == [lines[0]] + lines[1..];
        case Some(k) =>
          ScanPristineBeforeStart(lines, isStart, isEnd, block, k);
      }
    }
  }

  /** The scan in closed form, for any tests on lines: without a start line the lines are copied;
      otherwise the block follows the first start line, and the end line and the lines after it
      follow the block. */
  lemma ScanClosedForm<L>(lines: seq<L>, isStart: L -> bool, isEnd: L -> bool, block: L -> L)
    ensures var out := Scan(lines, isStart, isEnd, block, Pristine);
      match FirstMatch(lines, isStart)
      case None => out == lines
      case Some(s) =>
        match FirstMatch(lines[s + 1..], isEnd)
        case None => out == lines[..s + 1] + [block(lines[s])]
        case Some(e) => out == lines[..s + 1] + [block(lines[s])] + lines[s + 1 + e..]
  {
    ScanPristine(lines, isStart, isEnd, block);
    match FirstMatch(lines, isStart)
    case None =>
    case Some(s) =>
      SplicedWithClosedForm(lines, isStart, isEnd, [block(lines[s])], s);
  }

  /** `SplicedWith` once the start position `s` is known: the lines up to it, the inserted lines,
      and the end line and those after it when there is one. */
  lemma SplicedWithClosedForm<L>(lines: seq<L>, isStart: L -> bool, isEnd: L -> bool, inserted: seq<L>, s: nat)
    requires FirstMatch(lines, isStart) == Some(s)
    ensures match FirstMatch(lines[s + 1..], isEnd)
      case None => SplicedWith(lines, isStart, isEnd, inserted) == lines[..s + 1] + inserted
      case Some(e) => SplicedWith(lines, isStart, isEnd, inserted) == lines[..s + 1] + inserted + lines[s + 1 + e..]
  {
    var kept := Kept(lines[s + 1..], isEnd);
    assert SplicedWith(lines, isStart, isEnd, inserted) == lines[..s + 1] + (inserted + kept);
    match FirstMatch(lines[s + 1..], isEnd)
    case None =>
      assert kept == [];
      assert inserted + kept == inserted;
    case Some(e) =>
      assert Kept(lines[s + 1..], isEnd) == lines[s + 1 + e..];
      AppendAssoc(lines[..s + 1], inserted, lines[s + 1 + e..]);
  }

  /** The splice in closed form: with no start line the docfile is copied unchanged; otherwise the
      lines up to and including the first start line are copied, the rendered block follows, the
      lines up to the next end line are dropped, and the end line and every later line are copied
      (a later start line triggers nothing). With no end line, nothing after the block survives. */
  lemma NewDocLinesIsSpliced(lines: seq<string>, startDelim: string, endDelim: string, block: string -> string)
    ensures var out, isStart, isEnd := NewDocLines(lines, startDelim, endDelim, block),
                                       IsDelimiter(startDelim), IsDelimiter(endDelim);
      match FirstMatch(lines, isStart)
      case None => out == lines
      case Some(s) =>
        match FirstMatch(lines[s + 1..], isEnd)
        case None => out == lines[..s + 1] + [block(lines[s])]
        case Some(e) => out == lines[..s + 1] + [block(lines[s])] + lines[s + 1 + e..]
  {
    ScanClosedForm(lines, IsDelimiter(startDelim), IsDelimiter(endDelim), block);
  }

  /** The first match in the lines from position `from` on, in the positions of the whole list. */
  lemma FirstMatchAfter<L>(lines: seq<L>, from: nat, test: L -> bool)
    requires from <= |lines|
    ensures match FirstMatch(lines[from..], test)
      case None => forall j :: from <= j < |lines| ==> !test(lines[j])
      case Some(e) => from + e < |lines| && test(lines[from + e]) && forall j :: from <= j < from + e ==> !test(lines[j])
  {
    var rest := lines[from..];
    FirstMatchIsFirst(rest, test);
    forall j | from <= j < |lines|
      ensures lines[j] == rest[j - from]
    {
    }
  }

  /** The end line looked for after position `s` is a delimiter line, and no line between is one. */
  lemma EndPosition(lines: seq<string>, s: nat, endDelim: string)
    requires s < |lines|
    ensures match FirstMatch(lines[s + 1..], IsDelimiter(endDelim))
      case None => forall j :: s < j < |lines| ==> Trim(lines[j]) != endDelim
      case Some(e) =>
        && s + 1 + e < |lines| && Trim(lines[s + 1 + e]) == endDelim
        && forall j :: s < j < s + 1 + e ==> Trim(lines[j]) != endDelim
  {
    var isEnd := IsDelimiter(endDelim);
    FirstMatchAfter(lines, s + 1, isEnd);
    match FirstMatch(lines[s + 1..], isEnd)
    case None =>
      forall j | s < j < |lines|
        ensures Trim(lines[j]) != endDelim
      {
        assert !isEnd(lines[j]);
      }
    case Some(e) =>
      assert isEnd(lines[s + 1 + e]);
      forall j | s < j < s + 1 + e
        ensures Trim(lines[j]) != endDelim
      {
        assert !isEnd(lines[j]);
      }
  }

  /** The matches named by the closed form are delimiter lines, and the first ones: no line before
      the start line is a start line, and no line between it and the end line is an end line. */
  lemma SplicePositions(lines: seq<string>, startDelim: string, endDelim: string)
    ensures match FirstMatch(lines, IsDelimiter(startDelim))
      case None => forall j :: 0 <= j < |lines| ==> Trim(lines[j]) != startDelim
      case Some(s) =>
        && Trim(lines[s]) == startDelim
        && (forall j :: 0 <= j < s ==> Trim(lines[j]) != startDelim)
        && match FirstMatch(lines[s + 1..], IsDelimiter(endDelim))
           case None => forall j :: s < j < |lines| ==> Trim(lines[j]) != endDelim
           case Some(e) =>
             && Trim(lines[s + 1 + e]) == endDelim
             && forall j :: s < j < s + 1 + e ==> Trim(lines[j]) != endDelim
  {
    var isStart, isEnd := IsDelimiter(startDelim), IsDelimiter(endDelim);
    FirstMatchIsFirst(lines, isStart);
    match FirstMatch(lines, isStart)
    case None =>
      forall j | 0 <= j < |lines|
        ensures Trim(lines[j]) != startDelim
      {
        assert !isStart(lines[j]);
      }
    case Some(s) =>
      assert isStart(lines[s]);
      forall j | 0 <= j < s
        ensures Trim(lines[j]) != startDelim
      {
        assert !isStart(lines[j]);
      }
      EndPosition(lines, s, endDelim);
  }

  /** Lines that do not pass, put in front of others, push the first match back by their number. */
  lemma FirstMatchSkips<L>(a: seq<L>, b: seq<L>, test: L -> bool)
    requires forall i :: 0 <= i < |a| ==> !test(a[i])
    ensures match FirstMatch(b, test)
      case None => FirstMatch(a + b, test).None?
      case Some(e) => FirstMatch(a + b, test) == Some(|a| + e)
  {
    var ab := a + b;
    FirstMatchIsFirst(b, test);
    match FirstMatch(b, test)
    case None =>
      FirstMatchIsFirst(ab, test);
    case Some(e) =>
      assert ab[|a| + e] == b[e];
      forall j | 0 <= j < |a| + e
        ensures !test(ab[j])
      {
        if j < |a| {
          assert ab[j] == a[j];
        } else {
          assert ab[j] == b[j - |a|];
        }
      }
      FirstMatchCharacterized(ab, test, |a| + e);
  }

  /** Two sequences of lines that agree up to and including a match agree on where the first match is. */
  lemma FirstMatchPrefix<L>(a: seq<L>, b: seq<L>, s: nat, test: L -> bool)
    requires FirstMatch(a, test) == Some(s)
    requires s < |b| && a[..s + 1] == b[..s + 1]
    ensures FirstMatch(b, test) == Some(s)
  {
    FirstMatchIsFirst(a, test);
    forall j | 0 <= j <= s
      ensures b[j] == a[j]
    {
      assert a[j] == a[..s + 1][j];
      assert b[j] == b[..s + 1][j];
    }
    FirstMatchCharacterized(b, test, s);
  }

  /** Splicing again with the same inserted lines changes nothing, provided none of them is an end
      line: a docfile brought up to date stays up to date. */
  lemma SpliceIdempotent<L>(lines: seq<L>, isStart: L -> bool, isEnd: L -> bool, inserted: seq<L>)
    requires forall i :: 0 <= i < |inserted| ==> !isEnd(inserted[i])
    ensures var once := SplicedWith(lines, isStart, isEnd, inserted);
      SplicedWith(once, isStart, isEnd, inserted) == once
  {
    match FirstMatch(lines, isStart)
    case None =>
    case Some(s) =>
      var kept := Kept(lines[s + 1..], isEnd);
      var once := lines[..s + 1] + (inserted + kept);
      assert once[..s + 1] == lines[..s + 1] && once[s + 1..] == inserted + kept;
      FirstMatchPrefix(lines, once, s, isStart);
      KeptAfterInserted(inserted, lines[s + 1..], isEnd);
      assert Kept(once[s + 1..], isEnd) == kept;
      SplicedAt(lines, isStart, isEnd, inserted, s);
      SplicedAt(once, isStart, isEnd, inserted, s);
  }

  /** The splice around a known first start line. */
  lemma SplicedAt<L>(lines: seq<L>, isStart: L -> bool, isEnd: L -> bool, inserted: seq<L>, s: nat)
    requires FirstMatch(lines, isStart) == Some(s)
    ensures SplicedWith(lines, isStart, isEnd, inserted) == lines[..s + 1] + (inserted + Kept(lines[s + 1..], isEnd))
  {
  }

  /** The inserted lines hold no end line, so what a second splice keeps is what the first one kept. */
  lemma KeptAfterInserted<L>(inserted: seq<L>, rest: seq<L>, isEnd: L -> bool)
    requires forall i :: 0 <= i < |inserted| ==> !isEnd(inserted[i])
    ensures Kept(inserted + Kept(rest, isEnd), isEnd) == Kept(rest, isEnd)
  {
    var kept := Kept(rest, isEnd);
    FirstMatchSkips(inserted, kept, isEnd);
    KeptStartsAtEnd(rest, isEnd);
    match FirstMatch(kept, isEnd)
    case None =>
    case Some(e) =>
      assert (inserted + kept)[|inserted|..] == kept;
  }

  /** The kept lines are empty or start with an end line. */
  lemma KeptStartsAtEnd<L>(rest: seq<L>, isEnd: L -> bool)
    ensures var kept := Kept(rest, isEnd);
      match FirstMatch(kept, isEnd)
      case None => kept == []
      case Some(e) => e == 0
  {
    FirstMatchIsFirst(rest, isEnd);
    match FirstMatch(rest, isEnd)
    case None =>
    case Some(k) =>
      FirstMatchCharacterized(rest[k..], isEnd, 0);
  }
}
