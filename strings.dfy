/** The string operations the doclet borrows from the Java platform and from Apache Commons Lang,
    written out as functions on `seq<char>`. */
module Strings {

  /** The text of a `StringBuilderDelimited(sep)` after `parts` were appended in order:
      the parts with `sep` between consecutive ones. */
  function Join(parts: seq<string>, sep: string): string
    decreases |parts|
  {
    if |parts| == 0 then ""
    else if |parts| == 1 then parts[0]
    else Join(parts[..|parts| - 1], sep) + sep + parts[|parts| - 1]
  }

  /** Joining two non-empty runs of parts puts exactly one separator between them. */
  lemma {:induction false} JoinAppend(a: seq<string>, b: seq<string>, sep: string)
    requires |a| > 0 && |b| > 0
    ensures Join(a + b, sep) == Join(a, sep) + sep + Join(b, sep)
    decreases |b|
  {
    if |b| == 1 {
      assert (a + b)[..|a + b| - 1] == a;
    } else {
      var b' := b[..|b| - 1];
      assert (a + b)[..|a + b| - 1] == a + b';
      assert b == b' + [b[|b| - 1]];
      JoinAppend(a, b', sep);
    }
  }

  /** The parts an inner builder contributes once its text is appended to an outer one with the
      same separator: its own parts, or a single empty part when it received none. */
  function Expanded(inner: seq<string>): (r: seq<string>)
    ensures |r| > 0
  {
    if |inner| == 0 then [""] else inner
  }

  /** Appending the text of an inner builder is the same as appending its parts one by one. */
  lemma JoinFlatten(a: seq<string>, inner: seq<string>, c: seq<string>, sep: string)
    ensures Join(a + [Join(inner, sep)] + c, sep) == Join(a + Expanded(inner) + c, sep)
  {
    var b := Expanded(inner);
    var j := Join(inner, sep);
    assert j == Join(b, sep);
    if |c| > 0 {
      JoinAppend([j], c, sep);
      JoinAppend(b, c, sep);
    } else {
      assert [j] + c == [j];
      assert b + c == b;
    }
    assert Join([j] + c, sep) == Join(b + c, sep);
    if |a| > 0 {
      assert a + [j] + c == a + ([j] + c);
      assert a + b + c == a + (b + c);
      JoinAppend(a, [j] + c, sep);
      JoinAppend(a, b + c, sep);
    } else {
      assert a + [j] + c == [j] + c;
      assert a + b + c == b + c;
    }
  }

  /** `s.endsWith(suffix)`. */
  predicate EndsWith(s: string, suffix: string) {
    |suffix| <= |s| && s[|s| - |suffix|..] == suffix
  }

  /** A slice of `a + b` that lies within `a`, or exactly covers `b`. A step of `Render.BlocksOfSnoc`. */
  lemma SliceOfAppend<T>(a: seq<T>, b: seq<T>, i: nat, j: nat)
    requires i <= j <= |a| || (i == |a| && j == |a| + |b|)
    ensures j <= |a| ==> (a + b)[i..j] == a[i..j]
    ensures i == |a| && j == |a| + |b| ==> (a + b)[i..j] == b
  {
  }

  /** The two ways of grouping the runs around a middle run `x`. A step of `Render.GroupsFlatten`. */
  lemma Regroup<T>(a: seq<T>, p: seq<T>, h: seq<T>, x: seq<T>, f: seq<T>, c: seq<T>)
    ensures a + (p + (h + x + f)) + c == (a + p + h) + x + (f + c)
    ensures a + (p + (h + x + f)) + c == a + p + (h + x + f + c)
  {
  }

  /** Nothing in front of a sequence leaves it as it was. A step of `Render.FirstAlias`. */
  lemma EmptyAppend<T>(s: seq<T>)
    ensures [] + s == s
  {
  }

  /** A sequence is a prefix of itself followed by anything. A step of `Render.LineStart` and
      `Render.OptionToHtmlStart`. */
  lemma PrefixOfAppend<T>(a: seq<T>, b: seq<T>)
    ensures a <= a + b
  {
  }

  /** Appending is associative. A step of `Render.LineStart`, `Render.RenderedGroupsAppend` and
      `Splice.SplicedWithClosedForm`. */
  lemma AppendAssoc<T>(a: seq<T>, b: seq<T>, c: seq<T>)
    ensures (a + b) + c == a + (b + c)
  {
  }

  /** Cutting `s` after position `k`, seen from its first element, and regrouping what follows it.
      A step of `Splice.ScanPristineBeforeStart`. */
  lemma ConsSlices<T>(s: seq<T>, k: nat, tail: seq<T>)
    requires 0 < k < |s|
    ensures s[..k + 1] == [s[0]] + s[1..][..k]
    ensures s[k] == s[1..][k - 1]
    ensures [s[0]] + (s[1..][..k] + tail) == s[..k + 1] + tail
  {
  }

  /** Text put in front of a string that ends with `suffix` leaves it ending with `suffix`. */
  lemma EndsWithAppended(a: string, s: string, suffix: string)
    requires EndsWith(s, suffix)
    ensures EndsWith(a + s, suffix)
  {
    assert (a + s)[|a + s| - |suffix|..] == s[|s| - |suffix|..];
  }

  /** `StringUtils.repeat(" ", n)`: n spaces, and none when n is zero or negative. */
  function Spaces(n: int): (r: string)
    ensures |r| == if n <= 0 then 0 else n
    ensures forall i :: 0 <= i < |r| ==> r[i] == ' '
  {
    if n <= 0 then "" else seq(n, _ => ' ')
  }

  /** `s.indexOf(c)`: the first position of `c` in `s`, or -1 when `c` does not occur. */
  function IndexOf(s: string, c: char): (r: int)
    ensures r == -1 <==> c !in s
    ensures r != -1 ==> 0 <= r < |s| && s[r] == c && c !in s[..r]
    decreases |s|
  {
    if |s| == 0 then -1
    else if s[0] == c then 0
    else
      var k := IndexOf(s[1..], c);
      assert s == [s[0]] + s[1..];
      if k == -1 then -1
      else
        assert s[..k + 1] == [s[0]] + s[1..][..k];
        k + 1
  }

  /** The characters `String.trim` removes: every character up to and including the space. */
  predicate IsBlank(c: char) {
    c <= ' '
  }

  /** `s` without its leading blanks. */
  function TrimStart(s: string): string
    decreases |s|
  {
    if |s| > 0 && IsBlank(s[0]) then TrimStart(s[1..]) else s
  }

  /** `s` without its trailing blanks. */
  function TrimEnd(s: string): string
    decreases |s|
  {
    if |s| > 0 && IsBlank(s[|s| - 1]) then TrimEnd(s[..|s| - 1]) else s
  }

  /** `s.trim()`. */
  function Trim(s: string): string {
    TrimEnd(TrimStart(s))
  }

  /** Trimming the start drops exactly the leading blanks. */
  lemma {:induction false} TrimStartDropsBlanks(s: string)
    ensures var r := TrimStart(s);
      && |r| <= |s| && r == s[|s| - |r|..]
      && (|r| > 0 ==> !IsBlank(r[0]))
      && forall i :: 0 <= i < |s| - |r| ==> IsBlank(s[i])
    decreases |s|
  {
    if |s| > 0 && IsBlank(s[0]) {
      TrimStartDropsBlanks(s[1..]);
    }
  }

  /** Trimming the end drops exactly the trailing blanks. */
  lemma {:induction false} TrimEndDropsBlanks(s: string)
    ensures var r := TrimEnd(s);
      && |r| <= |s| && r == s[..|r|]
      && (|r| > 0 ==> !IsBlank(r[|r| - 1]))
      && forall i :: |r| <= i < |s| ==> IsBlank(s[i])
    decreases |s|
  {
    if |s| > 0 && IsBlank(s[|s| - 1]) {
      TrimEndDropsBlanks(s[..|s| - 1]);
    }
  }

  /** `s.trim()` is the slice of `s` between its leading and its trailing blanks, with neither end blank. */
  lemma TrimIsInnerSlice(s: string)
    ensures var r, i := Trim(s), |s| - |TrimStart(s)|;
      && 0 <= i && i + |r| <= |s| && r == s[i..i + |r|]
      && (forall j :: 0 <= j < i ==> IsBlank(s[j]))
      && (forall j :: i + |r| <= j < |s| ==> IsBlank(s[j]))
      && (|r| > 0 ==> !IsBlank(r[0]) && !IsBlank(r[|r| - 1]))
  {
    var t := TrimStart(s);
    TrimStartDropsBlanks(s);
    TrimEndDropsBlanks(t);
    var r := Trim(s);
    var i := |s| - |t|;
    assert r == s[i..i + |r|];
    forall j | i + |r| <= j < |s|
      ensures IsBlank(s[j])
    {
      assert s[j] == t[j - i];
    }
  }

  /** `Character.toLowerCase` on the ASCII capitals; every other character is left as it is. */
  function LowerChar(c: char): char {
    if 'A' <= c <= 'Z' then (c as int + 32) as char else c
  }

  /** `s.toLowerCase()`, character by character. */
  function ToLower(s: string): (r: string)
    ensures |r| == |s|
    decreases |s|
  {
    if |s| == 0 then "" else [LowerChar(s[0])] + ToLower(s[1..])
  }

  /** Each character of `s.toLowerCase()` is the lowercase of the character at its place. */
  lemma {:induction false} ToLowerChars(s: string)
    ensures forall i :: 0 <= i < |s| ==> ToLower(s)[i] == LowerChar(s[i])
    decreases |s|
  {
    if |s| > 0 {
      ToLowerChars(s[1..]);
    }
  }

  /** Lowercasing a lowercased string changes nothing. */
  lemma ToLowerIdempotent(s: string)
    ensures ToLower(ToLower(s)) == ToLower(s)
  {
    var l := ToLower(s);
    ToLowerChars(s);
    ToLowerChars(l);
    assert forall i :: 0 <= i < |l| ==> LowerChar(l[i]) == l[i];
  }

  /** `s.replace(from, to)` for characters. */
  function ReplaceChar(s: string, from: char, to: char): string {
    seq(|s|, i requires 0 <= i < |s| => if s[i] == from then to else s[i])
  }

  /** `StringUtils.removeStart(str, remove)`: `str` without a leading `remove`, and `str` itself
      when either is empty or `str` does not start with `remove`. */
  function RemoveStart(str: string, remove: string): string {
    if |str| == 0 || |remove| == 0 then str
    else if remove <= str then str[|remove|..]
    else str
  }

  /** The line terminators of `java.util.Scanner`: LF, CR, NEXT LINE, LINE SEPARATOR and
      PARAGRAPH SEPARATOR. */
  predicate IsLineTerminator(c: char) {
    c == '\n' || c == '\r' || c == '\U{0085}' || c == '\U{2028}' || c == '\U{2029}'
  }

  predicate HasNoTerminator(s: string) {
    forall i :: 0 <= i < |s| ==> !IsLineTerminator(s[i])
  }

  /** The length of the text in front of the first line terminator of `s`. */
  function LineEnd(s: string): (n: nat)
    ensures n <= |s|
    ensures forall i :: 0 <= i < n ==> !IsLineTerminator(s[i])
    ensures n < |s| ==> IsLineTerminator(s[n])
    decreases |s|
  {
    if |s| == 0 || IsLineTerminator(s[0]) then 0 else 1 + LineEnd(s[1..])
  }

  /** The lines `Scanner.nextLine` hands out while `Scanner.hasNextLine` holds: the text up to each
      terminator (CR LF counts as one terminator), and a last unterminated line only when it is not empty. */
  function Lines(s: string): seq<string>
    decreases |s|
  {
    if |s| == 0 then []
    else
      var n := LineEnd(s);
      if n == |s| then [s]
      else
        var next := if s[n] == '\r' && n + 1 < |s| && s[n + 1] == '\n' then n + 2 else n + 1;
        [s[..n]] + Lines(s[next..])
  }

  /** No line a Scanner hands out holds a line terminator. */
  lemma {:induction false} LinesHaveNoTerminator(s: string)
    ensures forall i :: 0 <= i < |Lines(s)| ==> HasNoTerminator(Lines(s)[i])
    decreases |s|
  {
    if |s| > 0 {
      var n := LineEnd(s);
      if n < |s| {
        var next := if s[n] == '\r' && n + 1 < |s| && s[n + 1] == '\n' then n + 2 else n + 1;
        LinesHaveNoTerminator(s[next..]);
        assert Lines(s) == [s[..n]] + Lines(s[next..]);
      }
    }
  }

  /** The values the `line.separator` property takes: LF, and CR LF. */
  predicate IsLineSeparator(eol: string) {
    eol == "\n" || eol == "\r\n"
  }

  /** Text without terminators in front of `t` runs up to where `t`'s first line ends. */
  lemma {:induction false} LineEndAfter(x: string, t: string)
    requires HasNoTerminator(x)
    ensures LineEnd(x + t) == |x| + LineEnd(t)
    decreases |x|
  {
    if |x| > 0 {
      assert (x + t)[0] == x[0];
      assert (x + t)[1..] == x[1..] + t;
      LineEndAfter(x[1..], t);
    } else {
      assert x + t == t;
    }
  }

  /** A line without terminators followed by a line separator is the first line read back. */
  lemma LinesOfCons(x: string, eol: string, r: string)
    requires IsLineSeparator(eol) && HasNoTerminator(x)
    ensures Lines(x + eol + r) == [x] + Lines(r)
  {
    var s := x + eol + r;
    assert s == x + (eol + r);
    LineEndAfter(x, eol + r);
    assert (eol + r)[0] == eol[0];
    assert LineEnd(s) == |x|;
    assert s[..|x|] == x;
    assert s[|x| + |eol|..] == r;
  }

  /** Splitting joined lines that hold no terminator gives those lines back, provided the last one
      is not empty (a Scanner does not report an empty last line). */
  lemma {:induction false} LinesOfJoin(lines: seq<string>, eol: string)
    requires IsLineSeparator(eol)
    requires forall i :: 0 <= i < |lines| ==> HasNoTerminator(lines[i])
    requires |lines| > 0 ==> lines[|lines| - 1] != ""
    ensures Lines(Join(lines, eol)) == lines
    decreases |lines|
  {
    if |lines| == 1 {
      LineEndAfter(lines[0], "");
      assert lines[0] + "" == lines[0];
    } else if |lines| > 1 {
      var x, rest := lines[0], lines[1..];
      assert lines == [x] + rest;
      JoinAppend([x], rest, eol);
      assert Join(lines, eol) == x + eol + Join(rest, eol);
      LinesOfCons(x, eol, Join(rest, eol));
      LinesOfJoin(rest, eol);
    }
  }
}
