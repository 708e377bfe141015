/** What the documentation doclet reads: the option metadata the binder collected
    (`Options.OptionInfo`, `Options.OptionGroupInfo`) and the javadoc tree of the sources. */
module OptionModel {
  import opened Wrappers

  /** One `@Option`-annotated field. `jdoc` is the description the doclet renders; it starts out
      absent (null) and is filled in from the field's source comment. */
  datatype OptionInfo = OptionInfo(
    shortName: Option<string>,
    aliases: seq<string>,
    longName: string,
    typeName: string,
    defaultStr: Option<string>,
    description: string,
    jdoc: Option<string>,
    unpublicized: bool,
    declaringClass: string)

  /** One option group. Its members are positions in the option list: the group and the list share
      the same option records, so an update made through the list is seen through the group. */
  datatype GroupInfo = GroupInfo(name: string, members: seq<nat>)

  /** The state of an `Options` instance the doclet uses. */
  datatype OptionSet = OptionSet(
    options: seq<OptionInfo>,
    groups: seq<GroupInfo>,
    usingGroups: bool,
    singleDash: bool)
  {
    /** Every group member names an option of the list. */
    predicate Valid() {
      GroupsIn(groups, options)
    }
  }

  predicate MembersIn(g: GroupInfo, opts: seq<OptionInfo>) {
    forall m :: 0 <= m < |g.members| ==> g.members[m] < |opts|
  }

  /** Every group of `gs` names options of `opts` only. */
  predicate GroupsIn(gs: seq<GroupInfo>, opts: seq<OptionInfo>) {
    forall g :: 0 <= g < |gs| ==> MembersIn(gs[g], opts)
  }

  /** The option records of group `g`, in group order (`gi.optionList`). */
  function Members(g: GroupInfo, opts: seq<OptionInfo>): (r: seq<OptionInfo>)
    requires MembersIn(g, opts)
    ensures |r| == |g.members|
    ensures forall m :: 0 <= m < |r| ==> r[m] == opts[g.members[m]]
  {
    seq(|g.members|, m requires 0 <= m < |g.members| => opts[g.members[m]])
  }

  /** The publicized options of `opts`, in list order, none left out. */
  function Publicized(opts: seq<OptionInfo>): (r: seq<OptionInfo>)
    ensures |r| <= |opts|
    ensures forall o :: o in r <==> o in opts && !o.unpublicized
    decreases |opts|
  {
    if |opts| == 0 then []
    else
      var last := opts[|opts| - 1];
      assert opts == opts[..|opts| - 1] + [last];
      Publicized(opts[..|opts| - 1]) + (if last.unpublicized then [] else [last])
  }

  /** The publicized options keep their list order: those of two runs of options are those of the
      first run followed by those of the second. */
  lemma {:induction false} PublicizedAppend(a: seq<OptionInfo>, b: seq<OptionInfo>)
    ensures Publicized(a + b) == Publicized(a) + Publicized(b)
    decreases |b|
  {
    if |b| > 0 {
      var n := |b| - 1;
      var tail := if b[n].unpublicized then [] else [b[n]];
      assert (a + b)[..|a + b| - 1] == a + b[..n] && (a + b)[|a + b| - 1] == b[n];
      assert Publicized(a + b) == Publicized(a + b[..n]) + tail;
      assert Publicized(b) == Publicized(b[..n]) + tail;
      PublicizedAppend(a, b[..n]);
      assert (Publicized(a) + Publicized(b[..n])) + tail == Publicized(a) + (Publicized(b[..n]) + tail);
    } else {
      assert a + b == a;
    }
  }

  /** `OptionGroupInfo.containsPublicizedOption`: some member of the group is publicized. */
  predicate ContainsPublicizedOption(g: GroupInfo, opts: seq<OptionInfo>)
    requires MembersIn(g, opts)
  {
    exists m :: 0 <= m < |g.members| && !opts[g.members[m]].unpublicized
  }

  /** A group contains a publicized option exactly when filtering its members leaves something. */
  lemma ContainsPublicizedIffNonEmpty(g: GroupInfo, opts: seq<OptionInfo>)
    requires MembersIn(g, opts)
    ensures ContainsPublicizedOption(g, opts) <==> |Publicized(Members(g, opts))| > 0
  {
    var ms := Members(g, opts);
    if ContainsPublicizedOption(g, opts) {
      var m :| 0 <= m < |g.members| && !opts[g.members[m]].unpublicized;
      assert ms[m] in ms;
      assert ms[m] in Publicized(ms);
    }
    if |Publicized(ms)| > 0 {
      var o := Publicized(ms)[0];
      assert o in Publicized(ms);
      var m :| 0 <= m < |ms| && ms[m] == o;
      assert !opts[g.members[m]].unpublicized;
    }
  }

  /** One inline tag of a javadoc comment: a `{@link}`/`@see` reference or plain text. */
  datatype Tag = Tag(text: string, isSee: bool)

  /** The parts of a comment the doclet flattens: its inline tags and the texts of its block `@see` tags. */
  datatype DocComment = DocComment(inlineTags: seq<Tag>, seeTags: seq<string>)

  datatype FieldDoc = FieldDoc(name: string, rawCommentText: string, commentText: string, doc: DocComment)

  datatype ClassDoc = ClassDoc(qualifiedName: string, fields: seq<FieldDoc>, doc: DocComment)

  /** The javadoc root: every class it knows, the ones named on the command line first. */
  datatype RootDoc = RootDoc(classes: seq<ClassDoc>)

  /** `root.classNamed(name)`: the first class with that name, or none (null). */
  function ClassNamed(classes: seq<ClassDoc>, name: string): (r: Option<ClassDoc>)
    ensures r.Some? ==> r.value in classes && r.value.qualifiedName == name
    ensures r.None? ==> forall c :: c in classes ==> c.qualifiedName != name
    decreases |classes|
  {
    if |classes| == 0 then None
    else if classes[0].qualifiedName == name then Some(classes[0])
    else ClassNamed(classes[1..], name)
  }

  /** The first field of `fields` called `name`, the one the doclet's search loop stops at. */
  function FieldNamed(fields: seq<FieldDoc>, name: string): (r: Option<FieldDoc>)
    ensures r.Some? ==> exists i :: 0 <= i < |fields| && fields[i] == r.value && r.value.name == name
                          && forall j :: 0 <= j < i ==> fields[j].name != name
    ensures r.None? ==> forall i :: 0 <= i < |fields| ==> fields[i].name != name
    decreases |fields|
  {
    if |fields| == 0 then None
    else if fields[0].name == name then Some(fields[0])
    else
      FieldNamed(fields[1..], name)
  }

  /** A field called `name` with no such field before it is the one `FieldNamed` finds. */
  lemma {:induction false} FieldNamedAt(fields: seq<FieldDoc>, name: string, k: nat)
    requires k < |fields| && fields[k].name == name
    requires forall j :: 0 <= j < k ==> fields[j].name != name
    ensures FieldNamed(fields, name) == Some(fields[k])
    decreases k
  {
    if k > 0 {
      FieldNamedAt(fields[1..], name, k - 1);
    }
  }

  /** No field is called `name`, so `FieldNamed` finds none. */
  lemma FieldNamedNone(fields: seq<FieldDoc>, name: string)
    requires forall j :: 0 <= j < |fields| ==> fields[j].name != name
    ensures FieldNamed(fields, name).None?
  {
  }
}
