/**
 * Reading an embedding text back into its sections: the inverse of
 * `CreateEmbeddingText`. A text is read as paragraphs `Label: body`
 * separated by a blank line, the last one being `Content: ...`, which runs to
 * the end of the text whatever it holds.
 *
 * The inverse shows what the text keeps of a post: when the fields before the
 * content are single lines, the text determines the sections, and two posts
 * with the same text have the same sections.
 */
module EmbeddingParse {
  import opened Wrappers
  import opened JsText
  import opened EmbeddingText

  /** The label without its colon. */
  function Name(l: Label): string {
    match l
    case Title => "Title"
    case Summary => "Summary"
    case Topic => "Topic"
    case Subtopics => "Subtopics"
    case Tags => "Tags"
    case Audience => "Audience"
    case Prerequisites => "Prerequisites"
    case Value => "Value"
    case Content => "Content"
  }

  /** The label a name stands for, if any. */
  function LabelOf(name: string): (r: Option<Label>)
    ensures r.Some? ==> Name(r.value) == name
  {
    if name == "Title" then Some(Title)
    else if name == "Summary" then Some(Summary)
    else if name == "Topic" then Some(Topic)
    else if name == "Subtopics" then Some(Subtopics)
    else if name == "Tags" then Some(Tags)
    else if name == "Audience" then Some(Audience)
    else if name == "Prerequisites" then Some(Prerequisites)
    else if name == "Value" then Some(Value)
    else if name == "Content" then Some(Content)
    else None
  }

  /** Every label's name is read back as that label. */
  lemma LabelOfName(l: Label)
    ensures LabelOf(Name(l)) == Some(l)
  {
    match l
    case Title =>
    case Summary =>
    case Topic =>
    case Subtopics =>
    case Tags =>
    case Audience =>
    case Prerequisites =>
    case Value =>
    case Content =>
  }

  /** The prefix of a section is its name, a colon and a space; the name holds no colon. */
  lemma PrefixIsName(l: Label)
    ensures Prefix(l) == Name(l) + ": "
    ensures ':' !in Name(l)
  {
    match l
    case Title =>
    case Summary =>
    case Topic =>
    case Subtopics =>
    case Tags =>
    case Audience =>
    case Prerequisites =>
    case Value =>
    case Content =>
  }

  /** The first position at or after `i` where a blank line `\n\n` starts. */
  function FindBreak(s: string, i: nat): (r: Option<nat>)
    requires i <= |s|
    ensures r.Some? ==> i <= r.value && r.value + 1 < |s| && s[r.value] == '\n' && s[r.value + 1] == '\n'
    ensures r.Some? ==> forall k :: i <= k < r.value ==> !(s[k] == '\n' && s[k + 1] == '\n')
    decreases |s| - i
  {
    if i + 1 >= |s| then None
    else if s[i] == '\n' && s[i + 1] == '\n' then Some(i)
    else FindBreak(s, i + 1)
  }

  /** In `a + "\n\n" + b`, with no line break in `a`, the first blank line is the one after `a`. */
  lemma {:induction false} FindBreakAfter(a: string, b: string, i: nat)
    requires i <= |a| && '\n' !in a[i..]
    ensures FindBreak(a + Separator + b, i) == Some(|a|)
    decreases |a| - i
  {
    var s := a + Separator + b;
    if i < |a| {
      assert s[i] == a[i] && a[i] in a[i..];
      assert '\n' !in a[i + 1..] by { assert forall k :: i + 1 <= k < |a| ==> a[k] in a[i..]; }
      FindBreakAfter(a, b, i + 1);
    } else {
      assert s[i] == '\n' && s[i + 1] == '\n';
    }
  }

  /** The label and the rest of a paragraph `Name: rest`. */
  function ReadHead(s: string): (r: Option<(Label, string)>)
    ensures r.Some? ==> s == Prefix(r.value.0) + r.value.1
  {
    var i := IndexOf(s, ':', 0);
    if i + 1 < |s| && s[i + 1] == ' ' then
      match LabelOf(s[..i])
      case None => None
      case Some(l) =>
        PrefixIsName(l);
        assert s == s[..i] + ": " + s[i + 2..];
        Some((l, s[i + 2..]))
    else None
  }

  /** `ReadHead` reads the prefix back. */
  lemma ReadHeadPrefix(l: Label, rest: string)
    ensures ReadHead(Prefix(l) + rest) == Some((l, rest))
  {
    PrefixIsName(l);
    var s := Prefix(l) + rest;
    var n := |Name(l)|;
    assert s == Name(l) + [':'] + ([' '] + rest);
    assert s[..n] == Name(l);
    assert forall m :: 0 <= m < n ==> s[m] != ':' by {
      assert forall m :: 0 <= m < n ==> s[m] == Name(l)[m];
    }
    IndexOfFirst(s, ':', 0, n);
    LabelOfName(l);
  }

  /**
   * The sections of a text: paragraphs up to the first blank line, until one
   * labelled Content, which takes the rest of the text. `None` when a
   * paragraph has no known label or the text ends before a Content section.
   */
  function ParseSections(s: string): Option<seq<Section>>
    decreases |s|, 1
  {
    match ReadHead(s)
    case None => None
    case Some((l, rest)) =>
      if l == Content then Some([Section(Content, rest)])
      else ParseParagraph(l, rest)
  }

  /** The sections from a paragraph labelled `l` (not Content) whose text after the label is `rest`. */
  function ParseParagraph(l: Label, rest: string): Option<seq<Section>>
    decreases |rest|, 0
  {
    match FindBreak(rest, 0)
    case None => None
    case Some(j) =>
      match ParseSections(rest[j + 2..])
      case None => None
      case Some(secs) => Some([Section(l, rest[..j])] + secs)
  }

  /** What `ParseSections` reads back: sections ending with Content, the ones before it single lines. */
  predicate Readable(secs: seq<Section>) {
    secs != []
    && secs[|secs| - 1].heading == Content
    && forall k :: 0 <= k < |secs| - 1 ==> secs[k].heading != Content && '\n' !in secs[k].body
  }

  /** A Content paragraph takes the rest of the text. */
  lemma ParseLast(body: string)
    ensures ParseSections(Prefix(Content) + body) == Some([Section(Content, body)])
  {
    ReadHeadPrefix(Content, body);
  }

  /** A paragraph with a label other than Content goes on with the text after the label. */
  lemma ParseOther(l: Label, rest: string)
    requires l != Content
    ensures ParseSections(Prefix(l) + rest) == ParseParagraph(l, rest)
  {
    ReadHeadPrefix(l, rest);
  }

  /** A single line before a blank line is the paragraph's body; the sections of the rest follow. */
  lemma ParagraphStep(l: Label, body: string, t: string, tail: seq<Section>)
    requires '\n' !in body
    requires ParseSections(t) == Some(tail)
    ensures ParseParagraph(l, body + Separator + t) == Some([Section(l, body)] + tail)
  {
    var rest := body + Separator + t;
    FindBreakAfter(body, t, 0);
    assert rest[..|body|] == body;
    assert rest[|body| + 2..] == t;
  }

  /** A single-line paragraph before a blank line is one section, followed by the sections of the rest. */
  lemma ParseStep(l: Label, body: string, t: string, tail: seq<Section>)
    requires l != Content && '\n' !in body
    requires ParseSections(t) == Some(tail)
    ensures ParseSections(Prefix(l) + body + Separator + t) == Some([Section(l, body)] + tail)
  {
    var rest := body + Separator + t;
    assert Prefix(l) + body + Separator + t == Prefix(l) + rest;
    ParseOther(l, rest);
    ParagraphStep(l, body, t, tail);
  }

  /** A single Content section is read back. */
  lemma ParseJoinedLast(secs: seq<Section>)
    requires |secs| == 1 && Readable(secs)
    ensures ParseSections(Join(RenderAll(secs), Separator)) == Some(secs)
  {
    var sec := secs[0];
    assert Join(RenderAll(secs), Separator) == Prefix(Content) + sec.body;
    ParseLast(sec.body);
    assert secs == [Section(Content, sec.body)];
  }

  /** The joined sections are the first one, a blank line, and the others joined. */
  lemma JoinedCons(sec: Section, tail: seq<Section>)
    requires tail != []
    ensures Join(RenderAll([sec] + tail), Separator)
            == Prefix(sec.heading) + sec.body + Separator + Join(RenderAll(tail), Separator)
  {
    var rendered := RenderAll([sec] + tail);
    assert ([sec] + tail)[1..] == tail;
    assert rendered[1..] == RenderAll(tail);
  }

  /** A single-line section in front of readable ones is read one paragraph first. */
  lemma ParseJoinedCons(sec: Section, tail: seq<Section>)
    requires sec.heading != Content && '\n' !in sec.body && tail != []
    requires ParseSections(Join(RenderAll(tail), Separator)) == Some(tail)
    ensures ParseSections(Join(RenderAll([sec] + tail), Separator)) == Some([sec] + tail)
  {
    JoinedCons(sec, tail);
    ParseStep(sec.heading, sec.body, Join(RenderAll(tail), Separator), tail);
  }

  /** Behind a readable first section that is not the last, the others are readable too. */
  lemma ReadableTail(secs: seq<Section>)
    requires |secs| > 1 && Readable(secs)
    ensures secs[0].heading != Content && '\n' !in secs[0].body
    ensures Readable(secs[1..])
  {
    var tail := secs[1..];
    assert forall k :: 0 <= k < |tail| - 1 ==> tail[k] == secs[k + 1];
  }

  /** Reading the joined sections gives the sections back. */
  lemma {:induction false} ParseJoined(secs: seq<Section>)
    requires Readable(secs)
    ensures ParseSections(Join(RenderAll(secs), Separator)) == Some(secs)
    decreases |secs|
  {
    if |secs| == 1 {
      ParseJoinedLast(secs);
    } else {
      var sec, tail := secs[0], secs[1..];
      assert secs == [sec] + tail;
      ReadableTail(secs);
      ParseJoined(tail);
      ParseJoinedCons(sec, tail);
    }
  }

  /** The fields in front of the content are single lines. */
  predicate SingleLineFields(post: Post) {
    forall l :: l != Content ==> '\n' !in Body(post, l)
  }

  /** The sections of a post are readable when its fields before the content are single lines. */
  lemma SectionsReadable(post: Post)
    requires SingleLineFields(post)
    ensures Readable(Sections(post))
  {
    var secs := Sections(post);
    SectionsShape(post);
    SectionsOrdered(post);
    SectionBodies(post);
    forall k | 0 <= k < |secs| - 1 ensures secs[k].heading != Content {
      assert Rank(secs[k].heading) < Rank(secs[|secs| - 1].heading);
    }
  }

  /** Reading the embedding text of a post gives its sections back. */
  lemma ParseEmbeddingText(post: Post)
    requires SingleLineFields(post)
    ensures ParseSections(CreateEmbeddingText(post)) == Some(Sections(post))
  {
    SectionsReadable(post);
    ParseJoined(Sections(post));
  }

  /** Posts whose single-line fields give the same text have the same sections. */
  lemma SameTextSameSections(p: Post, q: Post)
    requires SingleLineFields(p) && SingleLineFields(q)
    requires CreateEmbeddingText(p) == CreateEmbeddingText(q)
    ensures Sections(p) == Sections(q)
  {
    ParseEmbeddingText(p);
    ParseEmbeddingText(q);
  }
}
