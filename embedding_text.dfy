/**
 * `createEmbeddingText` from scripts/generate-embeddings.js: the text sent to
 * the embeddings API for one post row. It is a list of labelled sections in a
 * fixed order, with the optional ones left empty when their field is empty;
 * the empty ones are dropped and the rest joined with a blank line.
 *
 * Beside the array literal of the script, the model gives the sections as
 * structured values (`Sections`); the module EmbeddingParse reads them
 * back from the text.
 */
module EmbeddingText {
  import opened JsText

  /** A scalar column of a post row: a string, SQL NULL, or a property that is not there. */
  datatype Field = Undefined | Null | Text(s: string)

  /** An array column: NULL or absent, or an array of elements. */
  datatype ListField = NoList | Items(elems: seq<Field>)

  /** The columns of a `blog_posts` row that the text is built from. */
  datatype Post = Post(
    title: Field,
    summary: Field,
    primaryTopic: Field,
    secondaryTopics: ListField,
    tags: ListField,
    targetAudience: Field,
    prerequisiteConcepts: ListField,
    estimatedValue: Field,
    content: Field)

  /** A scalar column as a template literal writes it. */
  function Interpolate(f: Field): string {
    match f
    case Undefined => "undefined"
    case Null => "null"
    case Text(s) => s
  }

  /** JavaScript truthiness of a scalar column. */
  predicate Truthy(f: Field) {
    f.Text? && f.s != []
  }

  /** An array element as `Array.prototype.join` writes it: null and undefined become empty. */
  function ElementText(f: Field): string {
    if f.Text? then f.s else []
  }

  /** The column is an array with at least one element. */
  predicate HasElements(l: ListField) {
    l.Items? && |l.elems| > 0
  }

  /** The elements of an array column joined with `, `. */
  function JoinList(l: ListField): string {
    if l.Items? then Join(seq(|l.elems|, i requires 0 <= i < |l.elems| => ElementText(l.elems[i])), ", ")
    else []
  }

  const Separator: string := "\n\n"

  // ----- the sections as structured values

  /** The section labels, in the order the text lists them. */
  datatype Label = Title | Summary | Topic | Subtopics | Tags | Audience | Prerequisites | Value | Content

  const AllLabels: seq<Label> := [Title, Summary, Topic, Subtopics, Tags, Audience, Prerequisites, Value, Content]

  /** The position of a label in the fixed order. */
  function Rank(l: Label): nat {
    match l
    case Title => 0
    case Summary => 1
    case Topic => 2
    case Subtopics => 3
    case Tags => 4
    case Audience => 5
    case Prerequisites => 6
    case Value => 7
    case Content => 8
  }

  /** What is written in front of a section: the label, a colon and a space. */
  function Prefix(l: Label): string {
    match l
    case Title => "Title: "
    case Summary => "Summary: "
    case Topic => "Topic: "
    case Subtopics => "Subtopics: "
    case Tags => "Tags: "
    case Audience => "Audience: "
    case Prerequisites => "Prerequisites: "
    case Value => "Value: "
    case Content => "Content: "
  }

  /** The section for `l` is in the text of `post`. */
  predicate Present(post: Post, l: Label) {
    match l
    case Title => true
    case Summary => Truthy(post.summary)
    case Topic => true
    case Subtopics => HasElements(post.secondaryTopics)
    case Tags => HasElements(post.tags)
    case Audience => Truthy(post.targetAudience)
    case Prerequisites => HasElements(post.prerequisiteConcepts)
    case Value => Truthy(post.estimatedValue)
    case Content => true
  }

  /** What follows the label: the field's text, or a list joined with `, `. */
  function Body(post: Post, l: Label): string {
    match l
    case Title => Interpolate(post.title)
    case Summary => Interpolate(post.summary)
    case Topic => Interpolate(post.primaryTopic)
    case Subtopics => JoinList(post.secondaryTopics)
    case Tags => JoinList(post.tags)
    case Audience => Interpolate(post.targetAudience)
    case Prerequisites => JoinList(post.prerequisiteConcepts)
    case Value => Interpolate(post.estimatedValue)
    case Content => Interpolate(post.content)
  }

  datatype Section = Section(heading: Label, body: string)

  /** A section as it is written: `Label: body`. */
  function RenderSection(sec: Section): (r: string)
    ensures r != []
  {
    Prefix(sec.heading) + sec.body
  }

  function RenderAll(secs: seq<Section>): (r: seq<string>)
    ensures |r| == |secs|
    ensures forall k :: 0 <= k < |r| ==> r[k] == RenderSection(secs[k])
  {
    if secs == [] then [] else [RenderSection(secs[0])] + RenderAll(secs[1..])
  }

  /** The sections of `post` for the labels `ls`, in their order. */
  function SectionsFor(post: Post, ls: seq<Label>): (r: seq<Section>)
    ensures |r| <= |ls|
  {
    if ls == [] then []
    else if Present(post, ls[0]) then [Section(ls[0], Body(post, ls[0]))] + SectionsFor(post, ls[1..])
    else SectionsFor(post, ls[1..])
  }

  /** Each section comes from a listed label whose field is present, and holds that field's body. */
  lemma {:induction false} SectionsForFields(post: Post, ls: seq<Label>)
    ensures forall k :: 0 <= k < |SectionsFor(post, ls)| ==>
      var sec := SectionsFor(post, ls)[k];
      sec.heading in ls && Present(post, sec.heading) && sec.body == Body(post, sec.heading)
  {
    if ls != [] {
      SectionsForFields(post, ls[1..]);
      var rest := SectionsFor(post, ls[1..]);
      if Present(post, ls[0]) {
        var secs := SectionsFor(post, ls);
        assert secs == [Section(ls[0], Body(post, ls[0]))] + rest;
        assert forall k :: 1 <= k < |secs| ==> secs[k] == rest[k - 1];
      }
    }
  }

  /** The sections in the text of `post`. */
  function Sections(post: Post): seq<Section> {
    SectionsFor(post, AllLabels)
  }

  /** The array-literal entry for `l`: its section, or `''` when it is omitted. */
  function PartFor(post: Post, l: Label): string {
    if Present(post, l) then RenderSection(Section(l, Body(post, l))) else ""
  }

  function PartsFor(post: Post, ls: seq<Label>): (r: seq<string>)
    ensures |r| == |ls|
    ensures forall k :: 0 <= k < |ls| ==> r[k] == PartFor(post, ls[k])
  {
    seq(|ls|, k requires 0 <= k < |ls| => PartFor(post, ls[k]))
  }

  /** Nine entries, each the one for the label at its position, are the entries for all the labels in order. */
  predicate ByPosition(post: Post, xs: seq<string>) {
    |xs| == 9
    && xs[0] == PartFor(post, Title) && xs[1] == PartFor(post, Summary) && xs[2] == PartFor(post, Topic)
    && xs[3] == PartFor(post, Subtopics) && xs[4] == PartFor(post, Tags) && xs[5] == PartFor(post, Audience)
    && xs[6] == PartFor(post, Prerequisites) && xs[7] == PartFor(post, Value) && xs[8] == PartFor(post, Content)
  }

  lemma ByRank(post: Post, xs: seq<string>)
    requires ByPosition(post, xs)
    ensures xs == PartsFor(post, AllLabels)
  {
    var ys := PartsFor(post, AllLabels);
    forall k | 0 <= k < 9 ensures xs[k] == ys[k] {
      assert ys[k] == PartFor(post, AllLabels[k]);
    }

  }

  /** `.filter(Boolean)` removes exactly the placeholders of the omitted sections. */
  lemma {:induction false} FilterKeepsSections(post: Post, ls: seq<Label>)
    ensures FilterNonEmpty(PartsFor(post, ls)) == RenderAll(SectionsFor(post, ls))
  {
    if ls != [] {
      var parts := PartsFor(post, ls);
      assert parts[1..] == PartsFor(post, ls[1..]);
      FilterKeepsSections(post, ls[1..]);
      var tail := SectionsFor(post, ls[1..]);
      if Present(post, ls[0]) {
        var sec := Section(ls[0], Body(post, ls[0]));
        assert SectionsFor(post, ls) == [sec] + tail;
        assert RenderAll([sec] + tail) == [RenderSection(sec)] + RenderAll(tail) by {
          assert ([sec] + tail)[1..] == tail;
        }
      }
    }
  }

  /** The array literal of `createEmbeddingText`, with `''` for an omitted section. */
  function Parts(post: Post): seq<string> {
    [
      "Title: " + Interpolate(post.title),
      if Truthy(post.summary) then "Summary: " + Interpolate(post.summary) else "",
      "Topic: " + Interpolate(post.primaryTopic),
      if HasElements(post.secondaryTopics) then "Subtopics: " + JoinList(post.secondaryTopics) else "",
      if HasElements(post.tags) then "Tags: " + JoinList(post.tags) else "",
      if Truthy(post.targetAudience) then "Audience: " + Interpolate(post.targetAudience) else "",
      if HasElements(post.prerequisiteConcepts) then "Prerequisites: " + JoinList(post.prerequisiteConcepts) else "",
      if Truthy(post.estimatedValue) then "Value: " + Interpolate(post.estimatedValue) else "",
      "Content: " + Interpolate(post.content)
    ]
  }

  /** Each entry of the array literal is the one for the label at its position. */
  lemma PartsByPosition(post: Post)
    ensures ByPosition(post, Parts(post))
  {
    var xs := Parts(post);
    assert xs[0] == PartFor(post, Title);
    assert xs[1] == PartFor(post, Summary);
    assert xs[2] == PartFor(post, Topic);
    assert xs[3] == PartFor(post, Subtopics);
    assert xs[4] == PartFor(post, Tags);
    assert xs[5] == PartFor(post, Audience);
    assert xs[6] == PartFor(post, Prerequisites);
    assert xs[7] == PartFor(post, Value);
    assert xs[8] == PartFor(post, Content);
  }

  /** The array literal lists, label by label in the fixed order, each section or `''` when it is omitted. */
  lemma PartsAreByLabel(post: Post)
    ensures Parts(post) == PartsFor(post, AllLabels)
  {
    PartsByPosition(post);
    ByRank(post, Parts(post));
  }

  /** `createEmbeddingText(post)`: the present sections, each `Label: body`, joined with a blank line. */
  function CreateEmbeddingText(post: Post): (r: string)
    ensures r == Join(RenderAll(Sections(post)), Separator)
  {
    PartsAreByLabel(post);
    FilterKeepsSections(post, AllLabels);
    Join(FilterNonEmpty(Parts(post)), Separator)
  }

  /** Labels listed in strictly increasing rank. */
  predicate RanksIncrease(ls: seq<Label>) {
    forall i, j :: 0 <= i < j < |ls| ==> Rank(ls[i]) < Rank(ls[j])
  }

  /** The sections for labels in increasing rank come out in increasing rank. */
  lemma {:induction false} SectionsForOrdered(post: Post, ls: seq<Label>)
    requires RanksIncrease(ls)
    ensures forall i, j :: 0 <= i < j < |SectionsFor(post, ls)| ==>
      Rank(SectionsFor(post, ls)[i].heading) < Rank(SectionsFor(post, ls)[j].heading)
  {
    if ls != [] {
      var tail := ls[1..];
      assert RanksIncrease(tail);
      SectionsForOrdered(post, tail);
      SectionsForFields(post, tail);
      var rest := SectionsFor(post, tail);
      assert forall k :: 0 <= k < |rest| ==> Rank(ls[0]) < Rank(rest[k].heading) by {
        forall k | 0 <= k < |rest| ensures Rank(ls[0]) < Rank(rest[k].heading) {
          var j :| 0 <= j < |tail| && tail[j] == rest[k].heading;
          assert ls[j + 1] == tail[j];
        }
      }
      if Present(post, ls[0]) {
        var secs := SectionsFor(post, ls);
        assert secs == [Section(ls[0], Body(post, ls[0]))] + rest;
        assert forall k :: 1 <= k < |secs| ==> secs[k] == rest[k - 1];
      }
    }
  }

  /** The sections for `ls` include one for `l` exactly when `l` is listed and its section is present. */
  lemma {:induction false} SectionsForHas(post: Post, ls: seq<Label>, l: Label)
    ensures (exists k :: 0 <= k < |SectionsFor(post, ls)| && SectionsFor(post, ls)[k].heading == l)
            <==> l in ls && Present(post, l)
  {
    SectionsForFields(post, ls);
    if ls != [] {
      SectionsForHas(post, ls[1..], l);
      var rest := SectionsFor(post, ls[1..]);
      var secs := SectionsFor(post, ls);
      if Present(post, ls[0]) {
        assert secs == [Section(ls[0], Body(post, ls[0]))] + rest;
        if l in ls && Present(post, l) {
          if l == ls[0] {
            assert secs[0].heading == l;
          } else {
            assert l in ls[1..];
            var k :| 0 <= k < |rest| && rest[k].heading == l;
            assert secs[k + 1].heading == l;
          }
        }
      } else {
        assert secs == rest;
      }
    }
  }

  /** The sections are in the fixed order Title, Summary, Topic, ..., Value, Content. */
  lemma SectionsOrdered(post: Post)
    ensures forall i, j :: 0 <= i < j < |Sections(post)| ==>
      Rank(Sections(post)[i].heading) < Rank(Sections(post)[j].heading)
  {
    SectionsForOrdered(post, AllLabels);
  }

  /**
   * A section is present exactly when its field is non-empty; Title, Topic
   * and Content are always present, Topic even when the topic is missing.
   */
  lemma SectionPresentIff(post: Post, l: Label)
    ensures (exists k :: 0 <= k < |Sections(post)| && Sections(post)[k].heading == l) <==> Present(post, l)
    ensures l == Title || l == Topic || l == Content ==> Present(post, l)
  {
    assert AllLabels[Rank(l)] == l;
    assert l in AllLabels;
    SectionsForHas(post, AllLabels, l);
    assert Sections(post) == SectionsFor(post, AllLabels);
  }

  /** Every section is one whose field is present, and holds that field's text. */
  lemma SectionBodies(post: Post)
    ensures forall k :: 0 <= k < |Sections(post)| ==>
      Present(post, Sections(post)[k].heading) && Sections(post)[k].body == Body(post, Sections(post)[k].heading)
  {
    SectionsForFields(post, AllLabels);
  }

  /** The sections for two runs of labels are the sections of each run, in turn. */
  lemma {:induction false} SectionsForAppend(post: Post, ls: seq<Label>, ms: seq<Label>)
    ensures SectionsFor(post, ls + ms) == SectionsFor(post, ls) + SectionsFor(post, ms)
  {
    if ls != [] {
      assert (ls + ms)[1..] == ls[1..] + ms;
      SectionsForAppend(post, ls[1..], ms);
    } else {
      assert ls + ms == ms;
    }
  }

  /** The sections of a single label: its section, or none. */
  lemma SectionsForOne(post: Post, l: Label)
    ensures SectionsFor(post, [l]) == if Present(post, l) then [Section(l, Body(post, l))] else []
  {
    assert [l][1..] == [];
  }

  /** The labels between Topic and Content, all optional. */
  const MiddleLabels: seq<Label> := [Subtopics, Tags, Audience, Prerequisites, Value]

  /** The sections are Title, maybe Summary, Topic, the optional middle ones, and Content. */
  lemma SectionsSplit(post: Post)
    ensures Sections(post) == [Section(Title, Body(post, Title))] + (SectionsFor(post, [Summary])
                              + ([Section(Topic, Body(post, Topic))] + (SectionsFor(post, MiddleLabels)
                              + [Section(Content, Body(post, Content))])))
  {
    var rest := [Topic] + (MiddleLabels + [Content]);
    assert AllLabels == [Title] + ([Summary] + rest);
    SectionsForAppend(post, [Title], [Summary] + rest);
    SectionsForAppend(post, [Summary], rest);
    SectionsForAppend(post, [Topic], MiddleLabels + [Content]);
    SectionsForAppend(post, MiddleLabels, [Content]);
    SectionsForOne(post, Title);
    SectionsForOne(post, Topic);
    SectionsForOne(post, Content);
  }

  /**
   * There are between 3 and 9 sections; the first is Title, Topic is second
   * or third, and the last is Content.
   */
  lemma SectionsShape(post: Post)
    ensures 3 <= |Sections(post)| <= 9
    ensures Sections(post)[0] == Section(Title, Interpolate(post.title))
    ensures Sections(post)[|Sections(post)| - 1] == Section(Content, Interpolate(post.content))
    ensures Sections(post)[1].heading == Topic || Sections(post)[2].heading == Topic
  {
    SectionsSplit(post);
    var summary := SectionsFor(post, [Summary]);
    var mid := SectionsFor(post, MiddleLabels);
    assert |summary| <= 1 && |mid| <= 5;
  }

  /** The text starts with `Title: ` and the title. */
  lemma StartsWithTitle(post: Post)
    ensures "Title: " + Interpolate(post.title) <= CreateEmbeddingText(post)
  {
    SectionsShape(post);
    var rendered := RenderAll(Sections(post));
    assert rendered[0] == "Title: " + Interpolate(post.title);
  }

  /** The joined sections end with the Content section. */
  lemma JoinedSectionsEndWithContent(post: Post)
    ensures EndsWith(Join(RenderAll(Sections(post)), Separator), "Content: " + Interpolate(post.content))
  {
    var rendered := RenderAll(Sections(post));
    SectionsSplit(post);
    var secs := Sections(post);
    assert rendered[|rendered| - 1] == RenderSection(secs[|secs| - 1]);
    JoinEndsWithLast(rendered, Separator, "Content: " + Interpolate(post.content));
  }

  /** The text ends with `Content: ` and the content. */
  lemma EndsWithContent(post: Post)
    ensures EndsWith(CreateEmbeddingText(post), "Content: " + Interpolate(post.content))
  {
    JoinedSectionsEndWithContent(post);
  }
}
