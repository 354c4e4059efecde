/**
 * The front-matter update of scripts/process-obsidian-posts.js: the post's
 * front matter, overridden by the content metadata, then by the slug (the
 * existing one when truthy, otherwise one generated from the title) and by
 * the fixed layout.
 *
 * Front matter is an opaque map from keys to the values the YAML parser
 * produced; later entries override earlier ones.
 */
module FrontMatter {
  import opened Wrappers
  import opened JsText
  import opened Slug
  import opened Metadata

  /**
   * A front-matter value. `Composite` stands for arrays, objects and dates:
   * always truthy and never a string.
   */
  datatype Value = Null | Bool(b: bool) | Num(n: int) | Str(s: string) | Composite

  /** JavaScript truthiness. */
  predicate Truthy(v: Value) {
    match v
    case Null => false
    case Bool(b) => b
    case Num(n) => n != 0
    case Str(s) => s != []
    case Composite => true
  }

  /** `generateSlug(frontmatter.title)` throws a TypeError unless the title is a string. */
  datatype MergeError = TitleNotString

  const Layout: string := "post.njk"

  /** The keys `extractContentMetadata` sets. */
  const MetadataKeys: set<string> :=
    {"has_code_examples", "has_images", "has_external_links", "word_count", "estimated_reading_time"}

  /** The metadata object as front-matter entries. */
  function MetadataFields(m: ContentMetadata): (r: map<string, Value>)
    ensures r.Keys == MetadataKeys
  {
    map[
      "has_code_examples" := Bool(m.hasCodeExamples),
      "has_images" := Bool(m.hasImages),
      "has_external_links" := Bool(m.hasExternalLinks),
      "word_count" := Num(m.wordCount),
      "estimated_reading_time" := Num(m.estimatedReadingTime)]
  }

  /** `frontmatter.slug` is present and truthy. */
  predicate HasTruthySlug(fm: map<string, Value>) {
    "slug" in fm && Truthy(fm["slug"])
  }

  /** `frontmatter.title` is a string. */
  predicate HasStringTitle(fm: map<string, Value>) {
    "title" in fm && fm["title"].Str?
  }

  /**
   * The slug entry: the existing slug when truthy, otherwise a well-formed
   * slug of the title that keeps the title's word characters, lower-cased and
   * in order; an error when there is neither.
   */
  function SlugEntry(fm: map<string, Value>): (r: Result<Value, MergeError>)
    ensures r.Err? <==> !HasTruthySlug(fm) && !HasStringTitle(fm)
    ensures HasTruthySlug(fm) ==> r == Ok(fm["slug"])
    ensures r.Ok? && !HasTruthySlug(fm) ==>
      r.value.Str? && IsSlug(r.value.s) && WordChars(r.value.s) == Lower(WordChars(fm["title"].s))
  {
    if HasTruthySlug(fm) then Ok(fm["slug"])
    else if HasStringTitle(fm) then
      SlugKeepsWordChars(fm["title"].s);
      Ok(Str(GenerateSlug(fm["title"].s)))
    else Err(TitleNotString)
  }

  /** The updated front matter of one post, or the error that aborts the run. */
  function MergeFrontMatter(fm: map<string, Value>, m: ContentMetadata): (r: Result<map<string, Value>, MergeError>)
    ensures r.Err? <==> !HasTruthySlug(fm) && !HasStringTitle(fm)
    ensures r.Ok? ==> r.value.Keys == fm.Keys + MetadataKeys + {"slug", "layout"}
    ensures r.Ok? ==> r.value["layout"] == Str(Layout)
    ensures r.Ok? && HasTruthySlug(fm) ==> r.value["slug"] == fm["slug"]
    ensures r.Ok? && !HasTruthySlug(fm) ==>
      r.value["slug"] == Str(GenerateSlug(fm["title"].s))
    ensures r.Ok? ==> forall k :: k in MetadataKeys ==> r.value[k] == MetadataFields(m)[k]
    ensures r.Ok? ==> forall k :: k in fm && k !in MetadataKeys && k != "slug" && k != "layout" ==>
      r.value[k] == fm[k]
  {
    match SlugEntry(fm)
    case Err(e) => Err(e)
    case Ok(slug) => Ok(fm + MetadataFields(m) + map["slug" := slug, "layout" := Str(Layout)])
  }

  /** A slug that the merge generates is a well-formed slug of the title: no longer, and with the title's word characters lower-cased. */
  lemma GeneratedSlugIsSlug(fm: map<string, Value>, m: ContentMetadata)
    requires MergeFrontMatter(fm, m).Ok? && !HasTruthySlug(fm)
    ensures var v := MergeFrontMatter(fm, m).value["slug"];
            v.Str? && IsSlug(v.s) && |v.s| <= |fm["title"].s| && WordChars(v.s) == Lower(WordChars(fm["title"].s))
  {
  }

  /** The merge leaves the title alone: it is neither a metadata key, `slug` nor `layout`. */
  lemma MergeKeepsTitle(fm: map<string, Value>, m: ContentMetadata)
    requires MergeFrontMatter(fm, m).Ok? && "title" in fm
    ensures var merged := MergeFrontMatter(fm, m).value;
            "title" in merged && merged["title"] == fm["title"]
  {
    assert "title" !in MetadataKeys && "title" != "slug" && "title" != "layout";
  }

  /** On merged front matter, the slug entry is the slug already there. */
  lemma MergedSlugIsStable(fm: map<string, Value>, m: ContentMetadata)
    requires MergeFrontMatter(fm, m).Ok?
    ensures var merged := MergeFrontMatter(fm, m).value;
            SlugEntry(merged) == Ok(merged["slug"])
  {
    if !HasTruthySlug(fm) {
      MergeKeepsTitle(fm, m);
    }
  }

  /** Front matter that already carries the merged entries is its own merge. */
  lemma MergeFixedPoint(fm: map<string, Value>, m: ContentMetadata)
    requires fm.Keys >= MetadataKeys + {"slug", "layout"}
    requires SlugEntry(fm) == Ok(fm["slug"])
    requires fm["layout"] == Str(Layout)
    requires forall k :: k in MetadataKeys ==> fm[k] == MetadataFields(m)[k]
    ensures MergeFrontMatter(fm, m) == Ok(fm)
  {
    var again := fm + MetadataFields(m) + map["slug" := fm["slug"], "layout" := Str(Layout)];
    assert again == fm;
  }

  /**
   * Running the update again with the same metadata changes nothing: a kept
   * slug stays truthy, and a generated slug is either kept (when non-empty)
   * or generated again from the same title.
   */
  lemma MergeIdempotent(fm: map<string, Value>, m: ContentMetadata)
    requires MergeFrontMatter(fm, m).Ok?
    ensures MergeFrontMatter(MergeFrontMatter(fm, m).value, m) == MergeFrontMatter(fm, m)
  {
    MergedSlugIsStable(fm, m);
    MergeFixedPoint(MergeFrontMatter(fm, m).value, m);
  }
}
