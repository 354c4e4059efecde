# Content-preparation scripts of the blog, modelled in Dafny

This project models the pure text transformations that the blog's content
scripts apply before posts are published and indexed for retrieval:

- `generateSlug` (scripts/process-obsidian-posts.js) turns a title into a URL
  slug. It lower-cases the title and deletes every character other than word
  characters, whitespace and `-`. It then turns each whitespace run into one
  `-`, turns each run of `-` into one `-`, and trims. Module `Slug`.
- `processWikilinks` rewrites every Obsidian wikilink `[[X]]` into the
  Markdown link `[X](/slug/)`. Module `Wikilinks`. The left-to-right,
  non-overlapping global replace is modelled as a unique decomposition of the
  text into copied characters and matches.
- `extractContentMetadata` computes five values from a post body: the
  code-block flag, the image flag, the external-link flag, the word count and
  the reading time at 200 words per minute. Module `Metadata`.
- The front-matter update applied to each post is modelled as a pure map
  merge. It keeps an existing truthy slug or generates one from the title,
  forces the layout, and lets the metadata keys override same-named keys.
  Module `FrontMatter`.
- `createEmbeddingText` (scripts/generate-embeddings.js) builds the text that
  is embedded for a post. It has labelled sections in a fixed order; the
  optional ones are dropped when their field is empty, and the rest are
  joined with a blank line. Module `EmbeddingText`. Module `EmbeddingParse`
  reads such a text back into its sections.

`JsText` holds the JavaScript string vocabulary the scripts rely on:
- `\s` is the ECMAScript WhiteSpace and LineTerminator set, which is also
  what `trim` removes;
- `\w` is `[A-Za-z0-9_]`;
- `toLowerCase` is modelled on ASCII letters;
- it also defines substring search and `Array.prototype.join`.

`Wrappers` holds `Option` and `Result`.

Two behaviours of the code are stated as proved facts rather than changed:

- The final `trim()` of `generateSlug` never changes anything. Whitespace has
  already become `-`, so a title with a leading or trailing blank gives a slug
  with a leading or trailing `-`: `" Hi "` gives `"-hi-"`.
- A post whose front matter has neither a truthy slug nor a string title makes
  `generateSlug` throw. The model returns an error for it.

## Model

| member | source | states |
|---|---|---|
| Slug.GenerateSlug | scripts/process-obsidian-posts.js:74-81 | the slug holds only `[a-z0-9_-]`, never `--`, and is no longer than the title |
| Slug.SlugKeepsWordChars | scripts/process-obsidian-posts.js:74-81 | the word characters of the slug are exactly those of the title, in order, lower-cased: only case, punctuation, whitespace and hyphens change |
| Slug.InternalLinkSlug | scripts/process-obsidian-posts.js:74-81 | the title `Internal Link` gives the slug `internal-link` |
| Slug.Lower | scripts/process-obsidian-posts.js:76 | lower-casing keeps the length and maps each character through `ToLower` |
| Slug.LowerAppend | scripts/process-obsidian-posts.js:76 | lower-casing distributes over concatenation |
| Slug.LowerWordChars | scripts/process-obsidian-posts.js:76 | lower-casing, then keeping the word characters, equals keeping the word characters, then lower-casing |
| Slug.StripPunctuation | scripts/process-obsidian-posts.js:77 | the deletion keeps only word characters, whitespace and `-`, and never reintroduces upper case |
| Slug.StripAppend | scripts/process-obsidian-posts.js:77 | the deletion distributes over concatenation |
| Slug.StripOne | scripts/process-obsidian-posts.js:77 | a single character is kept exactly when it is a word character, whitespace or `-`, and deleted otherwise |
| Slug.StripKeepsWordChars | scripts/process-obsidian-posts.js:77 | every word character survives the deletion, in order |
| Slug.StripKeepsKept | scripts/process-obsidian-posts.js:77 | the deletion is the identity on text made of kept characters |
| Slug.StripPunctuationEnds | scripts/process-obsidian-posts.js:77 | a kept first or last character is still first or last after the deletion |
| Slug.CollapseSpaces | scripts/process-obsidian-posts.js:78 | no whitespace is left after the whitespace runs become `-`; slug characters stay slug characters |
| Slug.CollapseSpacesKeepsPrefix | scripts/process-obsidian-posts.js:78 | a prefix without whitespace is copied unchanged |
| Slug.CollapseSpacesRunPrefix | scripts/process-obsidian-posts.js:78 | a maximal whitespace run at the front becomes exactly one `-` |
| Slug.CollapseSpacesWordChars | scripts/process-obsidian-posts.js:78 | every word character survives the whitespace pass, in order |
| Slug.CollapseSpacesNoSpace | scripts/process-obsidian-posts.js:78 | the whitespace pass is the identity on text without whitespace |
| Slug.CollapseSpacesFirst | scripts/process-obsidian-posts.js:78 | leading whitespace becomes a leading `-` |
| Slug.CollapseSpacesLast | scripts/process-obsidian-posts.js:78 | trailing whitespace becomes a trailing `-` |
| Slug.CollapseHyphens | scripts/process-obsidian-posts.js:79 | no `--` is left, the first character is kept, slug characters stay slug characters |
| Slug.SkipHyphensAppend | scripts/process-obsidian-posts.js:79 | skipping leading hyphens of a concatenation skips into the second part only when the first is all hyphens |
| Slug.SkipHyphensWordChars | scripts/process-obsidian-posts.js:79 | skipping hyphens removes no word character |
| Slug.CollapseHyphensKeepsPrefix | scripts/process-obsidian-posts.js:79 | a prefix without `-` is copied unchanged |
| Slug.CollapseHyphensRunPrefix | scripts/process-obsidian-posts.js:79 | a maximal run of `-` at the front becomes exactly one `-` |
| Slug.CollapseHyphensWordChars | scripts/process-obsidian-posts.js:79 | every word character survives the hyphen pass, in order |
| Slug.CollapseHyphensNoDouble | scripts/process-obsidian-posts.js:79 | the hyphen pass is the identity on text without `--` |
| Slug.CollapseHyphensLast | scripts/process-obsidian-posts.js:79 | a trailing `-` stays trailing |
| Slug.DropTrailingSpaces | scripts/process-obsidian-posts.js:80 | the result is a prefix of the input that does not end in whitespace, and everything dropped is whitespace, so exactly the maximal trailing whitespace run is removed |
| Slug.Trim | scripts/process-obsidian-posts.js:80 | the trimmed text neither starts nor ends with whitespace, and a text that contains no whitespace comes back unchanged |
| Slug.TrimIsNoOp | scripts/process-obsidian-posts.js:78-80 | the final trim leaves the slug unchanged, and the slug has no whitespace |
| Slug.SlugAlphabet | scripts/process-obsidian-posts.js:75-79 | no upper-case letter, whitespace or punctuation reaches the slug |
| Slug.SlugIsFixedPoint | scripts/process-obsidian-posts.js:74-81 | a well-formed slug is its own slug |
| Slug.SlugIdempotent | scripts/process-obsidian-posts.js:74-81 | slugging a slug changes nothing |
| Slug.LeadingHyphenSurvives | scripts/process-obsidian-posts.js:78-80 | a title starting with whitespace gives a slug starting with `-` |
| Slug.TrailingHyphenSurvives | scripts/process-obsidian-posts.js:78-80 | a title ending with whitespace gives a slug ending with `-` |
| Wikilinks.LinkAt | scripts/process-obsidian-posts.js:46 | a match found at a position is `[[X]]` with X non-empty and free of `]` |
| Wikilinks.LinkAtComplete | scripts/process-obsidian-posts.js:46 | any `[[X]]` with such an X at a position is the match found there, so the match is unique |
| Wikilinks.Tokenize | scripts/process-obsidian-posts.js:46 | the scan covers the whole input and is left-to-right and non-overlapping |
| Wikilinks.ScanIsUnique | scripts/process-obsidian-posts.js:46 | the input has exactly one such scan |
| Wikilinks.ProcessWikilinks | scripts/process-obsidian-posts.js:44-50 | the output is never shorter than the input, and equals it exactly when no position starts a match |
| Wikilinks.ProcessWikilinksRenders | scripts/process-obsidian-posts.js:44-50 | the output copies unmatched characters and turns each match `[[X]]` into `[X](/slug(X)/)`, with X copied verbatim |
| Wikilinks.InternalLinkExample | scripts/process-obsidian-posts.js:45-49 | `[[Internal Link]]` becomes `[Internal Link](/internal-link/)` |
| Wikilinks.CapturesAreWellFormed | scripts/process-obsidian-posts.js:46 | every rewritten X is non-empty and contains no `]` |
| Wikilinks.NoLinksAllChars | scripts/process-obsidian-posts.js:46 | text where no position starts a match scans into copied characters only |
| Wikilinks.AllCharsNoLinks | scripts/process-obsidian-posts.js:46 | a scan of copied characters only means no position starts a match |
| Wikilinks.RenderChars | scripts/process-obsidian-posts.js:46-49 | copied characters render as themselves |
| Wikilinks.RenderLength | scripts/process-obsidian-posts.js:46-49 | the rewrite never shortens the text, and keeps its length only when nothing matched |
| Wikilinks.RenderUnchangedIffNoLinks | scripts/process-obsidian-posts.js:44-50 | rendering the scan gives the input back exactly when no position starts a match |
| Wikilinks.EmptyLinkUnchanged | scripts/process-obsidian-posts.js:46 | `[[]]` is left unchanged |
| Wikilinks.BrokenLinkUnchanged | scripts/process-obsidian-posts.js:46 | `[[a]b]]` is left unchanged |
| Metadata.ExtractContentMetadata | scripts/process-obsidian-posts.js:52-72 | the code flag holds exactly when the body contains three backticks; the image and link flags are the per-line pattern tests; the word count is the run count and is 0 exactly when there is no word character; the reading-time bounds hold |
| Metadata.KeepWordsAndSpaces | scripts/process-obsidian-posts.js:65 | the deletion leaves only word characters and whitespace |
| Metadata.KeepAppend | scripts/process-obsidian-posts.js:65 | the deletion distributes over concatenation |
| Metadata.KeepOne | scripts/process-obsidian-posts.js:65 | a single character is kept exactly when it is a word character or whitespace |
| Metadata.KeepKeepsWordChars | scripts/process-obsidian-posts.js:65 | every word character survives the deletion, in order |
| Metadata.TakeNonSpace | scripts/process-obsidian-posts.js:65 | the first piece is the longest whitespace-free prefix |
| Metadata.SplitOnSpaces | scripts/process-obsidian-posts.js:65 | the split gives at least one piece, and no piece holds whitespace |
| Metadata.SplitAtRun | scripts/process-obsidian-posts.js:65 | after the first piece comes a non-empty whitespace run, and the split continues after it |
| Metadata.SplitCountsRuns | scripts/process-obsidian-posts.js:65 | split plus filter counts the maximal whitespace-free runs |
| Metadata.PiecesKeepClass | scripts/process-obsidian-posts.js:65 | on text of word characters and whitespace, every piece holds only word characters |
| Metadata.SplitConcat | scripts/process-obsidian-posts.js:65 | on such text, the pieces concatenated are its word characters |
| Metadata.ConcatNonEmpty | scripts/process-obsidian-posts.js:65 | dropping empty pieces does not change their concatenation |
| Metadata.Words | scripts/process-obsidian-posts.js:65 | every counted word is a non-empty run of word characters, and the words concatenated are exactly the word characters of the body, in order |
| Metadata.WordCount | scripts/process-obsidian-posts.js:65-66 | the word count is the number of maximal whitespace-free runs left after deleting punctuation, and is 0 exactly when the body has no word character |
| Metadata.RunStartsZero | scripts/process-obsidian-posts.js:65-66 | the run count is 0 exactly when the text is all whitespace |
| Metadata.KeptAllSpaces | scripts/process-obsidian-posts.js:65 | the deletion leaves only whitespace exactly when the body has no word character |
| Metadata.ReadingTime | scripts/process-obsidian-posts.js:69 | the time is 0 exactly when the count is 0, and otherwise `200*(t-1) < count <= 200*t` |
| Metadata.LineEnd | scripts/process-obsidian-posts.js:59-62 | the first line terminator at or after a position, or the end |
| Metadata.Lines | scripts/process-obsidian-posts.js:59-62 | no line holds a line terminator |
| Metadata.LinesOfOneLine | scripts/process-obsidian-posts.js:59-62 | a text without a line terminator is a single line |
| Metadata.LinesCons | scripts/process-obsidian-posts.js:59-62 | a line, a terminator and a rest split into that line and the lines of the rest |
| Metadata.HasImages | scripts/process-obsidian-posts.js:59 | on a single line, the flag holds exactly when `![…](…)` occurs in order or `<img` occurs |
| Metadata.HasExternalLinks | scripts/process-obsidian-posts.js:62 | on a single line, the flag holds exactly when `[…](http://…)` or `[…](https://…)` occurs in order |
| Metadata.PatternsArePerLine | scripts/process-obsidian-posts.js:59-62 | image and external-link patterns are found line by line, never across a line terminator |
| FrontMatter.MetadataFields | scripts/process-obsidian-posts.js:26 | the metadata sets exactly its five keys |
| FrontMatter.SlugEntry | scripts/process-obsidian-posts.js:27 | an error exactly when there is no truthy slug and no string title; a truthy slug is kept as is; otherwise the slug is well formed and has the title's word characters, lower-cased |
| FrontMatter.MergeFrontMatter | scripts/process-obsidian-posts.js:24-29 | error exactly when there is no truthy slug and no string title; otherwise the keys are the old ones plus metadata, `slug` and `layout`, `layout` is `post.njk`, the slug is kept or generated from the title, metadata overrides, and every other key is unchanged |
| FrontMatter.GeneratedSlugIsSlug | scripts/process-obsidian-posts.js:27 | a generated slug is well formed, no longer than the title, and has the title's word characters, lower-cased |
| FrontMatter.MergeKeepsTitle | scripts/process-obsidian-posts.js:24-29 | the title passes through the merge |
| FrontMatter.MergedSlugIsStable | scripts/process-obsidian-posts.js:27 | on merged front matter, the slug rule picks the slug already there |
| FrontMatter.MergeFixedPoint | scripts/process-obsidian-posts.js:24-29 | front matter that already has the merged entries is its own merge |
| FrontMatter.MergeIdempotent | scripts/process-obsidian-posts.js:24-29 | merging again with the same metadata changes nothing |
| JsText.ToLower | scripts/process-obsidian-posts.js:76 | an upper-case ASCII letter becomes the same letter in lower case; every other character is unchanged; word characters and whitespace keep their class |
| JsText.SkipSpaces | scripts/process-obsidian-posts.js:78 | skipping whitespace leaves a suffix that does not start with whitespace |
| JsText.SkippedAreSpaces | scripts/process-obsidian-posts.js:78 | everything skipped is whitespace |
| JsText.WordCharsAppend | scripts/process-obsidian-posts.js:77 | keeping the word characters distributes over concatenation |
| JsText.IndexOf | scripts/process-obsidian-posts.js:46 | the search finds the first occurrence at or after the start, or the end when there is none |
| JsText.Join | scripts/generate-embeddings.js:75 | joining nothing gives the empty text, joining one element gives that element, and the join starts with the first element |
| JsText.JoinSnoc | scripts/generate-embeddings.js:75 | appending an element appends the separator and the element |
| JsText.JoinEndsWithLast | scripts/generate-embeddings.js:75 | the join ends with the last element |
| JsText.FilterNonEmpty | scripts/generate-embeddings.js:75 | the filter leaves no empty entry |
| EmbeddingText.CreateEmbeddingText | scripts/generate-embeddings.js:61-76 | the text is the present sections, each `Label: body`, in label order, joined with exactly `\n\n` |
| EmbeddingText.PartsAreByLabel | scripts/generate-embeddings.js:63-73 | each entry of the array literal is its label's section or an empty placeholder, in label order |
| EmbeddingText.FilterKeepsSections | scripts/generate-embeddings.js:75 | the filter removes exactly the placeholders of omitted sections |
| EmbeddingText.SectionsOrdered | scripts/generate-embeddings.js:63-73 | the sections come in the order Title, Summary, Topic, Subtopics, Tags, Audience, Prerequisites, Value, Content |
| EmbeddingText.SectionPresentIff | scripts/generate-embeddings.js:64-72 | a section appears exactly when its field is non-empty; Title, Topic and Content always appear |
| EmbeddingText.SectionBodies | scripts/generate-embeddings.js:64-72 | each section holds its field's text, and list sections hold the elements joined with `, ` |
| EmbeddingText.SectionsShape | scripts/generate-embeddings.js:63-75 | there are 3 to 9 sections, Title first, Topic second or third, Content last |
| EmbeddingText.StartsWithTitle | scripts/generate-embeddings.js:64-75 | the text starts with `Title: ` and the title |
| EmbeddingText.EndsWithContent | scripts/generate-embeddings.js:72-75 | the text ends with `Content: ` and the content |
| EmbeddingParse.ParseJoined | scripts/generate-embeddings.js:75 | reading back joined sections gives the sections back, when they end with Content and the earlier bodies are single lines |
| EmbeddingParse.ParseEmbeddingText | scripts/generate-embeddings.js:61-76 | reading back the text of a post gives its sections, when the fields before the content are single lines |
| EmbeddingParse.SameTextSameSections | scripts/generate-embeddings.js:61-76 | two such posts with the same text have the same sections |

## Left out

- The file loop of `processObsidianPosts` is left out. That covers reading and writing files, logging, and `process.exit`. It is filesystem I/O.
- `gray-matter` parsing and `matter.stringify` are left out. They are a library whose code is not part of this model, so front matter is an opaque map.
- `generateEmbeddings` is left out: the database query and update, the embeddings API call and the rate-limiting sleep. They are network I/O and timing.
- The retrieval, merging and prompt-assembly logic of the question-answering service is left out. No modelled file implements it.
- JsText.ToLower: does not model non-ASCII case mapping. `toLowerCase` can change the length of a string outside ASCII, for example `İ`.
- Metadata.ReadingTime computes `Math.ceil(n / 200)` as exact integer ceiling division. Floating-point rounding is not modelled; it is exact for any realistic word count.
- Metadata.HasImages and Metadata.HasExternalLinks: their contracts describe the flag on single-line text only; on longer text, Metadata.PatternsArePerLine reduces the flag to its lines. The patterns are modelled as per-line ordered-substring tests, which is how a `.*` regex behaves when `.` stops at line terminators. No regex engine is modelled.
- FrontMatter.Value: YAML values are collapsed to null, booleans, integers, strings and one opaque composite (arrays, objects, dates). Floats are not modelled, and neither is the key order of the merged object.
- EmbeddingText.Post: columns are strings, null or absent. Numeric or boolean scalars are not modelled, and neither are numbers, booleans or objects as array elements. Null and undefined array elements are modelled: `join` renders them as the empty text.
- EmbeddingParse.ParseEmbeddingText: the read-back is proved only when the fields before the content contain no line break. A field with a blank line in it makes the text ambiguous.
