/**
 * `extractContentMetadata` from scripts/process-obsidian-posts.js: flags for
 * code blocks, images and external links, the word count and the reading
 * time at 200 words per minute, computed from a post body.
 */
module Metadata {
  import opened JsText

  /** The record the function fills in, field by field. */
  datatype ContentMetadata = ContentMetadata(
    hasCodeExamples: bool,
    hasImages: bool,
    hasExternalLinks: bool,
    wordCount: nat,
    estimatedReadingTime: nat)

  // ----- word count: delete punctuation, split on whitespace runs, drop empty pieces

  /** Delete every character that is neither a word character nor whitespace. */
  function KeepWordsAndSpaces(s: string): (r: string)
    ensures forall i :: 0 <= i < |r| ==> IsWordChar(r[i]) || IsSpace(r[i])
  {
    if s == [] then []
    else if IsWordChar(s[0]) || IsSpace(s[0]) then [s[0]] + KeepWordsAndSpaces(s[1..])
    else KeepWordsAndSpaces(s[1..])
  }

  /** The deletion works character by character, so it distributes over concatenation. */
  lemma {:induction false} KeepAppend(a: string, b: string)
    ensures KeepWordsAndSpaces(a + b) == KeepWordsAndSpaces(a) + KeepWordsAndSpaces(b)
  {
    if a == [] {
      assert a + b == b;
    } else {
      assert (a + b)[1..] == a[1..] + b;
      KeepAppend(a[1..], b);
    }
  }

  /** One character survives the deletion exactly when it is a word character or whitespace. */
  lemma KeepOne(c: char)
    ensures KeepWordsAndSpaces([c]) == if IsWordChar(c) || IsSpace(c) then [c] else []
  {
    assert [c][1..] == [];
  }

  /** The deletion drops no word character. */
  lemma {:induction false} KeepKeepsWordChars(s: string)
    ensures WordChars(KeepWordsAndSpaces(s)) == WordChars(s)
  {
    if s != [] {
      KeepKeepsWordChars(s[1..]);
      var rest := KeepWordsAndSpaces(s[1..]);
      if IsWordChar(s[0]) || IsSpace(s[0]) {
        assert KeepWordsAndSpaces(s) == [s[0]] + rest;
        assert ([s[0]] + rest)[1..] == rest;
      }
    }
  }

  /** The longest prefix of `s` without whitespace. */
  function TakeNonSpace(s: string): (r: string)
    ensures |r| <= |s| && r == s[..|r|]
    ensures NoSpace(r)
    ensures |r| < |s| ==> IsSpace(s[|r|])
  {
    if s == [] || IsSpace(s[0]) then []
    else
      var w := TakeNonSpace(s[1..]);
      assert [s[0]] + w == s[..|w| + 1];
      [s[0]] + w
  }

  /**
   * Splitting on whitespace runs: the pieces between maximal whitespace runs,
   * including the empty pieces before a leading run and after a trailing run.
   */
  function SplitOnSpaces(s: string): (r: seq<string>)
    ensures |r| >= 1
    ensures forall k :: 0 <= k < |r| ==> NoSpace(r[k])
    decreases |s|
  {
    var w := TakeNonSpace(s);
    var rest := s[|w|..];
    if rest == [] then [w]
    else [w] + SplitOnSpaces(SkipSpaces(rest))
  }

  /** The pieces of a list, concatenated. */
  function Concat(ws: seq<string>): string {
    if ws == [] then [] else ws[0] + Concat(ws[1..])
  }

  /**
   * The words `extractContentMetadata` counts: each is a non-empty run of
   * word characters, and together, in order, they are exactly the word
   * characters of the body.
   */
  function Words(content: string): (r: seq<string>)
    ensures forall k :: 0 <= k < |r| ==> r[k] != [] && AllWordChars(r[k])
    ensures Concat(r) == WordChars(content)
  {
    var kept := KeepWordsAndSpaces(content);
    var pieces := SplitOnSpaces(kept);
    PiecesKeepClass(kept);
    NonEmptyKeeps(pieces);
    ConcatNonEmpty(pieces);
    SplitConcat(kept);
    KeepKeepsWordChars(content);
    FilterNonEmpty(pieces)
  }

  /**
   * `metadata.word_count`: the number of maximal whitespace-free runs left
   * after deleting punctuation, which is 0 exactly when the body has no word
   * character (it is empty or punctuation only).
   */
  function WordCount(content: string): (n: nat)
    ensures n == RunStarts(KeepWordsAndSpaces(content), true)
    ensures n == 0 <==> NoWordChar(content)
  {
    var kept := KeepWordsAndSpaces(content);
    SplitCountsRuns(kept);
    RunStartsZero(kept);
    KeptAllSpaces(content);
    |Words(content)|
  }

  /**
   * An independent count of words: a character scan that counts each
   * non-whitespace character that follows whitespace or the start of text.
   */
  function RunStarts(s: string, afterSpace: bool): nat {
    if s == [] then 0
    else (if afterSpace && !IsSpace(s[0]) then 1 else 0) + RunStarts(s[1..], IsSpace(s[0]))
  }

  /** A non-empty run without whitespace counts once, at its start. */
  lemma {:induction false} RunStartsWord(w: string, t: string, afterSpace: bool)
    requires w != [] && NoSpace(w)
    ensures RunStarts(w + t, afterSpace) == (if afterSpace then 1 else 0) + RunStarts(t, false)
    decreases |w|
  {
    assert (w + t)[1..] == w[1..] + t;
    if |w| > 1 {
      RunStartsWord(w[1..], t, false);
    }
  }

  /** A non-empty whitespace run counts nothing and resets the scan. */
  lemma {:induction false} RunStartsSpaces(sp: string, t: string, afterSpace: bool)
    requires sp != [] && AllSpaces(sp)
    ensures RunStarts(sp + t, afterSpace) == RunStarts(t, true)
    decreases |sp|
  {
    assert (sp + t)[1..] == sp[1..] + t;
    if |sp| > 1 {
      RunStartsSpaces(sp[1..], t, true);
    }
  }

  /** The filter applied to a list with a known first element. */
  lemma NonEmptyCons(w: string, ws: seq<string>)
    ensures FilterNonEmpty([w] + ws) == (if w == [] then FilterNonEmpty(ws) else [w] + FilterNonEmpty(ws))
  {
    assert ([w] + ws)[1..] == ws;
  }

  /** A text starting with whitespace is its leading run followed by the rest. */
  lemma RunSplit(rest: string, sp: string, t: string)
    requires rest != [] && IsSpace(rest[0])
    requires t == SkipSpaces(rest) && sp == rest[..|rest| - |t|]
    ensures sp != [] && AllSpaces(sp) && rest == sp + t
  {
    assert t == SkipSpaces(rest[1..]);
    SkippedAreSpaces(rest);
    SliceJoin(rest, |rest| - |t|);
  }

  /**
   * A text with whitespace after its first piece is that piece, a non-empty
   * whitespace run and the rest, and splits into the piece and the pieces of
   * the rest.
   */
  lemma SplitAtRun(s: string, w: string, t: string) returns (sp: string)
    requires w == TakeNonSpace(s) && |w| < |s| && t == SkipSpaces(s[|w|..])
    ensures sp != [] && AllSpaces(sp) && s == w + (sp + t)
    ensures SplitOnSpaces(s) == [w] + SplitOnSpaces(t)
  {
    var rest := s[|w|..];
    assert rest[0] == s[|w|];
    sp := rest[..|rest| - |t|];
    RunSplit(rest, sp, t);
    SliceJoin(s, |w|);
  }

  /** A last piece counts one word exactly when it is non-empty. */
  lemma CountOnePiece(w: string)
    requires NoSpace(w)
    ensures |FilterNonEmpty([w])| == RunStarts(w, true)
  {
    NonEmptyCons(w, []);
    assert [w] + [] == [w];
    if w != [] {
      RunStartsWord(w, [], true);
      assert w + [] == w;
    }
  }

  /** A piece, a whitespace run and a counted rest: the piece adds one word exactly when it is non-empty. */
  lemma CountAcrossRun(w: string, sp: string, t: string)
    requires NoSpace(w) && sp != [] && AllSpaces(sp)
    requires |FilterNonEmpty(SplitOnSpaces(t))| == RunStarts(t, true)
    ensures |FilterNonEmpty([w] + SplitOnSpaces(t))| == RunStarts(w + (sp + t), true)
  {
    NonEmptyCons(w, SplitOnSpaces(t));
    if w == [] {
      assert w + (sp + t) == sp + t;
      RunStartsSpaces(sp, t, true);
    } else {
      RunStartsSpaces(sp, t, false);
      RunStartsWord(w, sp + t, true);
    }
  }

  /** Counting through the split and the filter agrees with the character scan. */
  lemma {:induction false} SplitCountsRuns(s: string)
    ensures |FilterNonEmpty(SplitOnSpaces(s))| == RunStarts(s, true)
    decreases |s|
  {
    var w := TakeNonSpace(s);
    if |w| == |s| {
      assert s == w;
      assert SplitOnSpaces(s) == [w];
      CountOnePiece(w);
    } else {
      var t := SkipSpaces(s[|w|..]);
      var sp := SplitAtRun(s, w, t);
      SplitCountsRuns(t);
      CountAcrossRun(w, sp, t);
    }
  }

  /** The scan counts nothing exactly when the text is all whitespace. */
  lemma {:induction false} RunStartsZero(s: string)
    ensures RunStarts(s, true) == 0 <==> AllSpaces(s)
  {
    if s != [] {
      RunStartsZero(s[1..]);
      ClassesOfCons(s);
    }
  }

  /** No character of `s` is a word character. */
  predicate NoWordChar(s: string) {
    forall i :: 0 <= i < |s| ==> !IsWordChar(s[i])
  }

  /** A text is all whitespace or free of word characters exactly when its tail is and its head is. */
  lemma ClassesOfCons(s: string)
    requires s != []
    ensures AllSpaces(s) <==> IsSpace(s[0]) && AllSpaces(s[1..])
    ensures NoWordChar(s) <==> !IsWordChar(s[0]) && NoWordChar(s[1..])
  {
    assert forall i :: 1 <= i < |s| ==> s[i] == s[1..][i - 1];
  }

  /** Stripping leaves nothing but whitespace exactly when the text has no word character. */
  lemma {:induction false} KeptAllSpaces(s: string)
    ensures AllSpaces(KeepWordsAndSpaces(s)) <==> NoWordChar(s)
  {
    if s != [] {
      KeptAllSpaces(s[1..]);
      ClassesOfCons(s);
      var k := KeepWordsAndSpaces(s);
      if IsWordChar(s[0]) || IsSpace(s[0]) {
        assert k == [s[0]] + KeepWordsAndSpaces(s[1..]);
        ClassesOfCons(k);
        assert k[1..] == KeepWordsAndSpaces(s[1..]);
      }
    }
  }

  /** Every character of `s` is a word character or whitespace. */
  predicate WordsAndSpaces(s: string) {
    forall i :: 0 <= i < |s| ==> IsWordChar(s[i]) || IsSpace(s[i])
  }

  /** A slice of a text of word characters and whitespace is one too. */
  lemma WordsAndSpacesSlice(s: string, i: nat, j: nat)
    requires WordsAndSpaces(s) && i <= j <= |s|
    ensures WordsAndSpaces(s[i..j])
  {
    var t := s[i..j];
    forall k | 0 <= k < |t| ensures IsWordChar(t[k]) || IsSpace(t[k]) {
      assert t[k] == s[i + k];
    }
  }
  /** What follows a prefix of a text of word characters and whitespace is one too. */
  lemma WordsAndSpacesSuffix(x: string, y: string)
    requires WordsAndSpaces(x + y)
    ensures WordsAndSpaces(y)
  {
    forall k | 0 <= k < |y| ensures IsWordChar(y[k]) || IsSpace(y[k]) {
      assert y[k] == (x + y)[|x| + k];
    }
  }

  /** The pieces of a text made of word characters and whitespace hold only word characters. */
  lemma {:induction false} PiecesKeepClass(s: string)
    requires WordsAndSpaces(s)
    ensures EveryPieceWordChars(SplitOnSpaces(s))
    decreases |s|
  {
    var w := TakeNonSpace(s);
    WordsAndSpacesSlice(s, 0, |w|);
    SpacelessWordChars(w);
    if |w| < |s| {
      var t := SkipSpaces(s[|w|..]);
      var sp := SplitAtRun(s, w, t);
      WordsAndSpacesSuffix(w, sp + t);
      WordsAndSpacesSuffix(sp, t);
      PiecesKeepClass(t);
      PiecesCons(w, SplitOnSpaces(t));
    }
  }

  /** Every piece holds only word characters. */
  predicate EveryPieceWordChars(ws: seq<string>) {
    forall k :: 0 <= k < |ws| ==> AllWordChars(ws[k])
  }

  /** A piece of word characters in front of such pieces. */
  lemma PiecesCons(w: string, ws: seq<string>)
    requires AllWordChars(w) && EveryPieceWordChars(ws)
    ensures EveryPieceWordChars([w] + ws)
  {
    var xs := [w] + ws;
    forall k | 0 <= k < |xs| ensures AllWordChars(xs[k]) {
      if k > 0 {
        assert xs[k] == ws[k - 1];
      }
    }
  }

  /** A piece without whitespace, from a text of word characters and whitespace, holds only word characters. */
  lemma SpacelessWordChars(w: string)
    requires WordsAndSpaces(w) && NoSpace(w)
    ensures AllWordChars(w)
  {
    forall j | 0 <= j < |w| ensures IsWordChar(w[j]) {
      assert !IsSpace(w[j]);
    }
  }

  /** Every character of `w` is a word character. */
  predicate AllWordChars(w: string) {
    forall j :: 0 <= j < |w| ==> IsWordChar(w[j])
  }

  /** The filter keeps only elements of its input. */
  lemma {:induction false} NonEmptyKeeps(ws: seq<string>)
    requires EveryPieceWordChars(ws)
    ensures EveryPieceWordChars(FilterNonEmpty(ws))
  {
    if ws != [] {
      assert forall k :: 1 <= k < |ws| ==> ws[k] == ws[1..][k - 1];
      NonEmptyKeeps(ws[1..]);
    }
  }

  /** Dropping empty pieces does not change the concatenation. */
  lemma {:induction false} ConcatNonEmpty(ws: seq<string>)
    ensures Concat(FilterNonEmpty(ws)) == Concat(ws)
  {
    if ws != [] {
      ConcatNonEmpty(ws[1..]);
      NonEmptyCons(ws[0], ws[1..]);
      assert ws == [ws[0]] + ws[1..];
      if ws[0] == [] {
        assert Concat(ws) == Concat(ws[1..]);
      } else {
        var fs := FilterNonEmpty(ws[1..]);
        assert ([ws[0]] + fs)[1..] == fs;
      }
    }
  }

  /** The pieces of a text of word characters and whitespace, concatenated, are its word characters. */
  lemma {:induction false} SplitConcat(s: string)
    requires WordsAndSpaces(s)
    ensures Concat(SplitOnSpaces(s)) == WordChars(s)
    decreases |s|
  {
    var w := TakeNonSpace(s);
    WordsAndSpacesSlice(s, 0, |w|);
    SpacelessWordChars(w);
    if |w| == |s| {
      assert s == w;
      assert SplitOnSpaces(s) == [w];
      WordCharsOfWord(w);
      assert w + [] == w;
    } else {
      var t := SkipSpaces(s[|w|..]);
      var sp := SplitAtRun(s, w, t);
      WordsAndSpacesSuffix(w, sp + t);
      WordsAndSpacesSuffix(sp, t);
      SplitConcat(t);
      ConcatAcrossRun(w, sp, t);
    }
  }

  /** A whitespace run holds no word character. */
  lemma {:induction false} SpacesHaveNoWordChars(sp: string)
    requires AllSpaces(sp)
    ensures WordChars(sp) == []
  {
    if sp != [] {
      SpaceIsNotWord(sp[0]);
      var tail := sp[1..];
      assert AllSpaces(tail) by {
        assert forall i :: 0 <= i < |tail| ==> tail[i] == sp[i + 1];
      }
      SpacesHaveNoWordChars(tail);
    }
  }

  /** A piece of word characters, a whitespace run and a rest whose pieces concatenate to its word characters. */
  lemma ConcatAcrossRun(w: string, sp: string, t: string)
    requires AllWordChars(w) && AllSpaces(sp)
    requires Concat(SplitOnSpaces(t)) == WordChars(t)
    ensures Concat([w] + SplitOnSpaces(t)) == WordChars(w + (sp + t))
  {
    var ps := SplitOnSpaces(t);
    assert ([w] + ps)[1..] == ps;
    WordCharsOfWord(w);
    SpacesHaveNoWordChars(sp);
    WordCharsAppend(sp, t);
    WordCharsAppend(w, sp + t);
    assert WordChars(sp + t) == WordChars(t);
  }

  // ----- reading time: the word count over 200, rounded up

  /** Minutes at 200 words per minute, rounded up, computed exactly on integers. */
  function ReadingTime(wordCount: nat): (t: nat)
    ensures t == 0 <==> wordCount == 0
    ensures wordCount > 0 ==> 200 * (t - 1) < wordCount <= 200 * t
  {
    (wordCount + 199) / 200
  }

  // ----- has_code_examples, has_images, has_external_links

  /** The line terminators that `.` in a regular expression does not match. */
  predicate IsLineTerminator(c: char) {
    c == '\n' || c == '\r' || c == '\U{2028}' || c == '\U{2029}'
  }

  /** The index of the first line terminator at or after `i`, or `|s|`. */
  function LineEnd(s: string, i: nat): (k: nat)
    requires i <= |s|
    ensures i <= k <= |s|
    ensures forall m :: i <= m < k ==> !IsLineTerminator(s[m])
    ensures k < |s| ==> IsLineTerminator(s[k])
    decreases |s| - i
  {
    if i == |s| || IsLineTerminator(s[i]) then i else LineEnd(s, i + 1)
  }

  /** `s` holds no line terminator. */
  predicate OneLine(s: string) {
    forall m :: 0 <= m < |s| ==> !IsLineTerminator(s[m])
  }

  /** The lines of `s`: the pieces between single line terminators. */
  function Lines(s: string): (r: seq<string>)
    ensures |r| >= 1
    ensures forall k :: 0 <= k < |r| ==> OneLine(r[k])
    decreases |s|
  {
    var k := LineEnd(s, 0);
    if k == |s| then [s] else [s[..k]] + Lines(s[k + 1..])
  }

  /** The patterns occur in `s` one after another, without overlapping, in the order given. */
  predicate InOrder(s: string, pats: seq<string>)
    decreases |pats|
  {
    pats == [] ||
    exists i | 0 <= i <= |s| :: OccursAt(s, pats[0], i) && InOrder(s[i + |pats[0]|..], pats[1..])
  }

  /** A Markdown image on one line: `![`, then `](`, then `)`, anything between them. */
  predicate ImageOnLine(line: string) {
    InOrder(line, ["![", "](", ")"])
  }

  /** A link to an http or https address on one line: `[`, then `](http://` or `](https://`, then `)`. */
  predicate ExternalLinkOnLine(line: string) {
    InOrder(line, ["[", "](http://", ")"]) || InOrder(line, ["[", "](https://", ")"])
  }

  /** A text without line terminators is one line. */
  lemma LinesOfOneLine(s: string)
    ensures OneLine(s) ==> Lines(s) == [s]
  {
    if OneLine(s) {
      var k := LineEnd(s, 0);
      assert k == |s|;
    }
  }

  /**
   * `metadata.has_images`: an image on some line, or an `<img` tag anywhere.
   * On a single line this is the image pattern or the tag.
   */
  function HasImages(content: string): (r: bool)
    ensures OneLine(content) ==> (r <==> ImageOnLine(content) || Contains(content, "<img"))
  {
    LinesOfOneLine(content);
    (exists line | line in Lines(content) :: ImageOnLine(line)) || Contains(content, "<img")
  }

  /**
   * `metadata.has_external_links`: an external link on some line. On a
   * single line this is the link pattern.
   */
  function HasExternalLinks(content: string): (r: bool)
    ensures OneLine(content) ==> (r <==> ExternalLinkOnLine(content))
  {
    LinesOfOneLine(content);
    exists line | line in Lines(content) :: ExternalLinkOnLine(line)
  }

  /** A line followed by a terminator is the first element of `Lines`. */
  lemma LinesCons(line: string, c: char, rest: string)
    requires OneLine(line)
    requires IsLineTerminator(c)
    ensures Lines(line + [c] + rest) == [line] + Lines(rest)
  {
    var s := line + [c] + rest;
    assert s[|line|] == c;
    assert LineEnd(s, 0) == |line| by {
      LineEndFirst(s, 0, |line|);
    }
    assert s[..|line|] == line;
    assert s[|line| + 1..] == rest;
  }

  /** `LineEnd` stops at the first terminator. */
  lemma {:induction false} LineEndFirst(s: string, i: nat, j: nat)
    requires i <= j < |s| && IsLineTerminator(s[j])
    requires forall m :: i <= m < j ==> !IsLineTerminator(s[m])
    ensures LineEnd(s, i) == j
    decreases j - i
  {
    if i < j {
      LineEndFirst(s, i + 1, j);
    }
  }

  /**
   * Images and external links are found line by line: `.` does not match a
   * line terminator, so a pattern never spans two lines.
   */
  lemma PatternsArePerLine(line: string, c: char, rest: string)
    requires OneLine(line)
    requires IsLineTerminator(c)
    ensures HasExternalLinks(line + [c] + rest) <==> ExternalLinkOnLine(line) || HasExternalLinks(rest)
    ensures (exists l | l in Lines(line + [c] + rest) :: ImageOnLine(l))
            <==> ImageOnLine(line) || exists l | l in Lines(rest) :: ImageOnLine(l)
  {
    LinesCons(line, c, rest);
  }

  /** `extractContentMetadata(content)`. */
  function ExtractContentMetadata(content: string): (m: ContentMetadata)
    ensures m.hasCodeExamples <==> Contains(content, "```")
    ensures m.hasImages == HasImages(content)
    ensures m.hasExternalLinks == HasExternalLinks(content)
    ensures m.wordCount == RunStarts(KeepWordsAndSpaces(content), true)
    ensures m.wordCount == 0 <==> NoWordChar(content)
    ensures m.estimatedReadingTime == 0 <==> m.wordCount == 0
    ensures m.wordCount > 0 ==> 200 * (m.estimatedReadingTime - 1) < m.wordCount <= 200 * m.estimatedReadingTime
  {
    var words := WordCount(content);
    ContentMetadata(
      hasCodeExamples := Contains(content, "```"),
      hasImages := HasImages(content),
      hasExternalLinks := HasExternalLinks(content),
      wordCount := words,
      estimatedReadingTime := ReadingTime(words))
  }
}
