/**
 * `generateSlug` from scripts/process-obsidian-posts.js: a title is
 * lower-cased, stripped of every character other than word characters,
 * whitespace and `-`, each whitespace run becomes one `-`, each run of `-`
 * becomes one `-`, and the result is trimmed.
 */
module Slug {
  import opened JsText

  /** A character that can appear in a slug: `[a-z0-9_-]`. */
  predicate IsSlugChar(c: char) {
    ('a' <= c <= 'z') || ('0' <= c <= '9') || c == '_' || c == '-'
  }

  /** `s` has no two consecutive hyphens. */
  predicate NoDoubleHyphen(s: string) {
    forall i :: 0 <= i < |s| - 1 ==> !(s[i] == '-' && s[i + 1] == '-')
  }

  /** A well-formed slug: only slug characters and no `--`. */
  predicate IsSlug(s: string) {
    (forall i :: 0 <= i < |s| ==> IsSlugChar(s[i])) && NoDoubleHyphen(s)
  }

  /** `.toLowerCase()` (ASCII letters only). */
  function Lower(s: string): (r: string)
    ensures |r| == |s|
    ensures forall i :: 0 <= i < |s| ==> r[i] == ToLower(s[i])
  {
    seq(|s|, i requires 0 <= i < |s| => ToLower(s[i]))
  }

  /** The characters the punctuation pass keeps: word characters, whitespace and `-`. */
  predicate Kept(c: char) {
    IsWordChar(c) || IsSpace(c) || c == '-'
  }

  /** The punctuation pass: delete every character that is not kept. */
  function StripPunctuation(s: string): (r: string)
    ensures |r| <= |s|
    ensures forall i :: 0 <= i < |r| ==> Kept(r[i])
    ensures (forall i :: 0 <= i < |s| ==> !IsAsciiUpper(s[i])) ==> forall i :: 0 <= i < |r| ==> !IsAsciiUpper(r[i])
  {
    if s == [] then []
    else if Kept(s[0]) then [s[0]] + StripPunctuation(s[1..])
    else StripPunctuation(s[1..])
  }

  /** Each maximal whitespace run becomes one `-`. */
  function CollapseSpaces(s: string): (r: string)
    ensures |r| <= |s|
    ensures NoSpace(r)
    ensures (forall i :: 0 <= i < |s| ==> IsSlugChar(s[i]) || IsSpace(s[i])) ==> forall i :: 0 <= i < |r| ==> IsSlugChar(r[i])
  {
    if s == [] then []
    else if IsSpace(s[0]) then "-" + CollapseSpaces(SkipSpaces(s[1..]))
    else [s[0]] + CollapseSpaces(s[1..])
  }

  /** The suffix of `s` after its leading hyphens. */
  function SkipHyphens(s: string): (r: string)
    ensures |r| <= |s| && r == s[|s| - |r|..]
    ensures r == [] || r[0] != '-'
  {
    if s != [] && s[0] == '-' then SkipHyphens(s[1..]) else s
  }

  /** Each maximal run of `-` becomes one `-`. */
  function CollapseHyphens(s: string): (r: string)
    ensures |r| <= |s|
    ensures NoDoubleHyphen(r)
    ensures s != [] ==> r != [] && r[0] == s[0]
    ensures (forall i :: 0 <= i < |s| ==> IsSlugChar(s[i])) ==> forall i :: 0 <= i < |r| ==> IsSlugChar(r[i])
  {
    if s == [] then []
    else if s[0] == '-' then
      var rest := CollapseHyphens(SkipHyphens(s[1..]));
      assert rest == [] || rest[0] != '-';
      "-" + rest
    else [s[0]] + CollapseHyphens(s[1..])
  }

  /** The prefix of `s` before its trailing whitespace. */
  function DropTrailingSpaces(s: string): (r: string)
    ensures |r| <= |s| && r == s[..|r|]
    ensures r == [] || !IsSpace(r[|r| - 1])
    ensures AllSpaces(s[|r|..])
  {
    if s != [] && IsSpace(s[|s| - 1]) then
      var init := s[..|s| - 1];
      var r := DropTrailingSpaces(init);
      assert s[|r|..] == init[|r|..] + [s[|s| - 1]];
      AllSpacesSnoc(init[|r|..], s[|s| - 1]);
      r
    else
      assert s[|s|..] == [];
      s
  }

  /** `.trim()`: drop leading and trailing whitespace. */
  function Trim(s: string): (r: string)
    ensures |r| <= |s|
    ensures r == [] || (!IsSpace(r[0]) && !IsSpace(r[|r| - 1]))
    ensures NoSpace(s) ==> r == s
  {
    DropTrailingSpaces(SkipSpaces(s))
  }

  /** The chain before the final `.trim()`. */
  function Untrimmed(title: string): string {
    CollapseHyphens(CollapseSpaces(StripPunctuation(Lower(title))))
  }

  /** `generateSlug(title)`. */
  function GenerateSlug(title: string): (r: string)
    ensures IsSlug(r)
    ensures |r| <= |title|
  {
    var stripped := StripPunctuation(Lower(title));
    KeptLowerChars(stripped);
    var collapsed := CollapseHyphens(CollapseSpaces(stripped));
    SlugCharsNoSpace(collapsed);
    Trim(collapsed)
  }

  /** A kept character that is not an upper-case letter is a slug character or whitespace. */
  lemma KeptLowerChars(s: string)
    requires forall i :: 0 <= i < |s| ==> Kept(s[i]) && !IsAsciiUpper(s[i])
    ensures forall i :: 0 <= i < |s| ==> IsSlugChar(s[i]) || IsSpace(s[i])
  {
    forall i | 0 <= i < |s| ensures IsSlugChar(s[i]) || IsSpace(s[i]) {
      var c := s[i];
      assert Kept(c) && !IsAsciiUpper(c);
    }
  }

  /** A slug character is a lower-case word character or `-`, never whitespace. */
  lemma SlugCharClass(c: char)
    requires IsSlugChar(c)
    ensures !IsSpace(c) && !IsAsciiUpper(c) && (IsWordChar(c) || c == '-')
  {
  }

  /** A string of slug characters holds no whitespace. */
  lemma SlugCharsNoSpace(s: string)
    requires forall i :: 0 <= i < |s| ==> IsSlugChar(s[i])
    ensures NoSpace(s)
  {
    forall i | 0 <= i < |s| ensures !IsSpace(s[i]) {
      SlugCharClass(s[i]);
    }
  }

  /** The final trim never changes anything: no whitespace survives the whitespace pass. */
  lemma TrimIsNoOp(title: string)
    ensures GenerateSlug(title) == Untrimmed(title)
    ensures NoSpace(GenerateSlug(title))
  {
    var stripped := StripPunctuation(Lower(title));
    KeptLowerChars(stripped);
    var collapsed := CollapseHyphens(CollapseSpaces(stripped));
    SlugCharsNoSpace(collapsed);
    assert collapsed == Untrimmed(title);
    assert GenerateSlug(title) == Trim(collapsed);
  }

  /** Upper case, punctuation and whitespace never reach the slug. */
  lemma SlugAlphabet(title: string)
    ensures forall i :: 0 <= i < |GenerateSlug(title)| ==>
      var c := GenerateSlug(title)[i];
      !IsAsciiUpper(c) && !IsSpace(c) && (IsWordChar(c) || c == '-')
  {
    var r := GenerateSlug(title);
    forall i | 0 <= i < |r| ensures !IsAsciiUpper(r[i]) && !IsSpace(r[i]) && (IsWordChar(r[i]) || r[i] == '-') {
      SlugCharClass(r[i]);
    }
  }

  // ----- what each pass keeps: concatenation laws and the word characters

  /** `Lower` works character by character, so it distributes over concatenation. */
  lemma LowerAppend(a: string, b: string)
    ensures Lower(a + b) == Lower(a) + Lower(b)
  {
    var l := Lower(a + b);
    assert forall i :: 0 <= i < |a| ==> l[i] == ToLower(a[i]);
    assert forall i :: |a| <= i < |a| + |b| ==> l[i] == ToLower(b[i - |a|]);
  }

  /** Lower-casing and then taking the word characters is taking them and then lower-casing. */
  lemma {:induction false} LowerWordChars(s: string)
    ensures WordChars(Lower(s)) == Lower(WordChars(s))
  {
    if s != [] {
      var head := if IsWordChar(s[0]) then [s[0]] else [];
      LowerWordChars(s[1..]);
      assert s == [s[0]] + s[1..];
      LowerAppend([s[0]], s[1..]);
      LowerAppend(head, WordChars(s[1..]));
      var lowered := Lower(s);
      assert lowered[0] == ToLower(s[0]);
      assert lowered[1..] == Lower(s[1..]);
      assert WordChars(lowered) == (if IsWordChar(lowered[0]) then [lowered[0]] else []) + WordChars(lowered[1..]);
    }
  }

  /** The punctuation pass deletes character by character: it distributes over concatenation. */
  lemma {:induction false} StripAppend(a: string, b: string)
    ensures StripPunctuation(a + b) == StripPunctuation(a) + StripPunctuation(b)
  {
    if a == [] {
      assert a + b == b;
    } else {
      assert (a + b)[1..] == a[1..] + b;
      StripAppend(a[1..], b);
    }
  }

  /** One character survives the punctuation pass exactly when it is kept. */
  lemma StripOne(c: char)
    ensures StripPunctuation([c]) == if Kept(c) then [c] else []
  {
    assert [c][1..] == [];
  }

  /** The punctuation pass deletes no word character. */
  lemma {:induction false} StripKeepsWordChars(s: string)
    ensures WordChars(StripPunctuation(s)) == WordChars(s)
  {
    if s != [] {
      StripKeepsWordChars(s[1..]);
      var rest := StripPunctuation(s[1..]);
      if Kept(s[0]) {
        assert StripPunctuation(s) == [s[0]] + rest;
        assert ([s[0]] + rest)[1..] == rest;
      } else {
        assert !IsWordChar(s[0]);
      }
    }
  }

  /** A text that starts with whitespace collapses to `-` and the collapse of what follows the run. */
  lemma SpaceStep(s: string)
    requires s != [] && IsSpace(s[0])
    ensures CollapseSpaces(s) == "-" + CollapseSpaces(SkipSpaces(s))
  {
  }

  /** Text without whitespace passes through the whitespace pass unchanged, whatever follows it. */
  lemma {:induction false} CollapseSpacesKeepsPrefix(w: string, rest: string)
    requires NoSpace(w)
    ensures CollapseSpaces(w + rest) == w + CollapseSpaces(rest)
  {
    if w == [] {
      assert w + rest == rest;
    } else {
      var tail := w[1..];
      assert NoSpace(tail) by {
        assert forall i :: 0 <= i < |tail| ==> tail[i] == w[i + 1];
      }
      assert (w + rest)[0] == w[0] && (w + rest)[1..] == tail + rest;
      CollapseSpacesKeepsPrefix(tail, rest);
      assert CollapseSpaces(w + rest) == [w[0]] + (tail + CollapseSpaces(rest));
      AppendAssoc([w[0]], tail, CollapseSpaces(rest));
      assert [w[0]] + tail == w;
    }
  }

  /** A whitespace run in front of text that does not start with whitespace becomes one `-`. */
  lemma CollapseSpacesRunPrefix(sp: string, rest: string)
    requires sp != [] && AllSpaces(sp)
    requires rest == [] || !IsSpace(rest[0])
    ensures CollapseSpaces(sp + rest) == "-" + CollapseSpaces(rest)
  {
    assert (sp + rest)[0] == sp[0];
    SkipSpacesAppend(sp, rest);
    assert SkipSpaces(rest) == rest;
    SpaceStep(sp + rest);
  }

  /** The whitespace pass deletes no word character: it only turns whitespace into `-`. */
  lemma {:induction false} CollapseSpacesWordChars(s: string)
    ensures WordChars(CollapseSpaces(s)) == WordChars(s)
    decreases |s|
  {
    if s != [] {
      if IsSpace(s[0]) {
        var t := SkipSpaces(s[1..]);
        CollapseSpacesWordChars(t);
        SkipSpacesWordChars(s[1..]);
        SpaceIsNotWord(s[0]);
        var rest := CollapseSpaces(t);
        assert CollapseSpaces(s) == "-" + rest;
        assert ("-" + rest)[1..] == rest;
      } else {
        CollapseSpacesWordChars(s[1..]);
        var rest := CollapseSpaces(s[1..]);
        assert CollapseSpaces(s) == [s[0]] + rest;
        assert ([s[0]] + rest)[1..] == rest;
      }
    }
  }

  /** Every character of `s` is `-`. */
  predicate AllHyphens(s: string) {
    forall i :: 0 <= i < |s| ==> s[i] == '-'
  }

  /** Skipping the hyphens of `a + b` goes into `b` only when `a` is all hyphens. */
  lemma {:induction false} SkipHyphensAppend(a: string, b: string)
    ensures SkipHyphens(a + b) == if AllHyphens(a) then SkipHyphens(b) else SkipHyphens(a) + b
  {
    if a == [] {
      assert a + b == b;
    } else if a[0] == '-' {
      assert (a + b)[1..] == a[1..] + b;
      assert AllHyphens(a) <==> AllHyphens(a[1..]) by {
        assert forall i :: 1 <= i < |a| ==> a[i] == a[1..][i - 1];
      }
      SkipHyphensAppend(a[1..], b);
    } else {
      assert (a + b)[0] == a[0];
    }
  }


  /** Skipping hyphens drops no word character. */
  lemma {:induction false} SkipHyphensWordChars(s: string)
    ensures WordChars(SkipHyphens(s)) == WordChars(s)
  {
    if s != [] && s[0] == '-' {
      SkipHyphensWordChars(s[1..]);
      assert WordChars(s) == WordChars(s[1..]);
    }
  }

  /** A text that starts with `-` collapses to `-` and the collapse of what follows the run. */
  lemma HyphenStep(s: string)
    requires s != [] && s[0] == '-'
    ensures CollapseHyphens(s) == "-" + CollapseHyphens(SkipHyphens(s))
  {
  }

  /** Text without `-` passes through the hyphen pass unchanged, whatever follows it. */
  lemma {:induction false} CollapseHyphensKeepsPrefix(w: string, rest: string)
    requires '-' !in w
    ensures CollapseHyphens(w + rest) == w + CollapseHyphens(rest)
  {
    if w == [] {
      assert w + rest == rest;
    } else {
      var tail := w[1..];
      assert '-' !in tail by {
        assert forall i :: 0 <= i < |tail| ==> tail[i] == w[i + 1];
      }
      assert (w + rest)[0] == w[0] && (w + rest)[1..] == tail + rest;
      CollapseHyphensKeepsPrefix(tail, rest);
      assert CollapseHyphens(w + rest) == [w[0]] + (tail + CollapseHyphens(rest));
      AppendAssoc([w[0]], tail, CollapseHyphens(rest));
      assert [w[0]] + tail == w;
    }
  }

  /** A run of `-` in front of text that does not start with `-` becomes one `-`. */
  lemma CollapseHyphensRunPrefix(hs: string, rest: string)
    requires hs != [] && AllHyphens(hs)
    requires rest == [] || rest[0] != '-'
    ensures CollapseHyphens(hs + rest) == "-" + CollapseHyphens(rest)
  {
    assert (hs + rest)[0] == hs[0];
    SkipHyphensAppend(hs, rest);
    assert SkipHyphens(rest) == rest;
    HyphenStep(hs + rest);
  }

  /** The hyphen pass deletes no word character: it only deletes repeated `-`. */
  lemma {:induction false} CollapseHyphensWordChars(s: string)
    ensures WordChars(CollapseHyphens(s)) == WordChars(s)
    decreases |s|
  {
    if s != [] {
      if s[0] == '-' {
        var t := SkipHyphens(s[1..]);
        CollapseHyphensWordChars(t);
        SkipHyphensWordChars(s[1..]);
        var rest := CollapseHyphens(t);
        assert CollapseHyphens(s) == "-" + rest;
        assert ("-" + rest)[1..] == rest;
      } else {
        CollapseHyphensWordChars(s[1..]);
        var rest := CollapseHyphens(s[1..]);
        assert CollapseHyphens(s) == [s[0]] + rest;
        assert ([s[0]] + rest)[1..] == rest;
      }
    }
  }

  /**
   * The slug spells the title's word characters, lower-cased and in order:
   * the passes only delete punctuation and turn whitespace and `-` runs into
   * single `-`.
   */
  lemma SlugKeepsWordChars(title: string)
    ensures WordChars(GenerateSlug(title)) == Lower(WordChars(title))
  {
    TrimIsNoOp(title);
    var lowered := Lower(title);
    var stripped := StripPunctuation(lowered);
    CollapseHyphensWordChars(CollapseSpaces(stripped));
    CollapseSpacesWordChars(stripped);
    StripKeepsWordChars(lowered);
    LowerWordChars(title);
  }

  /** The pieces of the example slug put back together. */
  lemma InternalLinkPieces()
    ensures "internal" + ("-" + "link") == "internal-link"
    ensures NoDoubleHyphen("internal-link")
    ensures forall i :: 0 <= i < |"internal-link"| ==> IsSlugChar("internal-link"[i])
  {
  }

  /** The example in the source's comment: the title `Internal Link` has the slug `internal-link`. */
  lemma InternalLinkSlug()
    ensures GenerateSlug("Internal Link") == "internal-link"
  {
    var title := "Internal Link";
    var w1, w2 := "internal", "link";
    var lowered := Lower(title);
    assert lowered == w1 + " " + w2 by {
      assert lowered[0] == ToLower('I') == 'i';
      assert lowered[9] == ToLower('L') == 'l';
    }
    SlugCharsNoSpace(w1);
    SlugCharsNoSpace(w2);
    assert forall i :: 0 <= i < |lowered| ==> Kept(lowered[i]);
    StripKeepsKept(lowered);
    AppendAssoc(w1, " ", w2);
    var stripped := StripPunctuation(lowered);
    assert stripped == w1 + (" " + w2);
    assert AllSpaces(" ");
    CollapseSpacesRunPrefix(" ", w2);
    CollapseSpacesNoSpace(w2);
    var run := CollapseSpaces(" " + w2);
    assert run == "-" + w2;
    CollapseSpacesKeepsPrefix(w1, " " + w2);
    var collapsed := CollapseSpaces(stripped);
    assert collapsed == w1 + run;
    InternalLinkPieces();
    assert collapsed == "internal-link";
    CollapseHyphensNoDouble(collapsed);
    SlugCharsNoSpace(collapsed);
    assert GenerateSlug(title) == Trim(CollapseHyphens(collapsed));
  }

  /** Stripping leaves a string made only of kept characters unchanged. */
  lemma {:induction false} StripKeepsKept(s: string)
    requires forall i :: 0 <= i < |s| ==> Kept(s[i])
    ensures StripPunctuation(s) == s
  {
    if s != [] {
      StripKeepsKept(s[1..]);
    }
  }

  /** Collapsing whitespace leaves a string without whitespace unchanged. */
  lemma {:induction false} CollapseSpacesNoSpace(s: string)
    requires NoSpace(s)
    ensures CollapseSpaces(s) == s
  {
    if s != [] {
      CollapseSpacesNoSpace(s[1..]);
    }
  }

  /** Collapsing hyphens leaves a string without `--` unchanged. */
  lemma {:induction false} CollapseHyphensNoDouble(s: string)
    requires NoDoubleHyphen(s)
    ensures CollapseHyphens(s) == s
  {
    if s != [] {
      var t := s[1..];
      assert NoDoubleHyphen(t) by {
        forall i | 0 <= i < |t| - 1 ensures !(t[i] == '-' && t[i + 1] == '-') {
          assert t[i] == s[i + 1] && t[i + 1] == s[i + 2];
        }
      }
      CollapseHyphensNoDouble(t);
      if s[0] == '-' {
        assert t == [] || t[0] != '-' by {
          if t != [] {
            assert t[0] == s[1];
          }
        }
        assert SkipHyphens(t) == t;
      }
      assert s == [s[0]] + t;
    }
  }

  /** A well-formed slug is left unchanged by `generateSlug`. */
  lemma SlugIsFixedPoint(s: string)
    requires IsSlug(s)
    ensures GenerateSlug(s) == s
  {
    assert Lower(s) == s;
    StripKeepsKept(s);
    assert NoSpace(s);
    CollapseSpacesNoSpace(s);
    CollapseHyphensNoDouble(s);
  }

  /** `generateSlug` is idempotent. */
  lemma SlugIdempotent(title: string)
    ensures GenerateSlug(GenerateSlug(title)) == GenerateSlug(title)
  {
    SlugIsFixedPoint(GenerateSlug(title));
  }

  /** Stripping keeps a kept first and last character in place. */
  lemma {:induction false} StripPunctuationEnds(s: string)
    requires s != []
    ensures Kept(s[0]) ==> StripPunctuation(s) != [] && StripPunctuation(s)[0] == s[0]
    ensures Kept(s[|s| - 1]) ==>
      StripPunctuation(s) != [] && StripPunctuation(s)[|StripPunctuation(s)| - 1] == s[|s| - 1]
  {
    if |s| > 1 {
      StripPunctuationEnds(s[1..]);
    }
  }

  /** A leading whitespace character becomes a leading `-`. */
  lemma CollapseSpacesFirst(s: string)
    requires s != [] && IsSpace(s[0])
    ensures CollapseSpaces(s) != [] && CollapseSpaces(s)[0] == '-'
  {
  }

  /** A trailing whitespace character becomes a trailing `-`. */
  lemma {:induction false} CollapseSpacesLast(s: string)
    requires s != [] && IsSpace(s[|s| - 1])
    ensures CollapseSpaces(s) != [] && CollapseSpaces(s)[|CollapseSpaces(s)| - 1] == '-'
  {
    if IsSpace(s[0]) {
      var t := SkipSpaces(s[1..]);
      if t != [] {
        assert t[|t| - 1] == s[|s| - 1];
        CollapseSpacesLast(t);
        var rest := CollapseSpaces(t);
        assert CollapseSpaces(s) == "-" + rest;
      }
    } else {
      var t := s[1..];
      assert t != [] && t[|t| - 1] == s[|s| - 1];
      CollapseSpacesLast(t);
      var rest := CollapseSpaces(t);
      assert CollapseSpaces(s) == [s[0]] + rest;
    }
  }

  /** Collapsing hyphens keeps a trailing `-`. */
  lemma {:induction false} CollapseHyphensLast(s: string)
    requires s != [] && s[|s| - 1] == '-'
    ensures CollapseHyphens(s) != [] && CollapseHyphens(s)[|CollapseHyphens(s)| - 1] == '-'
  {
    if s[0] == '-' {
      var t := SkipHyphens(s[1..]);
      if t != [] {
        assert t[|t| - 1] == s[|s| - 1];
        CollapseHyphensLast(t);
        var rest := CollapseHyphens(t);
        assert CollapseHyphens(s) == "-" + rest;
      }
    } else {
      var t := s[1..];
      assert t != [] && t[|t| - 1] == s[|s| - 1];
      CollapseHyphensLast(t);
      var rest := CollapseHyphens(t);
      assert CollapseHyphens(s) == [s[0]] + rest;
    }
  }

  /** A title that starts with whitespace gives a slug that starts with `-`. */
  lemma LeadingHyphenSurvives(title: string)
    requires title != [] && IsSpace(title[0])
    ensures GenerateSlug(title) != [] && GenerateSlug(title)[0] == '-'
  {
    TrimIsNoOp(title);
    var lowered := Lower(title);
    assert lowered[0] == ToLower(title[0]);
    StripPunctuationEnds(lowered);
    var stripped := StripPunctuation(lowered);
    CollapseSpacesFirst(stripped);
  }

  /**
   * A title that ends with whitespace gives a slug that ends with `-`: the
   * final trim does not remove it, so `generateSlug(" Hi ")` is `"-hi-"`.
   */
  lemma TrailingHyphenSurvives(title: string)
    requires title != [] && IsSpace(title[|title| - 1])
    ensures GenerateSlug(title) != [] && GenerateSlug(title)[|GenerateSlug(title)| - 1] == '-'
  {
    UntrimmedLast(title);
    TrimIsNoOp(title);
  }

  /** The chain before the trim ends in `-` when the title ends in whitespace. */
  lemma UntrimmedLast(title: string)
    requires title != [] && IsSpace(title[|title| - 1])
    ensures Untrimmed(title) != [] && Untrimmed(title)[|Untrimmed(title)| - 1] == '-'
  {
    var lowered := Lower(title);
    assert lowered[|lowered| - 1] == ToLower(title[|title| - 1]);
    StripPunctuationEnds(lowered);
    var stripped := StripPunctuation(lowered);
    CollapseSpacesLast(stripped);
    CollapseHyphensLast(CollapseSpaces(stripped));
  }
}
