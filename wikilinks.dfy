/**
 * `processWikilinks` from scripts/process-obsidian-posts.js: every wikilink
 * `[[X]]`, where X is one or more characters other than `]`, is replaced by
 * a Markdown link `[X](/slug/)` whose slug is `generateSlug(X)`. Matches are
 * found left to right and do not overlap.
 *
 * The scan of a global `replace` is modelled as a list of pieces: a piece is
 * either one character copied unchanged or one match. `Tokenize` produces
 * the pieces the regular expression engine finds, `Source` gives back the
 * text the pieces cover and `Render` the text the replacement produces.
 */
module Wikilinks {
  import opened Wrappers
  import opened JsText
  import opened Slug

  /** `x` is a possible capture of the pattern at the start of `s`. */
  predicate IsLinkAt(s: string, x: string) {
    |x| > 0 && ']' !in x && "[[" + x + "]]" <= s
  }

  /**
   * The capture of a wikilink that starts at the first character of `s`, if
   * there is one. The greedy run of non-`]` characters goes up to the first
   * `]`, and backtracking cannot help, since a shorter run is followed by a
   * character other than `]`.
   */
  function LinkAt(s: string): (r: Option<string>)
    ensures r.Some? ==> IsLinkAt(s, r.value)
  {
    if |s| >= 2 && s[0] == '[' && s[1] == '[' then
      var k := IndexOf(s, ']', 2);
      if k > 2 && k + 1 < |s| && s[k + 1] == ']' then
        assert "[[" + s[2..k] + "]]" == s[..k + 2];
        Some(s[2..k])
      else
        None
    else
      None
  }

  /** Every possible capture at the start of `s` is the one `LinkAt` finds, so the match is unique. */
  lemma LinkAtComplete(s: string, x: string)
    requires IsLinkAt(s, x)
    ensures LinkAt(s) == Some(x)
  {
    assert s[..|x| + 4] == "[[" + x + "]]";
    assert s[2..2 + |x|] == x;
    IndexOfFirst(s, ']', 2, 2 + |x|);
  }

  /** One step of the scan: a character copied as it is, or one match and its capture. */
  datatype Piece = Char(c: char) | Link(text: string)

  /** The text a piece covers in the input. */
  function PieceSource(p: Piece): string {
    match p
    case Char(c) => [c]
    case Link(x) => "[[" + x + "]]"
  }

  /** The text the replacement produces for a piece: a link becomes `[X](/slug/)`. */
  function PieceRender(p: Piece): string {
    match p
    case Char(c) => [c]
    case Link(x) => "[" + x + "](/" + GenerateSlug(x) + "/)"
  }

  /** The input text a list of pieces covers. */
  function Source(ps: seq<Piece>): string {
    if ps == [] then [] else PieceSource(ps[0]) + Source(ps[1..])
  }

  /** The output text a list of pieces produces. */
  function Render(ps: seq<Piece>): string {
    if ps == [] then [] else PieceRender(ps[0]) + Render(ps[1..])
  }

  /**
   * The pieces are what a left-to-right, non-overlapping global scan finds:
   * each piece starts where the previous one ended, a `Link` is the match at
   * that position and a `Char` stands where the pattern does not match.
   */
  predicate Scanned(ps: seq<Piece>) {
    ps == [] ||
    (LinkAt(Source(ps)) == (if ps[0].Link? then Some(ps[0].text) else None)
     && Scanned(ps[1..]))
  }

  /** The scan of the global regular expression over `s`. */
  function Tokenize(s: string): (ps: seq<Piece>)
    ensures Source(ps) == s
    ensures Scanned(ps)
    decreases |s|
  {
    if s == [] then []
    else
      match LinkAt(s)
      case Some(x) =>
        var rest := s[|x| + 4..];
        assert s == "[[" + x + "]]" + rest;
        [Link(x)] + Tokenize(rest)
      case None =>
        assert s == [s[0]] + s[1..];
        [Char(s[0])] + Tokenize(s[1..])
  }

  /**
   * `processWikilinks(content)`: the text never gets shorter, and it comes
   * back unchanged exactly when no position of it starts a wikilink.
   */
  function ProcessWikilinks(content: string): (r: string)
    ensures |r| >= |content|
    ensures r == content <==> NoLinks(content)
  {
    var ps := Tokenize(content);
    RenderLength(ps);
    RenderUnchangedIffNoLinks(content);
    Render(ps)
  }

  /** A text has exactly one decomposition into scanned pieces. */
  lemma {:induction false} ScanIsUnique(ps: seq<Piece>, s: string)
    requires Scanned(ps) && Source(ps) == s
    ensures ps == Tokenize(s)
    decreases |ps|
  {
    if ps != [] {
      match ps[0]
      case Link(x) =>
        assert s == "[[" + x + "]]" + Source(ps[1..]);
        assert Source(ps[1..]) == s[|x| + 4..];
        ScanIsUnique(ps[1..], s[|x| + 4..]);
      case Char(c) =>
        assert Source(ps[1..]) == s[1..];
        ScanIsUnique(ps[1..], s[1..]);
    }
  }

  /**
   * The replacement is fully determined by the scan: for any left-to-right,
   * non-overlapping decomposition of the input into copied characters and
   * matches `[[X]]`, the output copies the characters and turns each match
   * into `[X](/generateSlug(X)/)`.
   */
  lemma ProcessWikilinksRenders(content: string, ps: seq<Piece>)
    requires Scanned(ps) && Source(ps) == content
    ensures ProcessWikilinks(content) == Render(ps)
  {
    ScanIsUnique(ps, content);
  }

  /** Every capture is non-empty and contains no `]`. */
  lemma {:induction false} CapturesAreWellFormed(ps: seq<Piece>)
    requires Scanned(ps)
    ensures forall i :: 0 <= i < |ps| && ps[i].Link? ==> |ps[i].text| > 0 && ']' !in ps[i].text
  {
    if ps != [] {
      CapturesAreWellFormed(ps[1..]);
      assert forall i :: 1 <= i < |ps| ==> ps[i] == ps[1..][i - 1];
    }
  }

  /** No position of `s` starts a match. */
  predicate NoLinks(s: string) {
    forall i :: 0 <= i < |s| ==> LinkAt(s[i..]).None?
  }

  /** Where no position starts a match, the scan copies every character. */
  lemma {:induction false} NoLinksAllChars(s: string)
    requires NoLinks(s)
    ensures forall i :: 0 <= i < |Tokenize(s)| ==> Tokenize(s)[i].Char?
    decreases |s|
  {
    if s != [] {
      assert s[0..] == s;
      var tail := s[1..];
      assert forall i :: 0 <= i < |tail| ==> tail[i..] == s[i + 1..];
      NoLinksAllChars(tail);
      var ps := Tokenize(s);
      assert ps == [Char(s[0])] + Tokenize(tail);
    }
  }

  /** Where the scan copies every character, no position starts a match. */
  lemma {:induction false} AllCharsNoLinks(s: string)
    requires forall i :: 0 <= i < |Tokenize(s)| ==> Tokenize(s)[i].Char?
    ensures NoLinks(s)
    decreases |s|
  {
    if s != [] {
      var ps := Tokenize(s);
      assert ps[0].Char?;
      assert LinkAt(s).None?;
      var tail := s[1..];
      assert ps == [Char(s[0])] + Tokenize(tail);
      assert forall i :: 0 <= i < |Tokenize(tail)| ==> Tokenize(tail)[i] == ps[i + 1];
      AllCharsNoLinks(tail);
      assert s[0..] == s;
      assert forall i :: 1 <= i < |s| ==> s[i..] == tail[i - 1..];
    }
  }

  /** Rendering never shortens the text and lengthens it by every match. */
  lemma {:induction false} RenderLength(ps: seq<Piece>)
    ensures |Render(ps)| >= |Source(ps)|
    ensures |Render(ps)| == |Source(ps)| <==> forall i :: 0 <= i < |ps| ==> ps[i].Char?
  {
    if ps != [] {
      RenderLength(ps[1..]);
      assert forall i :: 1 <= i < |ps| ==> ps[i] == ps[1..][i - 1];
    }
  }

  /** Pieces that are all copied characters render as the text they cover. */
  lemma {:induction false} RenderChars(ps: seq<Piece>)
    requires forall i :: 0 <= i < |ps| ==> ps[i].Char?
    ensures Render(ps) == Source(ps)
  {
    if ps != [] {
      assert forall i :: 0 <= i < |ps| - 1 ==> ps[1..][i] == ps[i + 1];
      RenderChars(ps[1..]);
    }
  }

  /** The rendered scan equals the input exactly when no position of the input starts a match. */
  lemma RenderUnchangedIffNoLinks(content: string)
    ensures Render(Tokenize(content)) == content <==> NoLinks(content)
  {
    var ps := Tokenize(content);
    RenderLength(ps);
    if NoLinks(content) {
      NoLinksAllChars(content);
      RenderChars(ps);
    } else if forall i :: 0 <= i < |ps| ==> ps[i].Char? {
      AllCharsNoLinks(content);
    }
  }

  /** `[[]]`: the capture would be empty, so nothing matches. */
  lemma EmptyLinkUnchanged()
    ensures ProcessWikilinks("[[]]") == "[[]]"
  {
    var e := "[[]]";
    assert IndexOf(e, ']', 2) == 2;
    assert LinkAt(e[0..]).None?;
    assert LinkAt(e[1..]).None?;
    assert LinkAt(e[2..]).None?;
    assert LinkAt(e[3..]).None?;
  }

  /** `[[a]b]]`: the first `]` is not followed by `]`, so nothing matches. */
  lemma BrokenLinkUnchanged()
    ensures ProcessWikilinks("[[a]b]]") == "[[a]b]]"
  {
    var b := "[[a]b]]";
    IndexOfFirst(b, ']', 2, 3);
    assert LinkAt(b[0..]).None?;
    assert LinkAt(b[1..]).None?;
    assert LinkAt(b[2..]).None?;
    assert LinkAt(b[3..]).None?;
    assert LinkAt(b[4..]).None?;
    assert LinkAt(b[5..]).None?;
    assert LinkAt(b[6..]).None?;
  }

  /** The example link and its rendering, spelled out piece by piece. */
  lemma InternalLinkText()
    ensures "[[" + "Internal Link" + "]]" == "[[Internal Link]]"
    ensures "[" + "Internal Link" + "](/" + "internal-link" + "/)" + [] == "[Internal Link](/internal-link/)"
  {
  }

  /** The example in the source's comment: `[[Internal Link]]` becomes `[Internal Link](/internal-link/)`. */
  lemma InternalLinkExample()
    ensures ProcessWikilinks("[[Internal Link]]") == "[Internal Link](/internal-link/)"
  {
    var x := "Internal Link";
    var s := "[[Internal Link]]";
    InternalLinkText();
    assert "[[" + x + "]]" <= s;
    LinkAtComplete(s, x);
    var ps := [Link(x)];
    assert Source(ps) == s;
    assert Scanned(ps);
    ProcessWikilinksRenders(s, ps);
    InternalLinkSlug();
    assert Render(ps) == "[" + x + "](/" + GenerateSlug(x) + "/)" + [];
  }
}
