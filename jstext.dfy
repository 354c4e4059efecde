/**
 * JavaScript string vocabulary shared by the content scripts: the character
 * classes `\s` and `\w`, `toLowerCase` on ASCII letters, `includes`-style
 * substring search and `Array.prototype.join`.
 */
module JsText {

  /**
   * ECMAScript WhiteSpace and LineTerminator code points: the set that `\s`
   * matches and that `String.prototype.trim` removes.
   */
  predicate IsSpace(c: char) {
    || c == ' ' || c == '\t' || c == '\n' || c == '\r'
    || c == '\U{000B}' || c == '\U{000C}'
    || c == '\U{00A0}' || c == '\U{1680}'
    || ('\U{2000}' <= c <= '\U{200A}')
    || c == '\U{2028}' || c == '\U{2029}' || c == '\U{202F}' || c == '\U{205F}'
    || c == '\U{3000}' || c == '\U{FEFF}'
  }

  /** `\w`: an ASCII letter, an ASCII digit or `_`. */
  predicate IsWordChar(c: char) {
    ('a' <= c <= 'z') || ('A' <= c <= 'Z') || ('0' <= c <= '9') || c == '_'
  }

  predicate IsAsciiUpper(c: char) {
    'A' <= c <= 'Z'
  }

  /** `toLowerCase` on one character; letters outside ASCII are left alone. */
  function ToLower(c: char): (r: char)
    ensures !IsAsciiUpper(r)
    ensures IsWordChar(c) <==> IsWordChar(r)
    ensures IsSpace(c) <==> IsSpace(r)
    ensures !IsAsciiUpper(c) ==> r == c
    ensures IsAsciiUpper(c) ==> 'a' <= r <= 'z' && r as int - 'a' as int == c as int - 'A' as int
  {
    if IsAsciiUpper(c) then (c as int - 'A' as int + 'a' as int) as char else c
  }

  /** `s` contains no whitespace. */
  predicate NoSpace(s: string) {
    forall i :: 0 <= i < |s| ==> !IsSpace(s[i])
  }

  /** The suffix of `s` after its leading whitespace: what is left once `\s+` has matched at the start. */
  function SkipSpaces(s: string): (r: string)
    ensures |r| <= |s| && r == s[|s| - |r|..]
    ensures r == [] || !IsSpace(r[0])
  {
    if s != [] && IsSpace(s[0]) then SkipSpaces(s[1..]) else s
  }

  /** A text is its prefix followed by its suffix. */
  lemma SliceJoin(s: string, k: int)
    requires 0 <= k <= |s|
    ensures s == s[..k] + s[k..]
  {
  }

  /** Concatenation is associative. */
  lemma AppendAssoc(x: string, y: string, z: string)
    ensures x + (y + z) == (x + y) + z
  {
  }

  /** Every character of `s` is whitespace. */
  predicate AllSpaces(s: string) {
    forall i :: 0 <= i < |s| ==> IsSpace(s[i])
  }

  /** A whitespace character in front of whitespace is whitespace. */
  lemma AllSpacesCons(c: char, t: string)
    requires IsSpace(c) && AllSpaces(t)
    ensures AllSpaces([c] + t)
  {
    var s := [c] + t;
    forall i | 0 <= i < |s| ensures IsSpace(s[i]) {
      if i > 0 {
        assert s[i] == t[i - 1];
      }
    }
  }

  /** Whitespace after a whitespace run extends the run. */
  lemma AllSpacesSnoc(t: string, c: char)
    requires AllSpaces(t) && IsSpace(c)
    ensures AllSpaces(t + [c])
  {
    var s := t + [c];
    forall i | 0 <= i < |s| ensures IsSpace(s[i]) {
      if i < |t| {
        assert s[i] == t[i];
      }
    }
  }

  /** Everything `SkipSpaces` drops is whitespace. */
  lemma {:induction false} SkippedAreSpaces(s: string)
    ensures AllSpaces(s[..|s| - |SkipSpaces(s)|])
  {
    if s == [] {
      assert s[..0] == [];
    } else if IsSpace(s[0]) {
      var tail := s[1..];
      SkippedAreSpaces(tail);
      var m := |tail| - |SkipSpaces(tail)|;
      assert SkipSpaces(s) == SkipSpaces(tail);
      assert s[..m + 1] == [s[0]] + tail[..m];
      AllSpacesCons(s[0], tail[..m]);
    } else {
      assert SkipSpaces(s) == s;
      assert s[..0] == [];
    }
  }

  /** Skipping the whitespace of `a + b` skips all of `a` and then into `b` when `a` is all whitespace, and stays in `a` otherwise. */
  lemma {:induction false} SkipSpacesAppend(a: string, b: string)
    ensures SkipSpaces(a + b) == if AllSpaces(a) then SkipSpaces(b) else SkipSpaces(a) + b
  {
    if a == [] {
      assert a + b == b;
    } else if IsSpace(a[0]) {
      assert (a + b)[1..] == a[1..] + b;
      assert AllSpaces(a) <==> AllSpaces(a[1..]) by {
        assert forall i :: 1 <= i < |a| ==> a[i] == a[1..][i - 1];
      }
      SkipSpacesAppend(a[1..], b);
    } else {
      assert (a + b)[0] == a[0];
    }
  }


  /** Whitespace is never a word character. */
  lemma SpaceIsNotWord(c: char)
    requires IsSpace(c)
    ensures !IsWordChar(c)
  {
  }

  /** The word characters of `s`, in order. */
  function WordChars(s: string): (r: string)
    ensures |r| <= |s|
    ensures forall i :: 0 <= i < |r| ==> IsWordChar(r[i])
  {
    if s == [] then []
    else (if IsWordChar(s[0]) then [s[0]] else []) + WordChars(s[1..])
  }

  /** The word characters of a concatenation are those of each part. */
  lemma {:induction false} WordCharsAppend(a: string, b: string)
    ensures WordChars(a + b) == WordChars(a) + WordChars(b)
  {
    if a == [] {
      assert a + b == b;
    } else {
      assert (a + b)[1..] == a[1..] + b;
      WordCharsAppend(a[1..], b);
    }
  }

  /** A text of word characters is its own word characters. */
  lemma {:induction false} WordCharsOfWord(s: string)
    requires forall i :: 0 <= i < |s| ==> IsWordChar(s[i])
    ensures WordChars(s) == s
  {
    if s != [] {
      assert forall i :: 0 <= i < |s| - 1 ==> s[1..][i] == s[i + 1];
      WordCharsOfWord(s[1..]);
    }
  }

  /** Skipping whitespace drops no word character. */
  lemma {:induction false} SkipSpacesWordChars(s: string)
    ensures WordChars(SkipSpaces(s)) == WordChars(s)
  {
    if s != [] && IsSpace(s[0]) {
      SpaceIsNotWord(s[0]);
      SkipSpacesWordChars(s[1..]);
      assert WordChars(s) == WordChars(s[1..]);
    }
  }

  /** `s.indexOf(c, i)`, with `|s|` standing for -1: the first index at or after `i` that holds `c`. */
  function IndexOf(s: string, c: char, i: nat): (k: nat)
    requires i <= |s|
    ensures i <= k <= |s|
    ensures forall m :: i <= m < k ==> s[m] != c
    ensures k < |s| ==> s[k] == c
    decreases |s| - i
  {
    if i == |s| || s[i] == c then i else IndexOf(s, c, i + 1)
  }

  /** `IndexOf` stops at the first occurrence. */
  lemma IndexOfFirst(s: string, c: char, i: nat, j: nat)
    requires i <= j < |s| && s[j] == c
    requires forall m :: i <= m < j ==> s[m] != c
    ensures IndexOf(s, c, i) == j
  {
  }

  /** `pat` occurs in `s` at index `i`. */
  predicate OccursAt(s: string, pat: string, i: int) {
    0 <= i && i + |pat| <= |s| && s[i..i + |pat|] == pat
  }

  /** `s.includes(pat)`, which is also what `/pat/.test(s)` means for a pattern without metacharacters. */
  predicate Contains(s: string, pat: string) {
    exists i | 0 <= i <= |s| :: OccursAt(s, pat, i)
  }

  /** `xs.filter(Boolean)` on strings, which is also `filter(w => w.length > 0)`: drop the empty ones. */
  function FilterNonEmpty(xs: seq<string>): (r: seq<string>)
    ensures |r| <= |xs|
    ensures forall k :: 0 <= k < |r| ==> r[k] != []
  {
    if xs == [] then []
    else if xs[0] == [] then FilterNonEmpty(xs[1..])
    else [xs[0]] + FilterNonEmpty(xs[1..])
  }

  /** `xs.join(sep)`. */
  function Join(xs: seq<string>, sep: string): (r: string)
    ensures xs == [] ==> r == []
    ensures |xs| == 1 ==> r == xs[0]
    ensures |xs| > 0 ==> xs[0] <= r
  {
    if |xs| == 0 then []
    else if |xs| == 1 then xs[0]
    else xs[0] + sep + Join(xs[1..], sep)
  }

  /** Joining `xs + [y]` appends the separator and `y` to the join of `xs`. */
  lemma {:induction false} JoinSnoc(xs: seq<string>, y: string, sep: string)
    requires xs != []
    ensures Join(xs + [y], sep) == Join(xs, sep) + sep + y
  {
    if |xs| == 1 {
      assert xs + [y] == [xs[0], y];
    } else {
      assert (xs + [y])[1..] == xs[1..] + [y];
      JoinSnoc(xs[1..], y, sep);
    }
  }

  /** `s.endsWith(t)`. */
  predicate EndsWith(s: string, t: string) {
    |t| <= |s| && s[|s| - |t|..] == t
  }

  /** The join ends with the last element. */
  lemma JoinEndsWithLast(xs: seq<string>, sep: string, y: string)
    requires xs != [] && xs[|xs| - 1] == y
    ensures EndsWith(Join(xs, sep), y)
  {
    if |xs| > 1 {
      JoinSnoc(xs[..|xs| - 1], y, sep);
      assert xs[..|xs| - 1] + [y] == xs;
    }
  }
}
