/** Text helpers used by the search: Rust's `str::trim` and the
    case-insensitive matcher that `Filter::Search` applies to a description. */
module TodoText {

  /** Rust's `char::is_whitespace`: the characters with the Unicode
      White_Space property. */
  predicate IsWhitespace(c: char)
  {
    ('\t' <= c <= '\r') || c == ' ' || c == '\U{85}' || c == '\U{A0}' ||
    c == '\U{1680}' || ('\U{2000}' <= c <= '\U{200A}') || c == '\U{2028}' ||
    c == '\U{2029}' || c == '\U{202F}' || c == '\U{205F}' || c == '\U{3000}'
  }

  predicate AllWhitespace(s: string)
  {
    forall k :: 0 <= k < |s| ==> IsWhitespace(s[k])
  }

  /** The position of the first non-whitespace character at or after `i`,
      or `|s|` when there is none. */
  function SkipForward(s: string, i: nat): (j: nat)
    requires i <= |s|
    ensures i <= j <= |s|
    ensures forall k :: i <= k < j ==> IsWhitespace(s[k])
    ensures j < |s| ==> !IsWhitespace(s[j])
    decreases |s| - i
  {
    if i < |s| && IsWhitespace(s[i]) then SkipForward(s, i + 1) else i
  }

  /** The end of `s[lo..hi]` once its trailing whitespace is dropped. */
  function SkipBackward(s: string, lo: nat, hi: nat): (j: nat)
    requires lo <= hi <= |s|
    ensures lo <= j <= hi
    ensures forall k :: j <= k < hi ==> IsWhitespace(s[k])
    ensures lo < j ==> !IsWhitespace(s[j - 1])
    decreases hi
  {
    if lo < hi && IsWhitespace(s[hi - 1]) then SkipBackward(s, lo, hi - 1) else hi
  }

  /** `r` is the slice of `s` from `i` on, with only whitespace outside it. */
  predicate TrimmedAt(s: string, r: string, i: int)
  {
    0 <= i <= i + |r| <= |s| && r == s[i..i + |r|] &&
    (forall k :: 0 <= k < i ==> IsWhitespace(s[k])) &&
    (forall k :: i + |r| <= k < |s| ==> IsWhitespace(s[k]))
  }

  /** `str::trim`, which drops the leading and then the trailing
      whitespace: a contiguous slice of `s` with neither leading nor
      trailing whitespace, everything outside it being whitespace. */
  function Trim(s: string): (r: string)
    ensures exists i :: TrimmedAt(s, r, i)
    ensures r != [] ==> !IsWhitespace(r[0]) && !IsWhitespace(r[|r| - 1])
  {
    var lo := SkipForward(s, 0);
    var hi := SkipBackward(s, lo, |s|);
    assert TrimmedAt(s, s[lo..hi], lo);
    s[lo..hi]
  }

  /** The trimmed text is empty exactly when the text is all whitespace. */
  lemma TrimEmptyIff(s: string)
    ensures Trim(s) == [] <==> AllWhitespace(s)
  {
    var r := Trim(s);
    var i :| TrimmedAt(s, r, i);
    if r != [] {
      assert s[i] == r[0];
    }
  }

  /** ASCII upper case to lower case; every other character is kept. */
  function LowerChar(c: char): char
  {
    if 'A' <= c <= 'Z' then (c as int + 32) as char else c
  }

  function Lower(s: string): string
  {
    seq(|s|, k requires 0 <= k < |s| => LowerChar(s[k]))
  }

  /** `a` and `b` are the same text up to ASCII letter case. */
  predicate SameUpToCase(a: string, b: string)
  {
    |a| == |b| && forall k :: 0 <= k < |a| ==> LowerChar(a[k]) == LowerChar(b[k])
  }

  /** Each ASCII letter has exactly two case variants, which fold together,
      and a lower-case letter folds to itself. */
  lemma AsciiLettersFold(c: char)
    requires 'a' <= c <= 'z'
    ensures LowerChar(c) == c
    ensures LowerChar((c as int - 32) as char) == c
    ensures forall d: char :: LowerChar(d) == c ==> d == c || d == (c as int - 32) as char
  {
  }

  /** Folding is idempotent, and a text is the same as its folded form up
      to case. */
  lemma LowerIdempotent(s: string)
    ensures Lower(Lower(s)) == Lower(s)
    ensures SameUpToCase(s, Lower(s))
  {
    assert forall k :: 0 <= k < |s| ==> LowerChar(LowerChar(s[k])) == LowerChar(s[k]);
  }

  /** `needle` occurs in `hay` starting at position `i`. */
  predicate OccursAt(hay: string, needle: string, i: int)
  {
    0 <= i <= |hay| - |needle| && hay[i..i + |needle|] == needle
  }

  /** `needle` occurs as a contiguous block of `hay`. */
  function Contains(hay: string, needle: string): (b: bool)
    ensures b <==> exists i :: OccursAt(hay, needle, i)
    decreases |hay|
  {
    if needle <= hay then
      assert OccursAt(hay, needle, 0);
      true
    else if hay == [] then
      false
    else
      var b := Contains(hay[1..], needle);
      if b then
        var i :| OccursAt(hay[1..], needle, i);
        assert hay[i + 1..i + 1 + |needle|] == hay[1..][i..i + |needle|];
        assert OccursAt(hay, needle, i + 1);
        true
      else
        assert forall i :: OccursAt(hay, needle, i) ==> i == 0 || OccursAt(hay[1..], needle, i - 1) by {
          forall i | OccursAt(hay, needle, i) && i > 0 ensures OccursAt(hay[1..], needle, i - 1) {
            assert hay[1..][i - 1..i - 1 + |needle|] == hay[i..i + |needle|];
          }
        }
        false
  }

  /** The match of a search text against a description: case-insensitive
      containment of the text in the description. */
  predicate Matches(needle: string, description: string)
  {
    Contains(Lower(description), Lower(needle))
  }

  /** The `(?i)` flag: changing the ASCII letter case of the search text
      or of the description never changes whether they match. */
  lemma MatchesIgnoresCase(n1: string, n2: string, d1: string, d2: string)
    requires SameUpToCase(n1, n2) && SameUpToCase(d1, d2)
    ensures Matches(n1, d1) <==> Matches(n2, d2)
  {
    assert Lower(n1) == Lower(n2);
    assert Lower(d1) == Lower(d2);
  }

  /** In particular, folding either side first changes nothing. */
  lemma MatchesLowered(needle: string, description: string)
    ensures Matches(needle, description) <==> Matches(Lower(needle), description)
    ensures Matches(needle, description) <==> Matches(needle, Lower(description))
  {
    LowerIdempotent(needle);
    LowerIdempotent(description);
    MatchesIgnoresCase(needle, Lower(needle), description, description);
    MatchesIgnoresCase(needle, needle, description, Lower(description));
  }

  /** The empty search text matches every description. */
  lemma EmptyNeedleMatches(description: string)
    ensures Matches("", description)
  {
  }
}
