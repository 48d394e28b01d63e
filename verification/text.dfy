/** Character classes, trimming and ASCII case mapping, as the .NET runtime
    applies them to the names, type tags and raw values of configuration
    records. */
module Text {

  /** `char.IsWhiteSpace`: U+0009..U+000D, U+0020, U+0085, U+00A0 and the
      Unicode space, line and paragraph separators. This is the set that
      `string.Trim()` removes. */
  predicate IsWhiteSpace(c: char) {
    || '\U{0009}' <= c <= '\U{000D}'
    || c == ' '
    || c == '\U{0085}'
    || c == '\U{00A0}'
    || c == '\U{1680}'
    || '\U{2000}' <= c <= '\U{200A}'
    || c == '\U{2028}'
    || c == '\U{2029}'
    || c == '\U{202F}'
    || c == '\U{205F}'
    || c == '\U{3000}'
  }

  /** The set `bool.TryParse` strips before its second comparison. */
  predicate IsWhiteSpaceOrNul(c: char) {
    IsWhiteSpace(c) || c == '\0'
  }

  /** Number of leading characters of `s` that `drop` accepts. */
  function SkipStart(s: string, drop: char -> bool): (i: nat)
    ensures i <= |s|
    ensures forall k :: 0 <= k < i ==> drop(s[k])
    ensures i < |s| ==> !drop(s[i])
    decreases |s|
  {
    if |s| == 0 || !drop(s[0]) then 0 else 1 + SkipStart(s[1..], drop)
  }

  /** Start of the longest suffix of `s` whose characters `drop` accepts. */
  function SkipEnd(s: string, drop: char -> bool): (j: nat)
    ensures j <= |s|
    ensures forall k :: j <= k < |s| ==> drop(s[k])
    ensures 0 < j ==> !drop(s[j - 1])
    decreases |s|
  {
    if |s| == 0 || !drop(s[|s| - 1]) then |s| else SkipEnd(s[..|s| - 1], drop)
  }

  /** The bounds of `s` once the characters `drop` accepts are taken off both
      ends: everything outside `[a, b)` is dropped, and a non-empty middle
      starts and ends with a kept character. */
  function TrimBounds(s: string, drop: char -> bool): (ab: (nat, nat))
    ensures ab.0 <= ab.1 <= |s|
    ensures forall k :: 0 <= k < ab.0 ==> drop(s[k])
    ensures forall k :: ab.1 <= k < |s| ==> drop(s[k])
    ensures ab.0 < ab.1 ==> !drop(s[ab.0]) && !drop(s[ab.1 - 1])
  {
    var a := SkipStart(s, drop);
    var t := s[a..];
    var j := SkipEnd(t, drop);
    assert a < |s| ==> t[0] == s[a];
    (a, a + j)
  }

  function TrimBy(s: string, drop: char -> bool): string {
    var ab := TrimBounds(s, drop);
    s[ab.0..ab.1]
  }

  /** `string.Trim()`. */
  function Trim(s: string): string {
    TrimBy(s, IsWhiteSpace)
  }

  /** The trim `bool.TryParse` applies: white space and NUL characters. */
  function TrimWhiteSpaceAndNul(s: string): string {
    TrimBy(s, IsWhiteSpaceOrNul)
  }

  ghost predicate AllDropped(s: string, drop: char -> bool) {
    forall k :: 0 <= k < |s| ==> drop(s[k])
  }

  /** A trimmed string neither starts nor ends with a dropped character. */
  ghost predicate IsTrimmed(m: string, drop: char -> bool) {
    |m| == 0 || (!drop(m[0]) && !drop(m[|m| - 1]))
  }

  /** Trimming is determined by its result: whenever `s` is a dropped prefix,
      a trimmed middle and a dropped suffix, trimming yields that middle. */
  lemma TrimByCharacterization(s: string, p: string, m: string, q: string, drop: char -> bool)
    requires s == p + m + q
    requires AllDropped(p, drop) && AllDropped(q, drop)
    requires IsTrimmed(m, drop)
    ensures TrimBy(s, drop) == m
  {
    var ab := TrimBounds(s, drop);
    var a, b := ab.0, ab.1;
    assert forall k :: 0 <= k < |p| ==> s[k] == p[k];
    assert forall k :: 0 <= k < |q| ==> s[|p| + |m| + k] == q[k];
    if |m| == 0 {
      assert forall k :: 0 <= k < |s| ==> drop(s[k]);
      assert a == b;
    } else {
      assert s[|p|] == m[0];
      assert s[|p| + |m| - 1] == m[|m| - 1];
      assert a <= |p|;
      assert |p| + |m| <= b;
      assert a == |p|;
      assert b == |p| + |m|;
      assert s[a..b] == m;
    }
  }

  /** Trimming twice is trimming once. */
  lemma TrimIdempotent(s: string)
    ensures Trim(Trim(s)) == Trim(s)
  {
    var ab := TrimBounds(s, IsWhiteSpace);
    var m := Trim(s);
    assert m == s[ab.0..ab.1];
    assert IsTrimmed(m, IsWhiteSpace);
    assert m == [] + m + [];
    TrimByCharacterization(m, [], m, [], IsWhiteSpace);
  }

  /** The per-character upper-case mapping `StringComparer.OrdinalIgnoreCase`
      compares with, restricted to ASCII letters. */
  function ToUpperAscii(c: char): char {
    if 'a' <= c <= 'z' then (c as int - ('a' as int - 'A' as int)) as char else c
  }

  /** `char.ToLowerInvariant`, restricted to ASCII letters. */
  function ToLowerAscii(c: char): char {
    if 'A' <= c <= 'Z' then (c as int + ('a' as int - 'A' as int)) as char else c
  }

  /** The case-folded form two strings share exactly when
      `StringComparer.OrdinalIgnoreCase` calls them equal. */
  function FoldCase(s: string): (r: string)
    ensures |r| == |s|
    ensures forall i :: 0 <= i < |s| ==> r[i] == ToUpperAscii(s[i])
  {
    seq(|s|, i requires 0 <= i < |s| => ToUpperAscii(s[i]))
  }

  /** `string.ToLowerInvariant()`. */
  function ToLowerInvariant(s: string): (r: string)
    ensures |r| == |s|
    ensures forall i :: 0 <= i < |s| ==> r[i] == ToLowerAscii(s[i])
  {
    seq(|s|, i requires 0 <= i < |s| => ToLowerAscii(s[i]))
  }

  predicate EqualsIgnoreCase(a: string, b: string) {
    FoldCase(a) == FoldCase(b)
  }

  /** Folding is idempotent, so a folded key folds to itself. */
  lemma FoldCaseIdempotent(s: string)
    ensures FoldCase(FoldCase(s)) == FoldCase(s)
  {
  }

  lemma FoldCaseConcat(a: string, b: string)
    ensures FoldCase(a + b) == FoldCase(a) + FoldCase(b)
  {
  }

  /** Upper-casing an ASCII letter never turns it into white space or NUL,
      and never turns anything else into one either. */
  lemma UpperKeepsWhiteSpaceOrNul(c: char)
    ensures IsWhiteSpaceOrNul(ToUpperAscii(c)) == IsWhiteSpaceOrNul(c)
  {
  }

  /** Folding keeps a run of white space and NUL characters such a run. */
  lemma FoldKeepsDropped(p: string)
    requires AllDropped(p, IsWhiteSpaceOrNul)
    ensures AllDropped(FoldCase(p), IsWhiteSpaceOrNul)
  {
    forall k | 0 <= k < |p|
      ensures IsWhiteSpaceOrNul(FoldCase(p)[k])
    {
      UpperKeepsWhiteSpaceOrNul(p[k]);
    }
  }

  lemma FoldedTrimBounds(s: string, a: nat, b: nat)
    requires a <= b <= |s|
    requires AllDropped(s[..a], IsWhiteSpaceOrNul) && AllDropped(s[b..], IsWhiteSpaceOrNul)
    requires IsTrimmed(s[a..b], IsWhiteSpaceOrNul)
    ensures TrimBy(FoldCase(s), IsWhiteSpaceOrNul) == FoldCase(s[a..b])
  {
    var p, m, q := s[..a], s[a..b], s[b..];
    assert s == p + m + q;
    FoldCaseConcat(p, m);
    FoldCaseConcat(p + m, q);
    FoldKeepsDropped(p);
    FoldKeepsDropped(q);
    if 0 < |m| {
      UpperKeepsWhiteSpaceOrNul(m[0]);
      UpperKeepsWhiteSpaceOrNul(m[|m| - 1]);
    }
    TrimByCharacterization(FoldCase(s), FoldCase(p), FoldCase(m), FoldCase(q), IsWhiteSpaceOrNul);
  }

  /** Case folding commutes with the trim of `bool.TryParse`. */
  lemma TrimWhiteSpaceAndNulFold(s: string)
    ensures TrimWhiteSpaceAndNul(FoldCase(s)) == FoldCase(TrimWhiteSpaceAndNul(s))
  {
    var ab := TrimBounds(s, IsWhiteSpaceOrNul);
    FoldedTrimBounds(s, ab.0, ab.1);
  }
}
