/**
 * First-occurrence search and replacement over strings, the two forms the
 * server relies on: `String.prototype.replace` with a string pattern
 * (case-sensitive, first occurrence only) and with the literal regular
 * expression `/(<\/head>)/i` (ASCII case-insensitive, first occurrence only).
 */
module Text {
  import opened Wrappers

  /** ASCII lower-casing; every other character folds to itself. */
  function Lower(c: char): char {
    if 'A' <= c <= 'Z' then (c as int + 32) as char else c
  }

  predicate SameChar(a: char, b: char, ignoreCase: bool) {
    if ignoreCase then Lower(a) == Lower(b) else a == b
  }

  /** `pat` occurs in `s` starting at index `i`. */
  predicate MatchesAt(s: string, pat: string, i: int, ignoreCase: bool) {
    0 <= i && i + |pat| <= |s| &&
    forall k :: 0 <= k < |pat| ==> SameChar(s[i + k], pat[k], ignoreCase)
  }

  predicate Occurs(s: string, pat: string, ignoreCase: bool) {
    exists i :: 0 <= i <= |s| && MatchesAt(s, pat, i, ignoreCase)
  }

  /** `i` is the leftmost occurrence of `pat` in `s`. */
  predicate IsFirstMatch(s: string, pat: string, i: int, ignoreCase: bool) {
    MatchesAt(s, pat, i, ignoreCase) &&
    forall j :: 0 <= j < i ==> !MatchesAt(s, pat, j, ignoreCase)
  }

  /** The leftmost occurrence of `pat` at or after `from`, scanning left to right. */
  function FindFrom(s: string, pat: string, from: nat, ignoreCase: bool): (r: Option<nat>)
    decreases |s| - from
    ensures r.Some? ==> from <= r.value && MatchesAt(s, pat, r.value, ignoreCase)
    ensures r.Some? ==> forall j :: from <= j < r.value ==> !MatchesAt(s, pat, j, ignoreCase)
    ensures r.None? ==> forall j :: from <= j ==> !MatchesAt(s, pat, j, ignoreCase)
  {
    if from + |pat| > |s| then None
    else if MatchesAt(s, pat, from, ignoreCase) then Some(from)
    else FindFrom(s, pat, from + 1, ignoreCase)
  }

  /** The index JavaScript's `indexOf` (or a regex search for a literal) reports. */
  function FindFirst(s: string, pat: string, ignoreCase: bool): (r: Option<nat>)
    ensures r.Some? <==> Occurs(s, pat, ignoreCase)
    ensures r.Some? ==> IsFirstMatch(s, pat, r.value, ignoreCase)
  {
    FindFrom(s, pat, 0, ignoreCase)
  }

  /**
   * Replace the first occurrence of `pat` in `s` by `rep`; with no occurrence
   * the string is returned as it is. The replacement text is inserted literally.
   */
  function ReplaceFirst(s: string, pat: string, rep: string, ignoreCase: bool): (r: string)
    ensures !Occurs(s, pat, ignoreCase) ==> r == s
    ensures Occurs(s, pat, ignoreCase) ==> |r| == |s| - |pat| + |rep|
    ensures forall i :: IsFirstMatch(s, pat, i, ignoreCase) ==>
              r == s[..i] + rep + s[i + |pat|..]
  {
    match FindFirst(s, pat, ignoreCase)
    case None => s
    case Some(i) => s[..i] + rep + s[i + |pat|..]
  }

  /** Replacing the first exact occurrence of `pat` by `pat` itself changes nothing. */
  lemma ReplaceFirstWithItself(s: string, pat: string)
    ensures ReplaceFirst(s, pat, pat, false) == s
  {
  }

  /**
   * An occurrence that starts after the end of the first one survives the
   * replacement unchanged, shifted by the difference in length.
   */
  lemma LaterMatchKept(s: string, pat: string, rep: string, ignoreCase: bool, i: int, j: int)
    requires IsFirstMatch(s, pat, i, ignoreCase)
    requires MatchesAt(s, pat, j, ignoreCase) && i + |pat| <= j
    ensures var d := |rep| - |pat|;
            && MatchesAt(ReplaceFirst(s, pat, rep, ignoreCase), pat, j + d, ignoreCase)
            && ReplaceFirst(s, pat, rep, ignoreCase)[j + d..j + d + |pat|] == s[j..j + |pat|]
  {
    var tail := s[i + |pat|..];
    assert ReplaceFirst(s, pat, rep, ignoreCase)[i + |rep|..] == tail;
  }

  /** The text JavaScript's `+` produces for a value that is a string or `undefined`. */
  function JsText(v: Option<string>): string {
    match v
    case Some(s) => s
    case None => "undefined"
  }
}
