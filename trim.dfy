/**
 * `strings.TrimSpace`: drop the leading and the trailing run of white space.
 *
 * As Go does, trimming finds the first character that is not white space,
 * then, from the end, the last one, and slices between them. Go classifies
 * white space with `unicode.IsSpace`; here the classifier is a parameter
 * `isSpace`, and every fact below holds for any classifier.
 */
module Trim {

  /** All characters of `s` are white space. */
  predicate AllSpace(s: string, isSpace: char -> bool)
  {
    forall k :: 0 <= k < |s| ==> isSpace(s[k])
  }

  /** The characters of `s` from `lo` up to (not including) `hi` are white space. */
  predicate SpaceRun(s: string, lo: int, hi: int, isSpace: char -> bool)
    requires 0 <= lo <= hi <= |s|
  {
    forall k :: lo <= k < hi ==> isSpace(s[k])
  }

  /** `s` neither starts nor ends with white space. */
  predicate Trimmed(s: string, isSpace: char -> bool)
  {
    s == [] || (!isSpace(s[0]) && !isSpace(s[|s| - 1]))
  }

  /** The first index at or after `i` whose character is not white space, or `|s|` when there is none. */
  function SkipSpaces(s: string, i: nat, isSpace: char -> bool): (j: nat)
    requires i <= |s|
    ensures i <= j <= |s| && SpaceRun(s, i, j, isSpace)
    ensures j < |s| ==> !isSpace(s[j])
    decreases |s| - i
  {
    if i < |s| && isSpace(s[i]) then SkipSpaces(s, i + 1, isSpace) else i
  }

  /** The end of `s[lo..hi]` once its trailing white space is dropped. */
  function BackSpaces(s: string, lo: nat, hi: nat, isSpace: char -> bool): (j: nat)
    requires lo <= hi <= |s|
    ensures lo <= j <= hi && SpaceRun(s, j, hi, isSpace)
    ensures j > lo ==> !isSpace(s[j - 1])
  {
    if hi > lo && isSpace(s[hi - 1]) then BackSpaces(s, lo, hi - 1, isSpace) else hi
  }

  /**
   * The infix of `s` that starts after its leading white space (at offset
   * `i`) and ends before its trailing white space; it is empty exactly when
   * `s` is all white space.
   */
  function TrimSpace(s: string, isSpace: char -> bool): (r: string)
    ensures Trimmed(r, isSpace)
    ensures var i := SkipSpaces(s, 0, isSpace);
      && i + |r| <= |s|
      && r == s[i..i + |r|]
      && SpaceRun(s, 0, i, isSpace)
      && SpaceRun(s, i + |r|, |s|, isSpace)
    ensures r == [] <==> AllSpace(s, isSpace)
  {
    var i := SkipSpaces(s, 0, isSpace);
    var j := BackSpaces(s, i, |s|, isSpace);
    assert i < j ==> s[i..j][0] == s[i];
    s[i..j]
  }

  /** SkipSpaces is the only index with its two properties. */
  lemma SkipSpacesUnique(s: string, i: nat, j: nat, isSpace: char -> bool)
    requires i <= j <= |s| && SpaceRun(s, i, j, isSpace)
    requires j < |s| ==> !isSpace(s[j])
    ensures SkipSpaces(s, i, isSpace) == j
  {
  }

  /** BackSpaces is the only index with its two properties. */
  lemma BackSpacesUnique(s: string, lo: nat, hi: nat, j: nat, isSpace: char -> bool)
    requires lo <= j <= hi <= |s| && SpaceRun(s, j, hi, isSpace)
    requires j > lo ==> !isSpace(s[j - 1])
    ensures BackSpaces(s, lo, hi, isSpace) == j
  {
  }

  /**
   * The converse of TrimSpace's contract: whatever surrounds a trimmed string
   * with white space, TrimSpace recovers exactly that string.
   */
  lemma TrimSpaceOfPadded(a: string, m: string, b: string, isSpace: char -> bool)
    requires AllSpace(a, isSpace) && AllSpace(b, isSpace)
    requires Trimmed(m, isSpace)
    ensures TrimSpace(a + m + b, isSpace) == m
  {
    var s := a + m + b;
    if m == [] {
      assert forall k :: 0 <= k < |s| ==> s[k] == if k < |a| then a[k] else b[k - |a|];
    } else {
      assert forall k :: 0 <= k < |a| ==> s[k] == a[k];
      assert forall k :: |a| + |m| <= k < |s| ==> s[k] == b[k - |a| - |m|];
      assert s[|a|] == m[0] && s[|a| + |m| - 1] == m[|m| - 1];
      SkipSpacesUnique(s, 0, |a|, isSpace);
      BackSpacesUnique(s, |a|, |s|, |a| + |m|, isSpace);
      assert s[|a|..|a| + |m|] == m;
    }
  }

  /** Trimming twice is trimming once. */
  lemma TrimSpaceIdempotent(s: string, isSpace: char -> bool)
    ensures TrimSpace(TrimSpace(s, isSpace), isSpace) == TrimSpace(s, isSpace)
  {
    var m := TrimSpace(s, isSpace);
    assert [] + m + [] == m;
    TrimSpaceOfPadded([], m, [], isSpace);
  }
}
