/** Character classes, substring search and concatenation shared by every
    stage of the markdown stripper. */
module Strings {

  /** Kotlin's nullable values (`String?`, `LineLabels?`). */
  datatype Option<T> = None | Some(value: T)

  /** Java's `\s` without Unicode classes: space, `\t`, `\n`, `\x0B`, `\f`, `\r`
      (the last five are the contiguous code points 9 to 13). */
  predicate IsSpace(c: char) {
    c == ' ' || '\t' <= c <= '\r'
  }

  /** `isBlankLine` and `regexBLANK`, `^\s*$` (mdstrip.kt lines 10-13 and
      86): the line is empty or whitespace only. */
  predicate IsBlank(s: string) {
    forall i :: 0 <= i < |s| ==> IsSpace(s[i])
  }

  /** `[!-~]` (mdstrip.kt line 111): a printable, non-space ASCII character. */
  predicate IsHalfWidth(c: char) {
    '!' <= c <= '~'
  }

  /** `pat` occurs in `s` starting at index `i`. */
  predicate OccursAt(s: string, pat: string, i: int) {
    0 <= i && i + |pat| <= |s| && s[i..i + |pat|] == pat
  }

  predicate Contains(s: string, pat: string) {
    exists i :: 0 <= i <= |s| && OccursAt(s, pat, i)
  }

  /** `i` is the leftmost occurrence of `pat` in `s`. */
  predicate FirstAt(s: string, pat: string, i: int) {
    OccursAt(s, pat, i) && forall k :: 0 <= k < i ==> !OccursAt(s, pat, k)
  }

  /** The leftmost occurrence of `pat` in `s` at or after `from`. */
  function FindFrom(s: string, pat: string, from: nat): (r: Option<nat>)
    ensures r.Some? ==> from <= r.value && OccursAt(s, pat, r.value)
    ensures r.Some? ==> forall k :: from <= k < r.value ==> !OccursAt(s, pat, k)
    ensures r.None? ==> forall k :: from <= k ==> !OccursAt(s, pat, k)
    decreases |s| - from
  {
    if from + |pat| > |s| then None
    else if s[from..from + |pat|] == pat then Some(from)
    else FindFrom(s, pat, from + 1)
  }

  /** Occurrences in a suffix are occurrences in the whole string, shifted. */
  lemma OccursInSuffix(s: string, pat: string, d: nat, i: nat)
    requires d <= |s|
    ensures OccursAt(s[d..], pat, i) <==> OccursAt(s, pat, i + d)
  {
    if 0 <= i && i + |pat| <= |s| - d {
      assert s[d..][i..i + |pat|] == s[i + d..i + d + |pat|];
    }
  }

  /** Occurrences that end inside a prefix are occurrences in the whole string. */
  lemma OccursInPrefix(s: string, pat: string, m: nat, i: int)
    requires m <= |s|
    requires i + |pat| <= m
    ensures OccursAt(s[..m], pat, i) <==> OccursAt(s, pat, i)
  {
    if 0 <= i {
      assert s[..m][i..i + |pat|] == s[i..i + |pat|];
    }
  }

  /** Concatenation is associative, stated once for reuse in proofs. */
  lemma AppendAssoc<T>(a: seq<T>, b: seq<T>, c: seq<T>)
    ensures a + (b + c) == (a + b) + c
  {
  }

  /** A suffix of a string without `pat` is without `pat`. */
  lemma NoneInSuffix(s: string, pat: string, d: nat)
    requires d <= |s| && !Contains(s, pat)
    ensures !Contains(s[d..], pat)
  {
    forall i | 0 <= i <= |s[d..]|
      ensures !OccursAt(s[d..], pat, i)
    {
      OccursInSuffix(s, pat, d, i);
    }
  }

  lemma ShorterHasNone(s: string, pat: string)
    requires |s| < |pat|
    ensures !Contains(s, pat)
  {
  }

  /** The source's `print` of every produced string, with no separator. */
  function Flatten(ss: seq<string>): (r: string)
    ensures |ss| > 0 && |ss[0]| > 0 ==> |r| > 0 && r[0] == ss[0][0]
    ensures |ss| > 0 && |ss[|ss| - 1]| > 0 ==> |r| > 0 && r[|r| - 1] == ss[|ss| - 1][|ss[|ss| - 1]| - 1]
  {
    if |ss| == 0 then "" else ss[0] + Flatten(ss[1..])
  }

  lemma FlattenPair(a: string, b: string)
    ensures Flatten([a, b]) == a + b
  {
    assert [a, b][1..] == [b];
    assert [b][1..] == [];
    assert Flatten([b]) == b + Flatten([]) == b;
    assert Flatten([a, b]) == a + Flatten([b]);
  }
}
