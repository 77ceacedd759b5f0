/**
 * The .NET string operations the core relies on, stated over `seq<char>`:
 * ordinal prefix and substring tests, `Replace(pattern, "")` and `Trim`.
 */
module Strings {

  /** `s.StartsWith(p)` with ordinal comparison (also XPath `starts-with`). */
  predicate StartsWith(s: string, p: string) {
    |p| <= |s| && s[..|p|] == p
  }

  /** `s.Contains(p)` with ordinal comparison (also XPath `contains`). */
  predicate Contains(s: string, p: string)
    decreases |s|
  {
    StartsWith(s, p) || (s != [] && Contains(s[1..], p))
  }

  /** A pattern cannot occur in a string that lacks the pattern's first character. */
  lemma {:induction false} NotContainsWithoutFirstChar(s: string, p: string)
    requires p != []
    ensures p[0] !in s ==> !Contains(s, p)
    decreases |s|
  {
    if s != [] && p[0] !in s {
      assert s[0] in s;
      NotContainsWithoutFirstChar(s[1..], p);
    }
  }

  /**
   * `s.Replace(p, "")`: scans left to right and drops every occurrence of `p`
   * that does not overlap an occurrence already dropped.
   */
  function RemoveAll(s: string, p: string): (r: string)
    requires p != []
    ensures |r| <= |s|
    ensures forall c :: c in r ==> c in s
    decreases |s|
  {
    if |s| < |p| then s
    else if s[..|p|] == p then RemoveAll(s[|p|..], p)
    else [s[0]] + RemoveAll(s[1..], p)
  }

  /** `Replace` changes its input exactly when the pattern occurs in it, and then it shortens it. */
  lemma {:induction false} RemoveAllChangesIff(s: string, p: string)
    requires p != []
    ensures !Contains(s, p) ==> RemoveAll(s, p) == s
    ensures Contains(s, p) ==> |RemoveAll(s, p)| < |s|
    decreases |s|
  {
    if |s| < |p| {
      NotContainsShort(s, p);
    } else if s[..|p|] == p {
      assert StartsWith(s, p);
    } else {
      assert !StartsWith(s, p);
      RemoveAllChangesIff(s[1..], p);
      if !Contains(s, p) {
        assert [s[0]] + s[1..] == s;
      }
    }
  }

  /** A pattern longer than the string does not occur in it. */
  lemma {:induction false} NotContainsShort(s: string, p: string)
    requires |s| < |p|
    ensures !Contains(s, p)
    decreases |s|
  {
    if s != [] {
      NotContainsShort(s[1..], p);
    }
  }

  /**
   * The characters that .NET's `char.IsWhiteSpace` accepts (what `Trim()`
   * removes): the Unicode space, line and paragraph separators and the
   * controls U+0009 to U+000D, U+0085.
   */
  predicate IsWhiteSpace(c: char) {
    ('\U{9}' <= c <= '\U{D}') || c == ' ' || c == '\U{85}' || c == '\U{A0}' ||
    c == '\U{1680}' || ('\U{2000}' <= c <= '\U{200A}') || c == '\U{2028}' ||
    c == '\U{2029}' || c == '\U{202F}' || c == '\U{205F}' || c == '\U{3000}'
  }

  /**
   * `t[i..j]` is what is left of `t` once the leading and the trailing run of
   * `drop` characters are cut off, and no more than that.
   */
  ghost predicate TrimBounds(t: string, drop: char -> bool, i: int, j: int) {
    && 0 <= i <= j <= |t|
    && (forall k :: 0 <= k < i ==> drop(t[k]))
    && (forall k :: j <= k < |t| ==> drop(t[k]))
    && (i < j ==> !drop(t[i]) && !drop(t[j - 1]))
  }

  /** `s` is `t` trimmed of `drop` characters at both ends. */
  ghost predicate IsTrimOf(s: string, t: string, drop: char -> bool) {
    exists i, j :: TrimBounds(t, drop, i, j) && s == t[i..j]
  }

  /** Where the trimmed part starts: the first index from `i` on that holds no `drop` character. */
  function TrimStartIndex(t: string, drop: char -> bool, i: nat): (start: nat)
    requires i <= |t|
    ensures i <= start <= |t|
    ensures forall k :: i <= k < start ==> drop(t[k])
    ensures start < |t| ==> !drop(t[start])
    decreases |t| - i
  {
    if i < |t| && drop(t[i]) then TrimStartIndex(t, drop, i + 1) else i
  }

  /** Where the trimmed part ends: the last index down to `start` after a character that is kept. */
  function TrimEndIndex(t: string, drop: char -> bool, start: nat, j: nat): (end: nat)
    requires start <= j <= |t|
    ensures start <= end <= j
    ensures forall k :: end <= k < j ==> drop(t[k])
    ensures start < end ==> !drop(t[end - 1])
    decreases j
  {
    if start < j && drop(t[j - 1]) then TrimEndIndex(t, drop, start, j - 1) else j
  }

  /** `Trim(chars)`: drops the leading and the trailing run of `drop` characters. */
  function Trim(t: string, drop: char -> bool): (s: string)
    ensures IsTrimOf(s, t, drop)
  {
    var i := TrimStartIndex(t, drop, 0);
    var j := TrimEndIndex(t, drop, i, |t|);
    assert TrimBounds(t, drop, i, j);
    t[i..j]
  }

  /** Two trims of the same string select the same characters. */
  lemma TrimBoundsUnique(t: string, drop: char -> bool, i: int, j: int, i': int, j': int)
    requires TrimBounds(t, drop, i, j) && TrimBounds(t, drop, i', j')
    ensures t[i..j] == t[i'..j']
  {
  }

  /** The trimmed string is determined by its input: `IsTrimOf` has exactly one solution, `Trim`'s. */
  lemma TrimUnique(s: string, t: string, drop: char -> bool)
    requires IsTrimOf(s, t, drop)
    ensures s == Trim(t, drop)
  {
  }

  /** A string that neither starts nor ends with a `drop` character is its own trim. */
  lemma TrimUntrimmed(s: string, drop: char -> bool)
    requires s == [] || (!drop(s[0]) && !drop(s[|s| - 1]))
    ensures Trim(s, drop) == s
  {
  }

  /** Trimming twice trims no more than trimming once. */
  lemma TrimIdempotent(t: string, drop: char -> bool)
    ensures Trim(Trim(t, drop), drop) == Trim(t, drop)
  {
  }

  /** `Trim()` without arguments: drops leading and trailing white space. */
  function TrimWhiteSpace(t: string): (s: string)
    ensures IsTrimOf(s, t, IsWhiteSpace)
  {
    Trim(t, IsWhiteSpace)
  }
}
