/**
 * The string operations of the .NET base library that the helpers rely on,
 * over strings as sequences of characters: prefix and substring tests,
 * trimming and invariant upper-casing.
 */
module Text {

  /** string.StartsWith, compared character by character. */
  predicate StartsWith(s: string, prefix: string): (b: bool)
    ensures b <==> |prefix| <= |s| && forall k :: 0 <= k < |prefix| ==> s[k] == prefix[k]
  {
    |prefix| <= |s| && s[..|prefix|] == prefix
  }

  /** sub occurs in s at position k. */
  predicate OccursAt(s: string, sub: string, k: nat) {
    k + |sub| <= |s| && forall m :: 0 <= m < |sub| ==> s[k + m] == sub[m]
  }

  /** string.Contains: sub occurs at some position of s. */
  predicate Contains(s: string, sub: string): (b: bool)
    ensures b <==> exists k: nat :: OccursAt(s, sub, k)
    decreases |s|
  {
    if StartsWith(s, sub) then
      assert OccursAt(s, sub, 0);
      true
    else if |s| > 0 && Contains(s[1..], sub) then
      var k: nat :| OccursAt(s[1..], sub, k);
      assert OccursAt(s, sub, k + 1);
      true
    else
      assert forall k: nat :: OccursAt(s, sub, k) && k > 0 ==> OccursAt(s[1..], sub, k - 1);
      false
  }

  /**
   * char.IsWhiteSpace: the Unicode space, line and paragraph separators, U+0009 to U+000D and U+0085.
   * No character an address or a port number is written with is white space.
   */
  predicate IsWhiteSpace(c: char): (w: bool)
    ensures w ==> !('0' <= c <= '9') && !('a' <= c <= 'z') && !('A' <= c <= 'Z') && c != '.' && c != ':'
  {
    || '\t' <= c <= '\r'
    || c == ' ' || c == '\U{0085}' || c == '\U{00A0}' || c == '\U{1680}'
    || '\U{2000}' <= c <= '\U{200A}'
    || c == '\U{2028}' || c == '\U{2029}' || c == '\U{202F}' || c == '\U{205F}' || c == '\U{3000}'
  }

  /** s without the leading characters for which white holds. */
  function TrimStart(s: string, white: char -> bool): (r: string)
    ensures |r| <= |s| && r == s[|s| - |r|..]
    ensures r == [] || !white(r[0])
    ensures forall k :: 0 <= k < |s| - |r| ==> white(s[k])
    decreases |s|
  {
    if s != [] && white(s[0]) then TrimStart(s[1..], white) else s
  }

  /** s without the trailing characters for which white holds. */
  function TrimEnd(s: string, white: char -> bool): (r: string)
    ensures |r| <= |s| && r == s[..|r|]
    ensures r == [] || !white(r[|r| - 1])
    ensures forall k :: |r| <= k < |s| ==> white(s[k])
    decreases |s|
  {
    if s != [] && white(s[|s| - 1]) then TrimEnd(s[..|s| - 1], white) else s
  }

  /** string.Trim: s without leading and trailing white space. */
  function Trim(s: string): (r: string)
    ensures r == [] || (!IsWhiteSpace(r[0]) && !IsWhiteSpace(r[|r| - 1]))
  {
    TrimEnd(TrimStart(s, IsWhiteSpace), IsWhiteSpace)
  }

  /** Trim removes white space at the ends and nothing else: the result is a slice of s between white space. */
  lemma TrimSlice(s: string) returns (i: nat)
    ensures i + |Trim(s)| <= |s| && Trim(s) == s[i..i + |Trim(s)|]
    ensures forall k :: 0 <= k < i ==> IsWhiteSpace(s[k])
    ensures forall k :: i + |Trim(s)| <= k < |s| ==> IsWhiteSpace(s[k])
  {
    var u := TrimStart(s, IsWhiteSpace);
    i := |s| - |u|;
    assert Trim(s) == u[..|Trim(s)|];
    forall k | i + |Trim(s)| <= k < |s|
      ensures IsWhiteSpace(s[k])
    {
      assert s[k] == u[k - i];
    }
  }

  /** A string with no white space at either end is its own trim; in particular Trim is idempotent. */
  lemma TrimOfTrimmed(s: string)
    requires s == [] || (!IsWhiteSpace(s[0]) && !IsWhiteSpace(s[|s| - 1]))
    ensures Trim(s) == s
  {
  }

  /** One trailing blank after a string with no white space at either end is all that Trim removes. */
  lemma TrimDropsTrailingBlank(s: string)
    requires s != [] && !IsWhiteSpace(s[0]) && !IsWhiteSpace(s[|s| - 1])
    ensures Trim(s + " ") == s
  {
    assert TrimStart(s + " ", IsWhiteSpace) == s + " ";
    assert (s + " ")[..|s|] == s;
  }

  /** Invariant upper-casing of one character; only ASCII letters are mapped. */
  function UpperChar(c: char): char {
    if 'a' <= c <= 'z' then (c as int - 32) as char else c
  }

  /** string.ToUpper, character by character. */
  function ToUpper(s: string): (r: string)
    ensures |r| == |s| && forall k :: 0 <= k < |s| ==> r[k] == UpperChar(s[k])
  {
    if s == [] then [] else [UpperChar(s[0])] + ToUpper(s[1..])
  }
}
