/** String helpers the app relies on: `String.prototype.trim`,
    `toLowerCase` (ASCII letters only) and `includes`. */
module Text {

  /** A code point that `String.prototype.trim` strips: ECMAScript's
      WhiteSpace (tab, vertical tab, form feed, the byte order mark and every
      space separator of category Zs) and LineTerminator. */
  predicate IsWhitespace(c: char) {
    || c == '\t' || c == '\U{000B}' || c == '\U{000C}' || c == '\U{FEFF}'
    || c == ' ' || c == '\U{00A0}' || c == '\U{1680}'
    || ('\U{2000}' <= c <= '\U{200A}')
    || c == '\U{202F}' || c == '\U{205F}' || c == '\U{3000}'
    || c == '\n' || c == '\r' || c == '\U{2028}' || c == '\U{2029}'
  }

  predicate AllWhitespace(s: string) {
    forall i :: 0 <= i < |s| ==> IsWhitespace(s[i])
  }

  /** Drops leading white space: the result is a suffix of `s`, everything
      dropped was white space, and the result does not start with white space. */
  function TrimStart(s: string): (r: string)
    ensures |r| <= |s| && r == s[|s| - |r|..]
    ensures forall i :: 0 <= i < |s| - |r| ==> IsWhitespace(s[i])
    ensures r == [] || !IsWhitespace(r[0])
  {
    if s != [] && IsWhitespace(s[0]) then TrimStart(s[1..]) else s
  }

  /** Drops trailing white space: the result is a prefix of `s`, everything
      dropped was white space, and the result does not end with white space. */
  function TrimEnd(s: string): (r: string)
    ensures |r| <= |s| && r == s[..|r|]
    ensures forall i :: |r| <= i < |s| ==> IsWhitespace(s[i])
    ensures r == [] || !IsWhitespace(r[|r| - 1])
  {
    if s != [] && IsWhitespace(s[|s| - 1]) then TrimEnd(s[..|s| - 1]) else s
  }

  /** `r` sits at position `k` of `s` with nothing but white space before
      and after it. */
  predicate Flanked(s: string, r: string, k: int) {
    OccursAt(s, r, k) && AllWhitespace(s[..k]) && AllWhitespace(s[k + |r|..])
  }

  /** `s.trim()`: `s` with its leading and trailing white space removed, so
      the slice of `s` that neither starts nor ends with white space and has
      only white space around it. It is empty exactly when `s` is all white
      space. */
  function Trim(s: string): (r: string)
    ensures Contains(s, r)
    ensures exists k :: Flanked(s, r, k)
    ensures r != [] ==> !IsWhitespace(r[0]) && !IsWhitespace(r[|r| - 1])
    ensures r == [] <==> AllWhitespace(s)
  {
    TrimSlices(s);
    TrimEnd(TrimStart(s))
  }

  lemma TrimSlices(s: string)
    ensures var a := TrimStart(s); var r := TrimEnd(a);
      && Contains(s, r)
      && Flanked(s, r, |s| - |a|)
      && (r == [] <==> AllWhitespace(s))
      && (r != [] ==> !IsWhitespace(r[0]))
  {
    var a := TrimStart(s);
    var r := TrimEnd(a);
    TrimOccurs(s);
    if r == [] {
      assert a == [];
    } else {
      assert r[0] == a[0];
    }
  }

  lemma TrimOccurs(s: string)
    ensures var a := TrimStart(s); var r := TrimEnd(a);
      Contains(s, r) && Flanked(s, r, |s| - |a|)
  {
    var a := TrimStart(s);
    var r := TrimEnd(a);
    var k := |s| - |a|;
    assert s[k..][..|r|] == s[k..k + |r|];
    assert OccursAt(s, r, k);
    assert AllWhitespace(s[..k]) by {
      assert forall i :: 0 <= i < k ==> s[..k][i] == s[i];
    }
    assert s[k + |r|..] == a[|r|..];
  }

  /** Only one slice of `s` fits the description of the trimmed string: one
      with only white space around it, whose ends are not white space, and
      that is empty only when `s` is all white space. */
  lemma TrimIsUnique(s: string, r: string, k: int)
    requires Flanked(s, r, k)
    requires r != [] ==> !IsWhitespace(r[0]) && !IsWhitespace(r[|r| - 1])
    requires r == [] ==> AllWhitespace(s)
    ensures r == Trim(s)
  {
    var t := Trim(s);
    if r != [] {
      var j :| Flanked(s, t, j);
      assert s[k] == r[0];
      FlankedSame(s, r, k, t, j);
    }
  }

  /** Two flanked slices that are not empty and neither start nor end with
      white space are the same slice. */
  lemma FlankedSame(s: string, r: string, k: int, t: string, j: int)
    requires Flanked(s, r, k) && Flanked(s, t, j) && r != [] && t != []
    requires !IsWhitespace(r[0]) && !IsWhitespace(r[|r| - 1])
    requires !IsWhitespace(t[0]) && !IsWhitespace(t[|t| - 1])
    ensures r == t
  {
    FlankedStart(s, r, k, t, j);
    FlankedStart(s, t, j, r, k);
    FlankedEnd(s, r, k, t, j);
    FlankedEnd(s, t, j, r, k);
    assert r == s[k..k + |r|];
  }

  /** A flanked slice starts no later than any other flanked slice that is
      not empty and does not start with white space. */
  lemma FlankedStart(s: string, r: string, k: int, t: string, j: int)
    requires Flanked(s, r, k) && Flanked(s, t, j) && t != []
    requires !IsWhitespace(t[0])
    ensures k <= j
  {
    PrefixWhitespace(s, k);
    assert s[j] == t[0];
  }

  /** A flanked slice ends no earlier than any other flanked slice that is
      not empty and does not end with white space. */
  lemma FlankedEnd(s: string, r: string, k: int, t: string, j: int)
    requires Flanked(s, r, k) && Flanked(s, t, j) && t != []
    requires !IsWhitespace(t[|t| - 1])
    ensures j + |t| <= k + |r|
  {
    SuffixWhitespace(s, k + |r|);
    assert s[j + |t| - 1] == t[|t| - 1];
  }

  lemma PrefixWhitespace(s: string, k: int)
    requires 0 <= k <= |s| && AllWhitespace(s[..k])
    ensures forall i :: 0 <= i < k ==> IsWhitespace(s[i])
  {
    assert forall i :: 0 <= i < k ==> s[..k][i] == s[i];
  }

  lemma SuffixWhitespace(s: string, k: int)
    requires 0 <= k <= |s| && AllWhitespace(s[k..])
    ensures forall i :: k <= i < |s| ==> IsWhitespace(s[i])
  {
    assert forall i :: k <= i < |s| ==> s[k..][i - k] == s[i];
  }

  /** ASCII lower-casing of one character; every other character is kept. */
  function LowerChar(c: char): char {
    if 'A' <= c <= 'Z' then (c as int + 32) as char else c
  }

  predicate IsUpper(c: char) {
    'A' <= c <= 'Z'
  }

  /** `s.toLowerCase()` restricted to ASCII letters. */
  function Lower(s: string): (r: string)
    ensures |r| == |s|
    ensures forall i :: 0 <= i < |s| ==> !IsUpper(r[i])
    ensures forall i :: 0 <= i < |s| && !IsUpper(s[i]) ==> r[i] == s[i]
    ensures forall i :: 0 <= i < |s| && IsUpper(s[i]) ==>
      r[i] as int == s[i] as int + ('a' as int - 'A' as int)
  {
    seq(|s|, i requires 0 <= i < |s| => LowerChar(s[i]))
  }

  /** Lower-casing is idempotent. */
  lemma LowerIdempotent(s: string)
    ensures Lower(Lower(s)) == Lower(s)
  {
  }

  /** Lower-casing commutes with taking a slice. */
  lemma LowerSlice(s: string, i: int, j: int)
    requires 0 <= i <= j <= |s|
    ensures Lower(s)[i..j] == Lower(s[i..j])
  {
  }

  /** `needle` occurs in `hay` starting at position `i`. */
  predicate OccursAt(hay: string, needle: string, i: int) {
    0 <= i && i + |needle| <= |hay| && hay[i..i + |needle|] == needle
  }

  /** `hay.includes(needle)`. */
  predicate Contains(hay: string, needle: string) {
    exists i :: 0 <= i <= |hay| - |needle| && OccursAt(hay, needle, i)
  }

  /** The empty string occurs in every string. */
  lemma ContainsEmpty(hay: string)
    ensures Contains(hay, [])
  {
    assert OccursAt(hay, [], 0);
  }

  /** A substring of a substring is a substring. */
  lemma ContainsTransitive(a: string, b: string, c: string)
    requires Contains(c, b) && Contains(b, a)
    ensures Contains(c, a)
  {
    var i :| 0 <= i <= |c| - |b| && OccursAt(c, b, i);
    var j :| 0 <= j <= |b| - |a| && OccursAt(b, a, j);
    forall k | 0 <= k < |a|
      ensures c[i + j + k] == a[k]
    {
      assert a[k] == b[j..j + |a|][k] == b[j + k];
      assert b[j + k] == c[i..i + |b|][j + k];
    }
    assert c[i + j..i + j + |a|] == a;
    assert OccursAt(c, a, i + j);
  }

  /** Lower-casing both strings keeps an occurrence where it is. */
  lemma LowerKeepsOccurrence(hay: string, needle: string)
    requires Contains(hay, needle)
    ensures Contains(Lower(hay), Lower(needle))
  {
    var i :| 0 <= i <= |hay| - |needle| && OccursAt(hay, needle, i);
    LowerSlice(hay, i, i + |needle|);
    assert OccursAt(Lower(hay), Lower(needle), i);
  }
}
