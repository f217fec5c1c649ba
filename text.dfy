/**
 * Character classes and string helpers with ECMAScript meaning: the regex
 * classes \s, \d, [A-Z], the `i` flag's case folding, String.prototype.trim,
 * includes, toLowerCase, join and split(..)[0].
 */
module Text {

  /** ECMAScript WhiteSpace and LineTerminator code points: the class `\s`,
      and exactly what `trim()` strips. */
  predicate IsSpace(c: char) {
    || c == '\t' || c == '\n' || c == '\U{B}' || c == '\U{C}' || c == '\r' || c == ' '
    || c == '\U{A0}' || c == '\U{1680}' || ('\U{2000}' <= c <= '\U{200A}')
    || c == '\U{2028}' || c == '\U{2029}' || c == '\U{202F}' || c == '\U{205F}'
    || c == '\U{3000}' || c == '\U{FEFF}'
  }

  /** The characters `.` does not match without the `s` flag. */
  predicate IsLineTerminator(c: char) {
    c == '\n' || c == '\r' || c == '\U{2028}' || c == '\U{2029}'
  }

  predicate IsDigit(c: char) { '0' <= c <= '9' }

  predicate IsUpper(c: char) { 'A' <= c <= 'Z' }

  predicate IsLetter(c: char) { IsUpper(c) || 'a' <= c <= 'z' }

  /** Case folding of the `i` flag for non-Unicode patterns: only ASCII
      letters fold (a non-ASCII character never canonicalises to ASCII). */
  function Fold(c: char): (f: char)
    ensures IsLetter(c) <==> 'a' <= f <= 'z'
  {
    if IsUpper(c) then (c as int + 32) as char else c
  }

  predicate AllSpace(s: string, i: nat, j: nat)
    requires i <= j <= |s|
  {
    forall k :: i <= k < j ==> IsSpace(s[k])
  }

  predicate AllDigit(s: string, i: nat, j: nat)
    requires i <= j <= |s|
  {
    forall k :: i <= k < j ==> IsDigit(s[k])
  }

  predicate NoNewline(s: string, i: nat, j: nat)
    requires i <= j <= |s|
  {
    forall k :: i <= k < j ==> s[k] != '\n'
  }

  predicate NoLineTerminator(s: string, i: nat, j: nat)
    requires i <= j <= |s|
  {
    forall k :: i <= k < j ==> !IsLineTerminator(s[k])
  }

  /** A non-empty string of ASCII digits. */
  predicate IsDigits(s: string) {
    |s| > 0 && forall k :: 0 <= k < |s| ==> IsDigit(s[k])
  }

  /** What `trim()` returns is always of this shape. */
  predicate IsTrimmed(s: string) {
    s == [] || (!IsSpace(s[0]) && !IsSpace(s[|s| - 1]))
  }

  /** End of the longest run of whitespace starting at `i` (greedy `\s*`). */
  function SkipSpaces(s: string, i: nat): (j: nat)
    requires i <= |s|
    ensures i <= j <= |s| && AllSpace(s, i, j)
    ensures j == |s| || !IsSpace(s[j])
    decreases |s| - i
  {
    if i < |s| && IsSpace(s[i]) then SkipSpaces(s, i + 1) else i
  }

  /** A whitespace stretch starting at `i` never reaches past SkipSpaces(s, i). */
  lemma SpacesEndBefore(s: string, i: nat, x: nat)
    requires i <= x <= |s| && AllSpace(s, i, x)
    ensures x <= SkipSpaces(s, i)
  {
  }

  /** A whitespace character inside a run of whitespace is not where the
      run ends. */
  lemma SpaceBeforeSkip(s: string, i: nat, x: nat)
    requires i <= x < |s| && AllSpace(s, i, x) && IsSpace(s[x])
    ensures x < SkipSpaces(s, i)
  {
    SpacesEndBefore(s, i, x + 1);
  }

  /** Start of the whitespace suffix of s[lo..j]. */
  function SkipSpacesBack(s: string, lo: nat, j: nat): (i: nat)
    requires lo <= j <= |s|
    ensures lo <= i <= j && AllSpace(s, i, j)
    ensures i == lo || !IsSpace(s[i - 1])
    decreases j
  {
    if j > lo && IsSpace(s[j - 1]) then SkipSpacesBack(s, lo, j - 1) else j
  }

  /** String.prototype.trim. */
  function Trim(s: string): (r: string)
    ensures IsTrimmed(r)
    ensures |r| <= |s|
    ensures forall k :: 0 <= k < |r| ==> r[k] in s
  {
    var i := SkipSpaces(s, 0);
    var j := SkipSpacesBack(s, i, |s|);
    assert forall k :: 0 <= k < j - i ==> s[i..j][k] == s[i + k];
    s[i..j]
  }

  /** Trimming keeps every character that is not leading or trailing
      whitespace, and in particular leaves a string without whitespace alone. */
  lemma TrimSpaceFree(s: string)
    requires forall k :: 0 <= k < |s| ==> !IsSpace(s[k])
    ensures Trim(s) == s
  {
    assert SkipSpaces(s, 0) == 0;
    assert SkipSpacesBack(s, 0, |s|) == |s|;
  }

  /** The trimmed string is a slice of the original between two whitespace runs. */
  lemma TrimIsSlice(s: string)
    ensures var i := SkipSpaces(s, 0); var j := SkipSpacesBack(s, i, |s|);
            Trim(s) == s[i..j] && AllSpace(s, 0, i) && AllSpace(s, j, |s|)
  {
  }

  /** Trimming is idempotent: a trimmed string is left alone. */
  lemma TrimTrimmed(s: string)
    requires IsTrimmed(s)
    ensures Trim(s) == s
  {
    assert SkipSpaces(s, 0) == 0;
    assert SkipSpacesBack(s, 0, |s|) == |s|;
  }

  /** A string that ends in a non-space character keeps that last character. */
  lemma TrimKeepsLast(s: string)
    requires |s| > 0 && !IsSpace(s[|s| - 1])
    ensures |Trim(s)| > 0 && Trim(s)[|Trim(s)| - 1] == s[|s| - 1]
  {
    TrimIsSlice(s);
    var i := SkipSpaces(s, 0);
    assert i < |s|;
    var j := SkipSpacesBack(s, i, |s|);
    assert j == |s|;
  }

  /** `sub` occurs in `s` at index `i`. */
  predicate OccursAt(s: string, sub: string, i: nat) {
    i + |sub| <= |s| && s[i..i + |sub|] == sub
  }

  /** String.prototype.includes, searching from index `from`. */
  function IncludesFrom(s: string, sub: string, from: nat): (b: bool)
    requires from <= |s|
    ensures b <==> exists i :: from <= i && OccursAt(s, sub, i)
    decreases |s| - from
  {
    if OccursAt(s, sub, from) then true
    else if from + |sub| >= |s| then
      assert forall i :: from < i ==> !OccursAt(s, sub, i);
      false
    else IncludesFrom(s, sub, from + 1)
  }

  function Includes(s: string, sub: string): (b: bool)
    ensures b <==> exists i :: OccursAt(s, sub, i)
  {
    IncludesFrom(s, sub, 0)
  }

  /** toLowerCase on single characters: A-Z, and the Kelvin sign (U+212A,
      which lower-cases to 'k'). Every other character is kept as it is,
      including U+0130, which toLowerCase turns into the two code units
      "i\u0307". */
  function LowerChar(c: char): (l: char)
    ensures !IsUpper(l)
  {
    if IsUpper(c) then (c as int + 32) as char
    else if c == '\U{212A}' then 'k'
    else c
  }

  function ToLower(s: string): (r: string)
    ensures |r| == |s|
    ensures forall k :: 0 <= k < |s| ==> r[k] == LowerChar(s[k])
  {
    seq(|s|, k requires 0 <= k < |s| => LowerChar(s[k]))
  }

  /** Array.prototype.join. */
  function Join(parts: seq<string>, sep: string): string
  {
    if parts == [] then ""
    else if |parts| == 1 then parts[0]
    else parts[0] + sep + Join(parts[1..], sep)
  }

  /** s.split(c)[0]: the text before the first `c`, or all of s. */
  function BeforeFirst(s: string, c: char): (r: string)
    ensures |r| <= |s| && r == s[..|r|]
    ensures c !in r
    ensures |r| < |s| ==> s[|r|] == c
  {
    if s == [] || s[0] == c then "" else [s[0]] + BeforeFirst(s[1..], c)
  }

  /** The string's `length`: UTF-16 code units, two for a character outside
      the Basic Multilingual Plane. */
  function Utf16Length(s: string): (n: nat)
    ensures |s| <= n <= 2 * |s|
  {
    if s == [] then 0 else (if s[0] as int > 0xFFFF then 2 else 1) + Utf16Length(s[1..])
  }
}
