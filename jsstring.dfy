/**
  The JavaScript string built-ins the core relies on: the white-space class
  shared by `String.prototype.trim` and the regular-expression class `\s`,
  `trim` itself, ASCII `toLowerCase`, and the regular-expression word
  characters that `\b` looks at.
 */
module JsString {

  /** ECMAScript WhiteSpace and LineTerminator code points. */
  predicate IsWhitespace(c: char) {
    || c == '\t' || c == '\n' || c == '\U{000B}' || c == '\U{000C}' || c == '\r' || c == ' '
    || c == '\U{00A0}' || c == '\U{1680}' || ('\U{2000}' <= c <= '\U{200A}')
    || c == '\U{2028}' || c == '\U{2029}' || c == '\U{202F}' || c == '\U{205F}'
    || c == '\U{3000}' || c == '\U{FEFF}'
  }

  /** The characters `\b` treats as word characters: `[A-Za-z0-9_]`. */
  predicate IsWordChar(c: char) {
    ('A' <= c <= 'Z') || ('a' <= c <= 'z') || ('0' <= c <= '9') || c == '_'
  }

  /** `toLowerCase` on one character, ASCII letters only. */
  function Lower(c: char): (d: char)
    ensures !('A' <= d <= 'Z')
    ensures 'A' <= c <= 'Z' ==> 'a' <= d <= 'z' && d as int - 'a' as int == c as int - 'A' as int
    ensures !('A' <= c <= 'Z') ==> d == c
  {
    if 'A' <= c <= 'Z' then (c as int + 32) as char else c
  }

  /** `s.toLowerCase()`: the same length, each ASCII capital lowered, every other character kept. */
  function LowerStr(s: string): (l: string)
    ensures |l| == |s|
    ensures forall i {:trigger l[i]} :: 0 <= i < |s| ==> l[i] == Lower(s[i])
    ensures forall i :: 0 <= i < |l| ==> !('A' <= l[i] <= 'Z')
  {
    seq(|s|, i requires 0 <= i < |s| => Lower(s[i]))
  }

  /** Case-insensitive equality, as the `i` regular-expression flag and
      `a.toLowerCase() === b.toLowerCase()` compare ASCII text. */
  predicate CiEqual(a: string, b: string) {
    LowerStr(a) == LowerStr(b)
  }

  ghost predicate AllWhitespace(s: string) {
    forall i :: 0 <= i < |s| ==> IsWhitespace(s[i])
  }

  /** The first position at or after `i` that does not hold white space, or `|s|`. */
  function SkipWhitespace(s: string, i: nat): (j: nat)
    requires i <= |s|
    ensures i <= j <= |s|
    ensures forall k :: i <= k < j ==> IsWhitespace(s[k])
    ensures j == |s| || !IsWhitespace(s[j])
    decreases |s| - i
  {
    if i == |s| || !IsWhitespace(s[i]) then i else SkipWhitespace(s, i + 1)
  }

  /** The end of `s[a..j]` once its trailing white-space run is dropped. */
  function DropTrailingWhitespace(s: string, a: nat, j: nat): (e: nat)
    requires a <= j <= |s|
    ensures a <= e <= j
    ensures forall k :: e <= k < j ==> IsWhitespace(s[k])
    ensures e == a || !IsWhitespace(s[e - 1])
    decreases j
  {
    if j == a || !IsWhitespace(s[j - 1]) then j else DropTrailingWhitespace(s, a, j - 1)
  }

  /** The result of `trim` sits at offset `a` of `s`, with only white space around it. */
  ghost predicate TrimmedAt(s: string, a: int, r: string) {
    && 0 <= a && a + |r| <= |s|
    && s[a..a + |r|] == r
    && (forall k :: 0 <= k < a ==> IsWhitespace(s[k]))
    && (forall k :: a + |r| <= k < |s| ==> IsWhitespace(s[k]))
  }

  /** `String.prototype.trim`. */
  function Trim(s: string): (r: string)
    ensures exists a :: TrimmedAt(s, a, r)
    ensures r == [] || (!IsWhitespace(r[0]) && !IsWhitespace(r[|r| - 1]))
  {
    var a := SkipWhitespace(s, 0);
    var e := DropTrailingWhitespace(s, a, |s|);
    assert TrimmedAt(s, a, s[a..e]);
    s[a..e]
  }

  /** `s.trim()` is falsy exactly when `s` is all white space. */
  lemma TrimEmptyIff(s: string)
    ensures Trim(s) == [] <==> AllWhitespace(s)
  {
    var r := Trim(s);
    var a :| TrimmedAt(s, a, r);
    if r != [] {
      assert s[a] == r[0];
    }
  }

  /** A string without white space at either end is its own `trim`. */
  lemma TrimOfTrimmed(s: string)
    requires s == [] || (!IsWhitespace(s[0]) && !IsWhitespace(s[|s| - 1]))
    ensures Trim(s) == s
  {
    assert SkipWhitespace(s, 0) == 0;
    assert DropTrailingWhitespace(s, 0, |s|) == |s|;
    assert s[0..|s|] == s;
  }

  /** Trimming twice is trimming once. */
  lemma TrimIdempotent(s: string)
    ensures Trim(Trim(s)) == Trim(s)
  {
    TrimOfTrimmed(Trim(s));
  }

  /** ASCII lowering keeps the white-space and word-character classes. */
  lemma LowerKeepsClasses(c: char)
    ensures IsWhitespace(Lower(c)) == IsWhitespace(c)
    ensures IsWordChar(Lower(c)) == IsWordChar(c)
    ensures Lower(Lower(c)) == Lower(c)
  {
  }

  lemma LowerStrIdempotent(s: string)
    ensures LowerStr(LowerStr(s)) == LowerStr(s)
  {
    forall i | 0 <= i < |s| ensures LowerStr(LowerStr(s))[i] == LowerStr(s)[i] {
      LowerKeepsClasses(s[i]);
    }
  }

  lemma LowerStrSlice(s: string, i: int, j: int)
    requires 0 <= i <= j <= |s|
    ensures LowerStr(s)[i..j] == LowerStr(s[i..j])
  {
  }

  /** A slice of a lower-case string is lower case. */
  lemma LowerCaseSlice(s: string, i: int, j: int)
    requires LowerStr(s) == s && 0 <= i <= j <= |s|
    ensures LowerStr(s[i..j]) == s[i..j]
  {
    LowerStrSlice(s, i, j);
  }

  /** Lower-casing keeps the string all-white-space or not, so `trim` empties both or neither. */
  lemma LowerKeepsBlank(s: string)
    ensures AllWhitespace(LowerStr(s)) <==> AllWhitespace(s)
  {
    forall i | 0 <= i < |s| ensures IsWhitespace(LowerStr(s)[i]) == IsWhitespace(s[i]) {
      LowerKeepsClasses(s[i]);
    }
  }
}
