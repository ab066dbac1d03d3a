/** Character classes and string helpers shared by the regular expressions
    and string functions the command relies on. `\w` and `\s` are read in
    their ASCII meaning (PCRE without the `u` modifier, "C" locale). */
module Text {

  /** PCRE `\w`: ASCII letters, digits and underscore. */
  predicate IsWordChar(c: char) {
    ('a' <= c <= 'z') || ('A' <= c <= 'Z') || ('0' <= c <= '9') || c == '_'
  }

  /** PCRE2 `\s`: space, tab, line feed, vertical tab, form feed, carriage return. */
  predicate IsSpace(c: char) {
    c == ' ' || c == '\t' || c == '\n' || c as int == 11 || c as int == 12 || c == '\r'
  }

  /** The characters PHP's `ltrim` strips when no list is given:
      space, tab, line feed, carriage return, NUL and vertical tab. */
  predicate IsLtrimChar(c: char) {
    c == ' ' || c == '\t' || c == '\n' || c == '\r' || c == '\0' || c as int == 11
  }

  /** `'` or `"`. */
  predicate IsQuote(c: char) {
    c == '\'' || c == '"'
  }

  predicate AllWord(s: string) {
    forall i :: 0 <= i < |s| ==> IsWordChar(s[i])
  }

  predicate AllSpace(s: string) {
    forall i :: 0 <= i < |s| ==> IsSpace(s[i])
  }

  predicate StartsWith(s: string, prefix: string) {
    |prefix| <= |s| && s[..|prefix|] == prefix
  }

  /** PHP `str_ends_with`. */
  predicate EndsWith(s: string, suffix: string) {
    |suffix| <= |s| && s[|s| - |suffix|..] == suffix
  }

  /** PHP `ltrim($s)` with the default character list. */
  function Ltrim(s: string): (r: string)
    ensures |r| <= |s| && r == s[|s| - |r|..]
    ensures |r| == 0 || !IsLtrimChar(r[0])
    ensures forall i :: 0 <= i < |s| - |r| ==> IsLtrimChar(s[i])
  {
    if |s| > 0 && IsLtrimChar(s[0]) then Ltrim(s[1..]) else s
  }

  /** Index of the first character at or after `i` that is not `\s`;
      this is where a greedy `\s*` starting at `i` stops. */
  function SkipSpaces(s: string, i: nat): (j: nat)
    requires i <= |s|
    ensures i <= j <= |s|
    ensures AllSpace(s[i..j])
    ensures j == |s| || !IsSpace(s[j])
    decreases |s| - i
  {
    if i < |s| && IsSpace(s[i]) then SkipSpaces(s, i + 1) else i
  }
}
