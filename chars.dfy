/** Character classes of the Go RE2 patterns the analyser uses. Go's `\s`, `\w`
    and `\b` are ASCII-only, so no Unicode class is involved. */
module Chars {

  /** `[a-zA-Z_]`: the first character of an identifier. */
  predicate IsIdentStart(c: char) {
    ('a' <= c <= 'z') || ('A' <= c <= 'Z') || c == '_'
  }

  /** `[a-zA-Z0-9_]`: an identifier character, and an ASCII word character for `\b`. */
  predicate IsWordChar(c: char) {
    IsIdentStart(c) || ('0' <= c <= '9')
  }

  /** Go's `\s`, which is `[\t\n\f\r ]` (no vertical tab). */
  predicate IsSpace(c: char) {
    c == '\t' || c == '\n' || c == '\U{000C}' || c == '\r' || c == ' '
  }

  predicate IsStar(c: char) {
    c == '*'
  }

  /** `[^)]`, which also matches newlines. */
  predicate IsNotCloseParen(c: char) {
    c != ')'
  }

  /** `.` without the `(?s)` flag: any character but a newline. */
  predicate IsNotNewline(c: char) {
    c != '\n'
  }

  /** Every character of s[i..j] is in the class p. */
  predicate AllIn(s: string, i: nat, j: nat, p: char -> bool)
    requires i <= j <= |s|
  {
    forall k :: i <= k < j ==> p(s[k])
  }

  /** `[a-zA-Z_][a-zA-Z0-9_]*` matches all of s. */
  predicate IsIdentifier(s: string) {
    |s| > 0 && IsIdentStart(s[0]) && AllIn(s, 1, |s|, IsWordChar)
  }

  /** Go's `\b` at position i: a word character on exactly one side of it. */
  predicate IsBoundary(s: string, i: nat)
    requires i <= |s|
  {
    (i > 0 && IsWordChar(s[i - 1])) != (i < |s| && IsWordChar(s[i]))
  }

  /** The end of the longest run of characters of class p starting at i: what a
      greedy `p*` consumes, and all a `p*` can consume when the next pattern
      element cannot start with a character of p. */
  function RunEnd(s: string, i: nat, p: char -> bool): (r: nat)
    requires i <= |s|
    ensures i <= r <= |s|
    ensures AllIn(s, i, r, p)
    ensures r == |s| || !p(s[r])
    decreases |s| - i
  {
    if i < |s| && p(s[i]) then RunEnd(s, i + 1, p) else i
  }

  /** A run that stops at a character outside p is the longest one. */
  lemma RunEndAt(s: string, i: nat, j: nat, p: char -> bool)
    requires i <= j <= |s|
    requires AllIn(s, i, j, p)
    requires j == |s| || !p(s[j])
    ensures RunEnd(s, i, p) == j
  {
  }
}
