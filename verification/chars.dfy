/** Character classes used by the script's regular expressions and `str.strip`.
    Only ASCII is modelled: Unicode whitespace beyond ASCII and Unicode case
    folding are out of scope. */
module Chars {

  /** Whitespace as Python's `str.isspace` sees it, restricted to ASCII:
      tab, line feed, vertical tab, form feed, carriage return, the four
      information separators 0x1C-0x1F, and space. The regex class `\s`
      on a `str` pattern is the same set. */
  predicate IsSpace(c: char) {
    c == ' ' || ('\t' <= c <= '\r') || ('\U{1C}' <= c <= '\U{1F}')
  }

  /** The set `". "` handed to `str.strip` when a document text is built. */
  predicate IsDotOrSpace(c: char) {
    c == '.' || c == ' '
  }

  predicate IsUpper(c: char) { 'A' <= c <= 'Z' }

  predicate IsLower(c: char) { 'a' <= c <= 'z' }

  predicate IsDigit(c: char) { '0' <= c <= '9' }

  /** A member of the regex class `[A-Za-z0-9_]`. */
  predicate IsWordChar(c: char) {
    IsUpper(c) || IsLower(c) || IsDigit(c) || c == '_'
  }

  /** ASCII lower-casing: upper-case letters move down by 32, everything else stays. */
  function Lower(c: char): (r: char)
    ensures IsUpper(c) ==> IsLower(r) && r as int == c as int + 32
    ensures !IsUpper(c) ==> r == c
  {
    if IsUpper(c) then (c as int + 32) as char else c
  }

  /** Lower-casing a string character by character. */
  function LowerString(s: string): (r: string)
    ensures |r| == |s|
    ensures forall k :: 0 <= k < |s| ==> r[k] == Lower(s[k])
  {
    seq(|s|, k requires 0 <= k < |s| => Lower(s[k]))
  }
}
