/**
 Character classes used by the annotator. JavaScript keeps `\w`, `\b` and
 `\d` to their ASCII definitions unless a pattern has both the `u` and the
 `i` flag; the annotator's pattern has neither.
 */
module Chars {

  /** `\w`: ASCII letters, ASCII digits and the underscore. */
  predicate IsWordChar(c: char) {
    ('A' <= c <= 'Z') || ('a' <= c <= 'z') || ('0' <= c <= '9') || c == '_'
  }

  /** `\d`: the ASCII digits. */
  predicate IsDigit(c: char) {
    '0' <= c <= '9'
  }

  /** The characters that `.` does not match when the `s` flag is absent. */
  predicate IsLineTerminator(c: char) {
    c == '\n' || c == '\r' || c == '\U{2028}' || c == '\U{2029}'
  }

  /** Lower-case letters that have a one-character upper-case form at
      distance 0x20: ASCII a-z and Latin-1 U+00E0..U+00FE except U+00F7. */
  predicate HasSimpleUpper(c: char) {
    ('a' <= c <= 'z') || ('\U{E0}' <= c <= '\U{FE}' && c != '\U{F7}')
  }

  /** Upper-case form of one character (see `HasSimpleUpper`). */
  function UpperChar(c: char): (u: char)
    ensures HasSimpleUpper(c) ==> u as int == c as int - 0x20
    ensures !HasSimpleUpper(c) ==> u == c
  {
    if HasSimpleUpper(c) then (c as int - 0x20) as char else c
  }

  /** `String.prototype.toUpperCase`, restricted to `UpperChar`: it keeps
      the length and maps each character on its own. */
  function ToUpper(s: string): (u: string)
    ensures |u| == |s|
    ensures forall i :: 0 <= i < |s| ==> u[i] == UpperChar(s[i])
  {
    seq(|s|, i requires 0 <= i < |s| => UpperChar(s[i]))
  }
}
