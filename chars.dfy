/** Character classes used by the regular expressions of `slugify`.
    Characters are Unicode scalar values; the regular expressions carry no `u` flag. */
module Chars {

  predicate IsUpper(c: char) { 'A' <= c <= 'Z' }

  predicate IsLowerLetter(c: char) { 'a' <= c <= 'z' }

  predicate IsDigit(c: char) { '0' <= c <= '9' }

  /** A letter of either case or a digit: what a slug is built from. */
  predicate IsLetterOrDigit(c: char) { IsUpper(c) || IsLowerLetter(c) || IsDigit(c) }

  /** A lower-case ASCII letter or a digit: the non-hyphen characters of a slug. */
  predicate IsAlnum(c: char) { IsLowerLetter(c) || IsDigit(c) }

  /** `\w` without the `u` flag: `[A-Za-z0-9_]`. */
  predicate IsWord(c: char) { IsLetterOrDigit(c) || c == '_' }

  /** `\s`: the ECMAScript WhiteSpace and LineTerminator characters
      (tab, line feed, vertical tab, form feed, carriage return, the Zs
      space separators, the two Unicode line and paragraph separators and
      the byte-order mark). */
  predicate IsSpace(c: char)
  {
    || c == '\t' || c == '\n' || c == '\U{B}' || c == '\U{C}' || c == '\r'
    || c == ' ' || c == '\U{A0}' || c == '\U{1680}'
    || ('\U{2000}' <= c <= '\U{200A}')
    || c == '\U{2028}' || c == '\U{2029}' || c == '\U{202F}' || c == '\U{205F}'
    || c == '\U{3000}' || c == '\U{FEFF}'
  }

  /** `toLowerCase` on one character, restricted to ASCII: `A-Z` become `a-z`. */
  function LowerChar(c: char): (d: char)
    ensures !IsUpper(d)
    ensures IsUpper(c) ==> IsLowerLetter(d) && d as int == c as int + 32
    ensures !IsUpper(c) ==> d == c
    ensures IsAlnum(d) <==> IsLetterOrDigit(c)
  {
    if IsUpper(c) then (c as int + 32) as char else c
  }
}
