/** The character classes the analysers rely on: Python's `\s` / `str.isspace()`,
    Python's `\w` on `str` patterns, the ASCII classes `[A-Z]`, `[a-z]`, and
    `str.lower()` applied character by character.

    Whitespace is the exact set `str.isspace()` accepts. `\w` (alphanumeric or
    `_`) is exact up to U+00FF; above it the General Punctuation block
    U+2000-U+206F and whitespace are non-word and every other character is
    taken to be a word character. Case folding covers ASCII and Latin-1. */
module CharClasses {

  predicate IsAsciiUpper(c: char) { 'A' <= c <= 'Z' }

  predicate IsAsciiLower(c: char) { 'a' <= c <= 'z' }

  predicate IsAsciiLetter(c: char) { IsAsciiUpper(c) || IsAsciiLower(c) }

  predicate IsAsciiDigit(c: char) { '0' <= c <= '9' }

  /** `c.isspace()`; also what `\s` and `str.split()` treat as whitespace. */
  predicate IsSpace(c: char) {
    var n := c as int;
    || 0x09 <= n <= 0x0D
    || 0x1C <= n <= 0x20
    || n == 0x85 || n == 0xA0 || n == 0x1680
    || 0x2000 <= n <= 0x200A
    || n == 0x2028 || n == 0x2029 || n == 0x202F || n == 0x205F || n == 0x3000
  }

  /** Letters and numerics of the Latin-1 Supplement (U+0080-U+00FF). */
  predicate IsLatin1Alnum(n: int) {
    || n == 0xAA || n == 0xB2 || n == 0xB3 || n == 0xB5 || n == 0xB9 || n == 0xBA
    || 0xBC <= n <= 0xBE
    || (0xC0 <= n <= 0xFF && n != 0xD7 && n != 0xF7)
  }

  /** `\w`: alphanumeric or underscore. */
  predicate IsWordChar(c: char) {
    var n := c as int;
    if n < 0x80 then IsAsciiLetter(c) || IsAsciiDigit(c) || c == '_'
    else if n <= 0xFF then IsLatin1Alnum(n)
    else !IsSpace(c) && !(0x2000 <= n <= 0x206F)
  }

  /** `\w` and `\s` never overlap; ASCII letters, digits and '_' are word
      characters; space, tab, newline and carriage return are whitespace. */
  lemma SpaceAndWordClasses(c: char)
    ensures IsWordChar(c) ==> !IsSpace(c)
    ensures IsAsciiLetter(c) || IsAsciiDigit(c) || c == '_' ==> IsWordChar(c)
    ensures c == ' ' || c == '\t' || c == '\n' || c == '\r' ==> IsSpace(c)
  {
  }

  /** `c.lower()` for a character whose lower case is one character. */
  function Fold(c: char): (d: char)
    ensures !IsAsciiUpper(d)
    ensures IsAsciiLetter(d) <==> IsAsciiLetter(c)
    ensures IsWordChar(d) <==> IsWordChar(c)
    ensures IsSpace(d) <==> IsSpace(c)
    ensures !IsAsciiUpper(c) && !(0xC0 <= c as int <= 0xDE) ==> d == c
  {
    var n := c as int;
    if IsAsciiUpper(c) || (0xC0 <= n <= 0xDE && n != 0xD7) then (n + 32) as char else c
  }

  /** `s.lower()`. */
  function Lower(s: string): (r: string)
    ensures |r| == |s|
    ensures forall i :: 0 <= i < |r| ==> !IsAsciiUpper(r[i])
  {
    seq(|s|, i requires 0 <= i < |s| => Fold(s[i]))
  }
}
