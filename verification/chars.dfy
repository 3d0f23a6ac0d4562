/**
 Character classes used by the extractor's string tests and patterns.

 Python decides `\s`, `str.strip()` and `str.isspace()` with one table of Unicode
 whitespace; `IsSpace` lists exactly those code points. For `\d` and `int()` Python
 accepts every Unicode decimal digit, and `str.isdigit()` every character with a digit
 value, non-decimal ones included. This model accepts the ASCII digits only (and, for
 `isdigit`, also the Latin-1 superscripts).
 */
module Chars {

  /** Python's `str.isspace()` on one character, which is also what `\s` matches. */
  predicate IsSpace(c: char) {
    || ('\U{9}' <= c <= '\U{D}')
    || ('\U{1C}' <= c <= '\U{20}')
    || c == '\U{85}' || c == '\U{A0}' || c == '\U{1680}'
    || ('\U{2000}' <= c <= '\U{200A}')
    || c == '\U{2028}' || c == '\U{2029}' || c == '\U{202F}' || c == '\U{205F}'
    || c == '\U{3000}'
  }

  /** `\d`, restricted to ASCII. */
  predicate IsAsciiDigit(c: char) {
    '0' <= c <= '9'
  }

  /** `str.isdigit()` on one character: ASCII digits and the superscripts one, two, three. */
  predicate IsDigitLike(c: char) {
    IsAsciiDigit(c) || c == '\U{B2}' || c == '\U{B3}' || c == '\U{B9}'
  }

  /** The character class `[A-Za-zÀ-ÿ]` of the heading pattern. */
  predicate IsTitleLetter(c: char) {
    ('A' <= c <= 'Z') || ('a' <= c <= 'z') || ('\U{C0}' <= c <= '\U{FF}')
  }

  /** The value of an ASCII digit. */
  function DigitValue(c: char): (d: nat)
    requires IsAsciiDigit(c)
    ensures d < 10
  {
    (c as int) - ('0' as int)
  }

  /** The ASCII digit whose value is `d`. */
  function DigitChar(d: nat): (c: char)
    requires d < 10
    ensures IsAsciiDigit(c) && DigitValue(c) == d
  {
    (('0' as int) + d) as char
  }

  lemma TitleLetterIsNotSpace(c: char)
    requires IsTitleLetter(c)
    ensures !IsSpace(c)
  {
  }

  lemma DigitIsNotSpace(c: char)
    requires IsAsciiDigit(c)
    ensures !IsSpace(c) && c != '\n' && c != '.'
  {
  }
}
