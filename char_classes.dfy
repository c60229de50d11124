/**
 * The character classes the cleaning regular expressions are written with.
 * `\s` is modelled exactly: it is the set of characters for which Python's
 * `str.isspace` holds, which is also what `str.strip()` removes.
 */
module CharClasses {

  /** Python's `\s` on a str pattern (Unicode whitespace). */
  predicate IsSpace(c: char) {
    || ('\t' <= c <= '\r')
    || ('\U{1C}' <= c <= '\U{1F}')
    || c == ' '
    || c == '\U{85}'
    || c == '\U{A0}'
    || c == '\U{1680}'
    || ('\U{2000}' <= c <= '\U{200A}')
    || c == '\U{2028}'
    || c == '\U{2029}'
    || c == '\U{202F}'
    || c == '\U{205F}'
    || c == '\U{3000}'
  }

  /** The range `a-z`. */
  predicate IsAsciiLower(c: char) {
    'a' <= c <= 'z'
  }

  /** The range `0-9`. */
  predicate IsDigit(c: char) {
    '0' <= c <= '9'
  }

  /** The German letters `äöüß` added to the allow-list. */
  predicate IsGermanLetter(c: char) {
    c == '\U{E4}' || c == '\U{F6}' || c == '\U{FC}' || c == '\U{DF}'
  }

  /** The range `а-я` (U+0430 to U+044F) and the letter `ё` (U+0451). */
  predicate IsCyrillicLower(c: char) {
    ('\U{430}' <= c <= '\U{44F}') || c == '\U{451}'
  }
}
