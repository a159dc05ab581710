/**
 * The character classes the query grammar's regular expressions use.
 * Python's `\s` and `str.strip()` agree on what whitespace is; `\w` is the
 * Unicode word class, given exactly for ASCII and Latin-1 and approximated
 * above U+00FF by "any character that is not whitespace".
 */
module CharClasses {

  /** Whitespace as `\s` and `str.isspace()` see it. */
  predicate IsSpace(c: char) {
    || c == ' '
    || ('\t' <= c <= '\r')
    || ('\U{1c}' <= c <= '\U{1f}')
    || c == '\U{85}' || c == '\U{a0}' || c == '\U{1680}'
    || ('\U{2000}' <= c <= '\U{200a}')
    || c == '\U{2028}' || c == '\U{2029}' || c == '\U{202f}' || c == '\U{205f}'
    || c == '\U{3000}'
  }

  predicate IsAsciiLetter(c: char) {
    ('a' <= c <= 'z') || ('A' <= c <= 'Z')
  }

  /** `[0-9]`: the grammar's `digit` and the digits of `number`. */
  predicate IsDigit(c: char) {
    '0' <= c <= '9'
  }

  /** `\w`: letters, digits and the underscore. */
  predicate IsWord(c: char) {
    || IsAsciiLetter(c) || IsDigit(c) || c == '_'
    || c == '\U{aa}' || c == '\U{b2}' || c == '\U{b3}' || c == '\U{b5}'
    || c == '\U{b9}' || c == '\U{ba}' || ('\U{bc}' <= c <= '\U{be}')
    || ('\U{c0}' <= c <= '\U{ff}' && c != '\U{d7}' && c != '\U{f7}')
    || ('\U{ff}' < c && !IsSpace(c))
  }

  /** `[\w.,!:;@\^\-/\|]`: a character of a `literal`. */
  predicate IsLiteralChar(c: char) {
    IsWord(c) || c in ".,!:;@^-/|"
  }

  /** `[a-zA-Z_]`: the first character of a `field_name`. */
  predicate IsFieldStart(c: char) {
    IsAsciiLetter(c) || c == '_'
  }

  /** `[a-zA-Z0-9_]`: the later characters of a `field_name`. */
  predicate IsFieldChar(c: char) {
    IsAsciiLetter(c) || IsDigit(c) || c == '_'
  }

  /** `[+\-]`: an `optional_operator`. */
  predicate IsOperator(c: char) {
    c == '+' || c == '-'
  }

  /** No character that a token can be made of is whitespace, and the
      classes nest as the regular expressions say. */
  lemma ClassFacts(c: char)
    ensures IsLiteralChar(c) ==> !IsSpace(c)
    ensures IsFieldChar(c) ==> IsWord(c) && IsLiteralChar(c)
    ensures IsFieldStart(c) ==> IsFieldChar(c)
    ensures IsDigit(c) ==> IsFieldChar(c)
    ensures c in "\"()[]{}*?~+" ==> !IsLiteralChar(c) && !IsSpace(c)
    ensures IsSpace(c) ==> !IsLiteralChar(c) && !IsFieldChar(c) && !IsDigit(c)
    ensures c == '\n' ==> IsSpace(c)
  {
  }
}
