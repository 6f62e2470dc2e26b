/**
  The character classes used by the sanitiser's regular expressions, over ASCII.
  `\w` is a letter, a digit or the underscore; `\s` is every ASCII character that
  Python's `str.isspace` accepts. Characters outside ASCII belong to neither class.
 */
module CharClass {

  predicate IsUpper(c: char) {
    'A' <= c <= 'Z'
  }

  predicate IsLowerLetter(c: char) {
    'a' <= c <= 'z'
  }

  predicate IsLetter(c: char) {
    IsUpper(c) || IsLowerLetter(c)
  }

  /** `\w`: a match for the word class, and the side of a `\b` boundary that is "word". */
  predicate IsWordChar(c: char) {
    IsLetter(c) || ('0' <= c <= '9') || c == '_'
  }

  /** `\s`: tab, line feed, vertical tab, form feed, carriage return (9-13),
      the four information separators (28-31) and space. */
  predicate IsSpace(c: char) {
    (9 <= c as int <= 13) || (28 <= c as int <= 31) || c == ' '
  }

  /** The characters that survive `[^\w\s.-]` being replaced by nothing. */
  predicate IsKept(c: char) {
    IsWordChar(c) || IsSpace(c) || c == '.' || c == '-'
  }

  /** `str.lower` on one ASCII character. */
  function Lower(c: char): (d: char)
    ensures !IsUpper(d)
    ensures IsLetter(c) <==> IsLetter(d)
    ensures !IsUpper(c) ==> d == c
    ensures IsUpper(c) ==> IsLowerLetter(d) && d as int - c as int == 'a' as int - 'A' as int
    ensures IsKept(d) == IsKept(c) && IsWordChar(d) == IsWordChar(c)
  {
    if IsUpper(c) then (c as int + 32) as char else c
  }
}
