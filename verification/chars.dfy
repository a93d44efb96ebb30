/** Character classes shared by the text helpers.
    Python's regular expressions and `str.strip` use the full Unicode tables;
    these predicates keep only their ASCII part. */
module Chars {

  /** A regular-expression word character `\w`: letter, digit or underscore. */
  predicate IsWordChar(c: char)
  {
    ('a' <= c <= 'z') || ('A' <= c <= 'Z') || ('0' <= c <= '9') || c == '_'
  }

  /** A character `str.strip()` removes: the ASCII characters for which
      `str.isspace()` holds (space, \t \n \v \f \r and the separators 0x1C-0x1F). */
  predicate IsSpace(c: char)
  {
    c == ' ' || ('\t' <= c <= '\r') || ('\U{1C}' <= c <= '\U{1F}')
  }

  predicate IsDigit(c: char)
  {
    '0' <= c <= '9'
  }

  /** The regular-expression class `[a-z]`. */
  predicate IsLowerAscii(c: char)
  {
    'a' <= c <= 'z'
  }
}
