/** Character types. */
module Ctype {

  predicate IsSpace(c: char) {
    c == ' ' || 9 <= c as int <= 13
  }

  /** Blank, form feed, line feed, carriage return, tabulator and vertical tabulator. */
  lemma Spaces(c: char)
    ensures IsSpace(c) <==> c as int in {0x20, 0x0c, 0x0a, 0x0d, 0x09, 0x0b}
  {
  }
}
