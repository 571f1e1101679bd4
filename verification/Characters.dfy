/** Characters. */
module Characters {

  /** The white space of the C library. */
  predicate IsSpace(c: char) {
    c == ' ' || c == '\t' || c == '\n' || c == '\U{B}' || c == '\U{C}' || c == '\r'
  }

  /** The white space that GLib strips. */
  predicate IsStripped(c: char) {
    c == ' ' || c == '\t' || c == '\n' || c == '\U{C}' || c == '\r'
  }

  /** The codes: 9 to 13 and 32, of which GLib does not strip 11. */
  lemma SpaceCodes(c: char)
    ensures IsSpace(c) <==> 9 <= c as int <= 13 || c as int == 32
    ensures IsStripped(c) <==> IsSpace(c) && c as int != 11
  {
  }
}
