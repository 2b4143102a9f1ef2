/** Characters as the standard library of the source classes them. */
module Text {

  /** Unicode white space. */
  predicate IsSpace(c: char) {
    var n := c as int;
    || 0x09 <= n <= 0x0D || n == 0x20 || n == 0x85 || n == 0xA0 || n == 0x1680
    || 0x2000 <= n <= 0x200A || n == 0x2028 || n == 0x2029 || n == 0x202F || n == 0x205F || n == 0x3000
  }

  const CONTROLS := "\t\n\U{000B}\U{000C}\r\U{0085}"
  const BLANKS := " \U{00A0}\U{1680}\U{202F}\U{205F}\U{3000}"
  const QUADS := "\U{2000}\U{2001}\U{2002}\U{2003}\U{2004}\U{2005}\U{2006}\U{2007}\U{2008}\U{2009}\U{200A}"
  const SEPARATORS := "\U{2028}\U{2029}"

  /** The twenty-five characters with that property, by name. */
  lemma SpacesAre(c: char)
    ensures IsSpace(c) <==> c in CONTROLS || c in BLANKS || c in QUADS || c in SEPARATORS
  {
    if IsSpace(c) {
      var n := c as int;
      if 0x2000 <= n <= 0x200A {
        assert c == QUADS[n - 0x2000];
      } else if 0x09 <= n <= 0x0D {
        assert c == CONTROLS[n - 0x09];
      }
    }
  }
}
