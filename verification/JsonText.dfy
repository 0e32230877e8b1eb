/** Documents as byte sequences, and the characters the reader and the writers care about. */
module JsonText {
  import opened Common

  const PLUS: Byte := 43
  const MINUS: Byte := 45
  const DOT: Byte := 46
  const SLASH: Byte := 47
  const ZERO: Byte := 48
  const NINE: Byte := 57
  const COLON: Byte := 58
  const OPEN_ARRAY: Byte := 91
  const BACKSLASH: Byte := 92
  const CLOSE_ARRAY: Byte := 93
  const OPEN_OBJECT: Byte := 123
  const CLOSE_OBJECT: Byte := 125
  const STAR: Byte := 42
  const NEWLINE: Byte := 10
  const RETURN: Byte := 13
  const TAB: Byte := 9

  predicate IsSpace(c: Byte) { c == SPACE || c == TAB || c == RETURN || c == NEWLINE }

  predicate AllSpace(w: Bytes) { forall i | 0 <= i < |w| :: IsSpace(w[i]) }

  predicate IsDigit(c: Byte) { ZERO <= c <= NINE }

  // The characters a number token may consist of: digits and . e E + -
  predicate IsNumeric(c: Byte) { IsDigit(c) || c == DOT || c == 101 || c == 69 || c == PLUS || c == MINUS }

  ghost predicate At(doc: Bytes, p: nat, s: Bytes) {
    p + |s| <= |doc| && doc[p..p + |s|] == s
  }

  lemma AtConcat(doc: Bytes, p: nat, a: Bytes, b: Bytes)
    ensures At(doc, p, a + b) <==> At(doc, p, a) && At(doc, p + |a|, b)
  {
    if At(doc, p, a + b) {
      assert doc[p..p + |a|] == (a + b)[..|a|];
      assert doc[p + |a|..p + |a| + |b|] == (a + b)[|a|..];
    }
  }

  lemma AtIndex(doc: Bytes, p: nat, s: Bytes, i: nat)
    requires At(doc, p, s) && i < |s|
    ensures doc[p + i] == s[i]
  {
    assert doc[p..p + |s|][i] == doc[p + i];
  }
}
