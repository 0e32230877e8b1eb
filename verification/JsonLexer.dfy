/** What Reader::readToken makes of a document, as functions of the position it starts from. */
module JsonLexer {
  import opened Common
  import opened JsonText
  import opened JsonString

  datatype TokenType =
    | EndOfStream | ObjectBegin | ObjectEnd | ArrayBegin | ArrayEnd | StringToken | NumberToken
    | TrueToken | FalseToken | NullToken | ArraySeparator | MemberSeparator | CommentToken | ErrorToken

  datatype Token = Token(kind: TokenType, start: nat, end: nat)

  const RUE: Bytes := [114, 117, 101]
  const ALSE: Bytes := [97, 108, 115, 101]
  const ULL: Bytes := [117, 108, 108]
  const TRUE_TEXT: Bytes := [116] + RUE
  const FALSE_TEXT: Bytes := [102] + ALSE
  const NULL_TEXT: Bytes := [110] + ULL

  // *p, with a readable zero behind the last byte
  function Peek(doc: Bytes, p: nat): Byte {
    if p < |doc| then doc[p] else 0
  }

  function Advance(doc: Bytes, p: nat): nat {
    if p < |doc| then p + 1 else p
  }

  function SkipSpaces(doc: Bytes, p: nat): (r: nat)
    requires p <= |doc|
    ensures p <= r <= |doc| && (r < |doc| ==> !IsSpace(doc[r]))
    ensures forall i | p <= i < r :: IsSpace(doc[i])
    decreases |doc| - p
  {
    if p < |doc| && IsSpace(doc[p]) then SkipSpaces(doc, p + 1) else p
  }

  function NumberEnd(doc: Bytes, p: nat): (r: nat)
    requires p <= |doc|
    ensures p <= r <= |doc| && (r < |doc| ==> !IsNumeric(doc[r]))
    ensures forall i | p <= i < r :: IsNumeric(doc[i])
    decreases |doc| - p
  {
    if p < |doc| && IsNumeric(doc[p]) then NumberEnd(doc, p + 1) else p
  }

  // Reader::match
  function Match(doc: Bytes, p: nat, pattern: Bytes): (r: Span)
    requires p <= |doc|
    ensures p <= r.end <= |doc|
  {
    if p + |pattern| <= |doc| && doc[p..p + |pattern|] == pattern then Span(true, p + |pattern|) else Span(false, p)
  }

  // The end of a C comment's text: behind the star that a slash follows, or the end of the document.
  function StarEnd(doc: Bytes, p: nat): (r: nat)
    requires p <= |doc|
    ensures p <= r <= |doc|
    decreases |doc| - p
  {
    if p == |doc| then p
    else if doc[p] == STAR && Peek(doc, p + 1) == SLASH then p + 1
    else StarEnd(doc, p + 1)
  }

  function LineEnd(doc: Bytes, p: nat): (r: nat)
    requires p <= |doc|
    ensures p <= r <= |doc|
    decreases |doc| - p
  {
    if p == |doc| then p
    else if doc[p] == RETURN || doc[p] == NEWLINE then p + 1
    else LineEnd(doc, p + 1)
  }

  // Reader::readComment, from behind the first slash
  function CommentEnd(doc: Bytes, p: nat): (r: Span)
    requires p <= |doc|
    ensures p <= r.end <= |doc|
  {
    var c, q := Peek(doc, p), Advance(doc, p);
    if c == STAR then
      var star := StarEnd(doc, q);
      Span(Peek(doc, star) == SLASH, Advance(doc, star))
    else if c == SLASH then Span(true, LineEnd(doc, q))
    else Span(false, q)
  }

  function Lexeme(kind: TokenType, start: nat, s: Span): Token {
    Token(if s.ok then kind else ErrorToken, start, s.end)
  }

  // The token whose first character is at p, which is past any white space.
  function TokenAt(doc: Bytes, p: nat): (t: Token)
    requires p <= |doc|
    ensures t.start == p && p <= t.end <= |doc|
    ensures t.end == p ==> t.kind == EndOfStream && p == |doc|
    ensures t.kind == StringToken ==> p + 2 <= t.end
  {
    var c, q := Peek(doc, p), Advance(doc, p);
    if c == OPEN_OBJECT then Token(ObjectBegin, p, q)
    else if c == CLOSE_OBJECT then Token(ObjectEnd, p, q)
    else if c == OPEN_ARRAY then Token(ArrayBegin, p, q)
    else if c == CLOSE_ARRAY then Token(ArrayEnd, p, q)
    else if c == QUOTE then Lexeme(StringToken, p, StringEnd(doc, q))
    else if c == SLASH then Lexeme(CommentToken, p, CommentEnd(doc, q))
    else if IsDigit(c) || c == MINUS then Token(NumberToken, p, NumberEnd(doc, q))
    else if c == 116 then Lexeme(TrueToken, p, Match(doc, q, RUE))
    else if c == 102 then Lexeme(FalseToken, p, Match(doc, q, ALSE))
    else if c == 110 then Lexeme(NullToken, p, Match(doc, q, ULL))
    else if c == COMMA then Token(ArraySeparator, p, q)
    else if c == COLON then Token(MemberSeparator, p, q)
    else if c == 0 then Token(EndOfStream, p, q)
    else Token(ErrorToken, p, q)
  }

  // Reader::readToken
  function ReadToken(doc: Bytes, p: nat): (t: Token)
    requires p <= |doc|
    ensures p <= t.start <= t.end <= |doc|
    ensures t.end == p ==> t.kind == EndOfStream
    ensures t.kind != EndOfStream ==> t.start < t.end
    ensures t.kind == StringToken ==> t.start + 2 <= t.end
  {
    TokenAt(doc, SkipSpaces(doc, p))
  }

  // The first token that is no comment.
  function NextToken(doc: Bytes, p: nat): (t: Token)
    requires p <= |doc|
    ensures p <= t.start <= t.end <= |doc| && t.kind != CommentToken
    ensures t.end == p ==> t.kind == EndOfStream
    ensures t.kind != EndOfStream ==> t.start < t.end
    ensures t.kind == StringToken ==> t.start + 2 <= t.end
    decreases |doc| - p
  {
    var t := ReadToken(doc, p);
    if t.kind == CommentToken then NextToken(doc, t.end) else t
  }

  // Reader::skipCommentTokens
  function ValueToken(comments: bool, doc: Bytes, p: nat): (t: Token)
    requires p <= |doc|
    ensures p <= t.start <= t.end <= |doc|
    ensures t.end == p ==> t.kind == EndOfStream
    ensures t.kind != EndOfStream ==> t.start < t.end
    ensures t.kind == StringToken ==> t.start + 2 <= t.end
  {
    if comments then NextToken(doc, p) else ReadToken(doc, p)
  }

  // Reader::recoverFromError: where skipping stops, behind the wanted token or the end marker.
  function Recover(doc: Bytes, p: nat, until: TokenType): (r: nat)
    requires p <= |doc|
    ensures p <= r <= |doc|
    decreases |doc| - p
  {
    var t := ReadToken(doc, p);
    if t.kind == until || t.kind == EndOfStream then t.end else Recover(doc, t.end, until)
  }
}
