/** Single steps of the reader, by the text of the next token. */
module JsonReading {
  import opened Common
  import opened JsonText
  import opened JsonValue
  import opened JsonString
  import opened JsonLexer
  import opened JsonLocal
  import opened JsonGrammar
  import opened JsonTokens
  import opened JsonReparse
  import opened JsonSyntax
  import opened JsonLiterals

  function KindOf(c: Byte): TokenType {
    if c == OPEN_OBJECT then ObjectBegin
    else if c == CLOSE_OBJECT then ObjectEnd
    else if c == OPEN_ARRAY then ArrayBegin
    else if c == CLOSE_ARRAY then ArrayEnd
    else if c == QUOTE then StringToken
    else if IsDigit(c) || c == MINUS then NumberToken
    else if c == 116 then TrueToken
    else if c == 102 then FalseToken
    else if c == 110 then NullToken
    else if c == COMMA then ArraySeparator
    else MemberSeparator
  }

  lemma LexedKind(doc: Bytes, p: nat, tok: Bytes)
    requires p <= |doc| && Lexes(doc, p, tok)
    ensures tok != [] && ReadToken(doc, p).kind == KindOf(tok[0])
    ensures Peek(doc, SkipSpaces(doc, p)) == tok[0]
    ensures NextToken(doc, p) == ReadToken(doc, p)
    ensures forall comments :: ValueToken(comments, doc, p) == ReadToken(doc, p)
  {
    var t := ReadToken(doc, p);
    assert tok[0] == doc[t.start];
  }

  // The text of a token that is no literal.
  function FixedText(kind: TokenType): Bytes {
    match kind
    case ObjectBegin => [OPEN_OBJECT]
    case ObjectEnd => [CLOSE_OBJECT]
    case ArrayBegin => [OPEN_ARRAY]
    case ArrayEnd => [CLOSE_ARRAY]
    case ArraySeparator => [COMMA]
    case MemberSeparator => [COLON]
    case TrueToken => TRUE_TEXT
    case FalseToken => FALSE_TEXT
    case NullToken => NULL_TEXT
    case _ => []
  }

  lemma WordText(doc: Bytes, p: nat)
    requires p <= |doc| && TokenAt(doc, p).kind in {TrueToken, FalseToken, NullToken}
    ensures doc[p..TokenAt(doc, p).end] == FixedText(TokenAt(doc, p).kind)
  {
    var end := TokenAt(doc, p).end;
    assert doc[p..end] == [doc[p]] + doc[p + 1..end];
  }

  lemma KindText(doc: Bytes, p: nat)
    requires p <= |doc| && IsSolid(ReadToken(doc, p).kind)
    ensures var t := ReadToken(doc, p);
      var text := doc[t.start..t.end];
      && Lexes(doc, p, text) && text != []
      && (t.kind == NumberToken ==> NumberText(text))
      && (t.kind == StringToken ==> text[0] == QUOTE)
      && (t.kind != NumberToken && t.kind != StringToken ==> text == FixedText(t.kind))
  {
    var t := ReadToken(doc, p);
    if t.kind in {TrueToken, FalseToken, NullToken} {
      WordText(doc, t.start);
    } else {
      assert doc[t.start..t.end][0] == doc[t.start];
    }
  }

  lemma ColonText(doc: Bytes, p: nat)
    requires p <= |doc| && ReadToken(doc, p).kind == MemberSeparator
    ensures Lexes(doc, p, [COLON])
  {
    hide TokenAt, ReadToken;
    KindText(doc, p);
  }

  lemma {:induction false} CStringOfNulFree(s: Bytes)
    requires NulFree(s)
    ensures CString(s) == s
  {
    if s != [] {
      CStringOfNulFree(s[1..]);
      assert s == [s[0]] + s[1..];
    }
  }

  // What is between the quotes of a token is what is between the quotes of its text.
  lemma BetweenQuotes(doc: Bytes, t: Token, text: Bytes)
    requires t.start + 2 <= t.end <= |doc| && doc[t.start..t.end] == text
    ensures Agree(text, 1, |text| - 1, doc, t.start + 1, t.end - 1)
    ensures Agree(doc, t.start + 1, t.end - 1, text, 1, |text| - 1)
  {
    forall i | 1 <= i < |text| - 1 ensures text[i] == doc[i - 1 + (t.start + 1)] {
      assert doc[t.start..t.end][i] == doc[t.start + i];
      assert i - 1 + (t.start + 1) == t.start + i;
    }
    forall i | t.start + 1 <= i < t.end - 1 ensures doc[i] == text[i - (t.start + 1) + 1] {
      assert doc[t.start..t.end][i - t.start] == doc[i];
    }
  }

  // A string as a token: what is between its quotes is decoded to what the text denotes.
  lemma LexedChars(doc: Bytes, p: nat, text: Bytes)
    requires p <= |doc| && Lexes(doc, p, text) && IsString(text)
    ensures var t := ReadToken(doc, p);
      && t.kind == StringToken
      && match Meaning(false, text, 1, |text| - 1)
         case Some(s) => Decode(doc, t.start + 1, t.end - 1, []) == Chars(s)
         case None => Decode(doc, t.start + 1, t.end - 1, []).BadEscape?
  {
    hide TokenAt, ReadToken, Decode, Meaning, Agree, IsChars, StringEnd;
    var t := ReadToken(doc, p);
    LexedKind(doc, p, text);
    CharsEnd(text, 1, |text| - 1);
    MeaningDecodes(text, 1, |text| - 1, []);
    BetweenQuotes(doc, t, text);
    if Decode(text, 1, |text| - 1, []).Chars? {
      DecodeLocal(text, 1, |text| - 1, doc, t.start + 1, t.end - 1, []);
    } else if Decode(doc, t.start + 1, t.end - 1, []).Chars? {
      DecodeLocal(doc, t.start + 1, t.end - 1, text, 1, |text| - 1, []);
    }
    if m: Bytes :| Meaning(false, text, 1, |text| - 1) == Some(m) { assert [] + m == m; }
  }

  lemma LexedString(d: Dialect, doc: Bytes, p: nat, text: Bytes, s: Bytes) returns (raw: Bytes)
    requires d.Loose? && p <= |doc| && Lexes(doc, p, text) && StringMeans(d, text, s)
    ensures var t := ReadToken(doc, p);
      t.kind == StringToken && Decode(doc, t.start + 1, t.end - 1, []) == Chars(raw) && CString(raw) == s
  {
    hide TokenAt, ReadToken, Decode, Meaning, IsChars, Coupled, Lexes;
    LexedChars(doc, p, text);
    raw := Meaning(false, text, 1, |text| - 1).value;
  }

  // --- Arrays ---

  lemma OpensArray(f: Features, scan: Scanner, doc: Bytes, p: nat, init: Node)
    requires p <= |doc| && Lexes(doc, p, [OPEN_ARRAY])
    ensures var r, l := ReadValue(f, scan, doc, p, init), ReadArray(f, scan, doc, ReadToken(doc, p).end);
      (r.Good? <==> l.end.None?) && (l.end.None? ==> r.node.value == Arr(l.items) && r.pos == l.pos)
  {
    hide ReadArray, ReadToken, ReadMembers, Decode;
    LexedKind(doc, p, [OPEN_ARRAY]);
  }

  lemma ClosesArray(f: Features, scan: Scanner, doc: Bytes, p: nat)
    requires p <= |doc| && Lexes(doc, p, [CLOSE_ARRAY])
    ensures var l := ReadArray(f, scan, doc, p);
      l.items == [] && l.end.None? && l.pos == ReadToken(doc, p).end
  {
    LexedKind(doc, p, [CLOSE_ARRAY]);
  }

  // Reading tokens does not care about white space before them.
  lemma LeadingSpaces(doc: Bytes, p: nat, toks: seq<Bytes>, q: nat)
    requires p <= |doc| && toks != [] && Reads(doc, p, toks, q)
    ensures Reads(doc, SkipSpaces(doc, p), toks, q)
  {
    hide TokenAt;
    var r := SkipSpaces(doc, p);
    assert SkipSpaces(doc, r) == r;
  }

  lemma ElementStep(
      f: Features, scan: Scanner, doc: Bytes, p: nat, item: Json, m: nat, done: seq<Json>, kids: seq<Spans>)
    requires p <= |doc| && m <= |doc|
    requires var r := ReadValue(f, scan, doc, p, FRESH);
      r.Good? && r.node.value == item && r.pos == m
    requires Lexes(doc, m, [COMMA]) || Lexes(doc, m, [CLOSE_ARRAY])
    ensures var l, next := ReadElements(f, scan, doc, p, done, kids), ReadToken(doc, m).end;
      var kids1 := kids + [ReadValue(f, scan, doc, p, FRESH).node.spans];
      if Lexes(doc, m, [COMMA]) then l == ReadElements(f, scan, doc, next, done + [item], kids1)
      else l.items == done + [item] && l.end.None? && l.pos == next
  {
    hide TokenAt, ReadToken, Recover, ReadValue;
    LexedKind(doc, m, if Lexes(doc, m, [COMMA]) then [COMMA] else [CLOSE_ARRAY]);
  }

  // --- Objects ---

  lemma OpensObject(f: Features, scan: Scanner, doc: Bytes, p: nat, init: Node)
    requires p <= |doc| && Lexes(doc, p, [OPEN_OBJECT])
    ensures var r := ReadValue(f, scan, doc, p, init);
      var g := ReadMembers(f, scan, doc, ReadToken(doc, p).end, [], Entries([], []));
      (r.Good? <==> g.end.None?) && (g.end.None? ==> r.node.value == Obj(g.entries.members) && r.pos == g.pos)
  {
    hide ReadArray, ReadToken, ReadMembers, Decode;
    LexedKind(doc, p, [OPEN_OBJECT]);
  }

  lemma ClosesObject(f: Features, scan: Scanner, doc: Bytes, p: nat, e: Entries)
    requires p <= |doc| && Lexes(doc, p, [CLOSE_OBJECT]) && Paired(e)
    ensures ReadMembers(f, scan, doc, p, [], e) == Grouped(e, None, ReadToken(doc, p).end)
  {
    hide TokenAt, ReadToken;
    LexedKind(doc, p, [CLOSE_OBJECT]);
  }

  lemma NameDecoded(f: Features, scan: Scanner, doc: Bytes, p: nat, raw: Bytes, last: Bytes, e: Entries)
    requires p <= |doc| && Paired(e) && ReadToken(doc, p).kind == StringToken
    requires Decode(doc, ReadToken(doc, p).start + 1, ReadToken(doc, p).end - 1, []) == Chars(raw)
    ensures ReadMembers(f, scan, doc, p, last, e) == ReadMember(f, scan, doc, ReadToken(doc, p).end, raw, e)
  {
    hide TokenAt, ReadToken, Decode, Recover;
  }

  lemma NameStep(
      f: Features, d: Dialect, doc: Bytes, p: nat, text: Bytes, name: Bytes, last: Bytes, e: Entries)
    returns (raw: Bytes)
    requires d.Loose? && p <= |doc| && Paired(e) && Lexes(doc, p, text) && StringMeans(d, text, name)
    ensures ReadMembers(f, d.scan, doc, p, last, e) == ReadMember(f, d.scan, doc, ReadToken(doc, p).end, raw, e)
    ensures CString(raw) == name
  {
    hide TokenAt, ReadToken, Decode, Lexes, StringMeans, ReadMembers, ReadMember, CString;
    raw := LexedString(d, doc, p, text, name);
    NameDecoded(f, d.scan, doc, p, raw, last, e);
  }

  lemma ColonStep(f: Features, scan: Scanner, doc: Bytes, p: nat, raw: Bytes, v: Json, m: nat, e: Entries)
    requires p <= |doc| && Paired(e) && Lexes(doc, p, [COLON])
    requires var r := ReadValue(f, scan, doc, ReadToken(doc, p).end, Lookup(e, CString(raw)));
      r.Good? && r.node.value == v && r.pos == m
    ensures var n := ReadValue(f, scan, doc, ReadToken(doc, p).end, Lookup(e, CString(raw))).node;
      ReadMember(f, scan, doc, p, raw, e) == AfterMember(f, scan, doc, m, raw, Store(e, CString(raw), n))
  {
    hide TokenAt, ReadToken, Lexes, Recover, ReadValue, AfterMember, Lookup, Store, CString;
    LexedKind(doc, p, [COLON]);
  }

  lemma SeparatorStep(f: Features, scan: Scanner, doc: Bytes, p: nat, name: Bytes, e: Entries)
    requires p <= |doc| && Paired(e) && (Lexes(doc, p, [COMMA]) || Lexes(doc, p, [CLOSE_OBJECT]))
    ensures var next := ReadToken(doc, p).end;
      AfterMember(f, scan, doc, p, name, e) ==
      if Lexes(doc, p, [COMMA]) then ReadMembers(f, scan, doc, next, name, e) else Grouped(e, None, next)
  {
    hide TokenAt, ReadToken, NextToken, Recover, ReadMembers;
    LexedKind(doc, p, if Lexes(doc, p, [COMMA]) then [COMMA] else [CLOSE_OBJECT]);
  }
}
