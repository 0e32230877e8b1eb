/** Reading a value is local: the same bytes elsewhere read as the same value. */
module JsonReparse {
  import opened Common
  import opened JsonText
  import opened JsonValue
  import opened JsonString
  import opened JsonLexer
  import opened JsonLocal
  import opened JsonGrammar

  lemma ReadTokenLocal(doc: Bytes, p: nat, e: nat, doc': Bytes, p': nat, e': nat)
    requires Agree(doc, p, e, doc', p', e') && Covered(ReadToken(doc, p), e, doc', e')
    ensures Moved(ReadToken(doc, p), p, ReadToken(doc', p'), p')
  {
    hide Agree, TokenAt;
    AgreeBounds(doc, p, e, doc', p', e');
    var k := SkipSpaces(doc, p);
    SpacesLocal(doc, p, e, doc', p', e');
    var k' := SkipSpaces(doc', p');
    AgreeAt(doc, p, e, doc', p', e', k, k');
    TokenLocal(doc, k, e, doc', k', e');
  }

  // --- Tokens that are no part of a value ---

  // A closing brace at b, behind from and within the limit.
  ghost predicate Closes(doc: Bytes, from: nat, b: nat, limit: nat) {
    from <= b < limit <= |doc| && doc[b] == CLOSE_OBJECT
  }

  lemma {:induction false} UnclosedString(doc: Bytes, p: nat)
    requires p <= |doc| && !StringEnd(doc, p).ok
    ensures StringEnd(doc, p).end == |doc|
    decreases |doc| - p
  {
    if p < |doc| {
      UnclosedString(doc, if doc[p] == BACKSLASH && p + 2 <= |doc| then p + 2 else p + 1);
    }
  }

  lemma {:induction false} UnclosedComment(doc: Bytes, p: nat)
    requires p <= |doc| && Peek(doc, StarEnd(doc, p)) != SLASH
    ensures StarEnd(doc, p) == |doc|
    decreases |doc| - p
  {
    if p < |doc| && !(doc[p] == STAR && Peek(doc, p + 1) == SLASH) {
      UnclosedComment(doc, p + 1);
    }
  }

  lemma MatchMeans(doc: Bytes, p: nat, pattern: Bytes)
    requires p <= |doc|
    ensures Match(doc, p, pattern).ok <==>
      p + |pattern| <= |doc| && forall i | 0 <= i < |pattern| :: pattern[i] == doc[p + i]
    ensures !Match(doc, p, pattern).ok ==> Match(doc, p, pattern) == Span(false, p)
  {
    if p + |pattern| <= |doc| {
      var there := doc[p..p + |pattern|];
      assert forall i | 0 <= i < |pattern| :: there[i] == doc[p + i];
    }
  }

  // A misspelt word is misspelt everywhere, as the brace behind it is no part of a word.
  lemma WordMismatch(doc: Bytes, p: nat, e: nat, doc': Bytes, p': nat, e': nat, pattern: Bytes, b: nat)
    requires Agree(doc, p, e, doc', p', e') && Closes(doc, p, b, e) && CLOSE_OBJECT !in pattern
    requires !Match(doc, p, pattern).ok
    ensures Match(doc, p, pattern) == Span(false, p) && Match(doc', p', pattern) == Span(false, p')
  {
    hide Match;
    MatchMeans(doc, p, pattern);
    MatchMeans(doc', p', pattern);
    if b < p + |pattern| {
      assert doc'[p' + (b - p)] == doc[b] by { assert b - p + p' == p' + (b - p); }
      assert pattern[b - p] != doc'[p' + (b - p)];
    } else {
      var i :| 0 <= i < |pattern| && pattern[i] != doc[p + i];
      assert doc'[p' + i] == doc[p + i] by { assert p + i - p + p' == p' + i; }
      assert pattern[i] != doc'[p' + i];
    }
  }

  lemma WordToken(doc: Bytes, p: nat)
    requires p < |doc| && doc[p] in {116, 102, 110}
    ensures TokenAt(doc, p) ==
      if doc[p] == 116 then Lexeme(TrueToken, p, Match(doc, p + 1, RUE))
      else if doc[p] == 102 then Lexeme(FalseToken, p, Match(doc, p + 1, ALSE))
      else Lexeme(NullToken, p, Match(doc, p + 1, ULL))
  {
    hide Match, StringEnd, CommentEnd, NumberEnd;
  }

  lemma StrayWordLocal(doc: Bytes, p: nat, e: nat, doc': Bytes, p': nat, e': nat, b: nat)
    requires Agree(doc, p, e, doc', p', e') && Closes(doc, TokenAt(doc, p).end, b, e)
    requires TokenAt(doc, p).kind == ErrorToken && p < e && doc[p] in {116, 102, 110}
    ensures Moved(TokenAt(doc, p), p, TokenAt(doc', p'), p')
  {
    hide Agree, TokenAt, Match;
    AgreeBounds(doc, p, e, doc', p', e');
    WordToken(doc, p);
    WordToken(doc', p');
    AgreeAt(doc, p, e, doc', p', e', p + 1, p' + 1);
    WordMismatch(doc, p + 1, e, doc', p' + 1, e',
      if doc[p] == 116 then RUE else if doc[p] == 102 then ALSE else ULL, b);
  }

  // A comment that does not begin like one is an error of one character.
  lemma StraySlash(doc: Bytes, p: nat, b: nat, e: nat)
    requires p < |doc| && doc[p] == SLASH && TokenAt(doc, p).kind == ErrorToken
      && Closes(doc, TokenAt(doc, p).end, b, e)
    ensures Peek(doc, p + 1) != STAR && Peek(doc, p + 1) != SLASH && TokenAt(doc, p).end == p + 2 <= b
  {
    ScannedToken(doc, p);
    hide TokenAt;
    if Peek(doc, p + 1) == STAR { UnclosedComment(doc, p + 2); }
  }

  lemma StraySlashLocal(doc: Bytes, p: nat, e: nat, doc': Bytes, p': nat, e': nat, b: nat)
    requires Agree(doc, p, e, doc', p', e') && Closes(doc, TokenAt(doc, p).end, b, e)
    requires TokenAt(doc, p).kind == ErrorToken && p < e && doc[p] == SLASH
    ensures Moved(TokenAt(doc, p), p, TokenAt(doc', p'), p')
  {
    hide Agree, TokenAt, StarEnd, LineEnd;
    AgreeBounds(doc, p, e, doc', p', e');
    StraySlash(doc, p, b, e);
    AgreeAt(doc, p, e, doc', p', e', p + 1, p' + 1);
    ScannedToken(doc, p);
    ScannedToken(doc', p');
  }

  lemma NoStrayString(doc: Bytes, p: nat, b: nat, e: nat)
    requires p < |doc| && doc[p] == QUOTE && Closes(doc, TokenAt(doc, p).end, b, e)
    ensures TokenAt(doc, p).kind == StringToken
  {
    ScannedToken(doc, p);
    hide TokenAt;
    if !StringEnd(doc, p + 1).ok { UnclosedString(doc, p + 1); }
  }

  lemma StrayTokenLocal(doc: Bytes, p: nat, e: nat, doc': Bytes, p': nat, e': nat, b: nat)
    requires Agree(doc, p, e, doc', p', e') && Closes(doc, TokenAt(doc, p).end, b, e)
    requires TokenAt(doc, p).kind in {ErrorToken, EndOfStream}
    ensures Moved(TokenAt(doc, p), p, TokenAt(doc', p'), p')
  {
    hide Agree, StringEnd, CommentEnd, NumberEnd, Match;
    AgreeBounds(doc, p, e, doc', p', e');
    if doc[p] in {116, 102, 110} {
      StrayWordLocal(doc, p, e, doc', p', e', b);
    } else if doc[p] == QUOTE {
      NoStrayString(doc, p, b, e);
    } else if doc[p] == SLASH {
      StraySlashLocal(doc, p, e, doc', p', e', b);
    }
  }

  lemma StrayLocal(doc: Bytes, p: nat, e: nat, doc': Bytes, p': nat, e': nat, b: nat)
    requires Agree(doc, p, e, doc', p', e') && Closes(doc, ReadToken(doc, p).end, b, e)
    ensures Moved(ReadToken(doc, p), p, ReadToken(doc', p'), p')
  {
    hide TokenAt, Agree;
    AgreeBounds(doc, p, e, doc', p', e');
    if ReadToken(doc, p).kind in {ErrorToken, EndOfStream} {
      var k := SkipSpaces(doc, p);
      SpacesLocal(doc, p, e, doc', p', e');
      var k' := SkipSpaces(doc', p');
      AgreeAt(doc, p, e, doc', p', e', k, k');
      StrayTokenLocal(doc, k, e, doc', k', e', b);
    } else {
      ReadTokenLocal(doc, p, e, doc', p', e');
    }
  }

  // The next token that is no comment, in a stretch that holds it; any token if a brace follows.
  lemma {:induction false} NextTokenLocal(doc: Bytes, p: nat, e: nat, doc': Bytes, p': nat, e': nat, b: nat)
    requires Agree(doc, p, e, doc', p', e')
    requires Covered(NextToken(doc, p), e, doc', e') || Closes(doc, NextToken(doc, p).end, b, e)
    ensures Moved(NextToken(doc, p), p, NextToken(doc', p'), p')
    decreases e - p
  {
    hide TokenAt, ReadToken, Agree;
    AgreeBounds(doc, p, e, doc', p', e');
    var t, t' := ReadToken(doc, p), ReadToken(doc', p');
    if t.kind == CommentToken {
      ReadTokenLocal(doc, p, e, doc', p', e');
      AgreeAt(doc, p, e, doc', p', e', t.end, t'.end);
      NextTokenLocal(doc, t.end, e, doc', t'.end, e', b);
    } else if Covered(t, e, doc', e') {
      ReadTokenLocal(doc, p, e, doc', p', e');
    } else {
      StrayLocal(doc, p, e, doc', p', e', b);
    }
  }

  lemma ValueTokenLocal(comments: bool, doc: Bytes, p: nat, e: nat, doc': Bytes, p': nat, e': nat)
    requires Agree(doc, p, e, doc', p', e') && Covered(ValueToken(comments, doc, p), e, doc', e')
    ensures Moved(ValueToken(comments, doc, p), p, ValueToken(comments, doc', p'), p')
  {
    hide TokenAt, ReadToken, NextToken, Agree;
    AgreeBounds(doc, p, e, doc', p', e');
    if comments {
      NextTokenLocal(doc, p, e, doc', p', e', 0);
    } else {
      ReadTokenLocal(doc, p, e, doc', p', e');
    }
  }

  // --- Strings ---

  lemma HexLocal(doc: Bytes, p: nat, e: nat, doc': Bytes, p': nat, e': nat)
    requires Agree(doc, p, e, doc', p', e') && HexQuad(doc, p, e).Code?
    ensures HexQuad(doc', p', e') == Code(HexQuad(doc, p, e).value, p' + 4)
  {
    AgreeBounds(doc, p, e, doc', p', e');
    AgreeAt(doc, p, e, doc', p', e', p + 1, p' + 1);
    AgreeAt(doc, p, e, doc', p', e', p + 2, p' + 2);
    AgreeAt(doc, p, e, doc', p', e', p + 3, p' + 3);
    hide Agree;
  }

  lemma CodePointLocal(doc: Bytes, p: nat, e: nat, doc': Bytes, p': nat, e': nat)
    requires Agree(doc, p, e, doc', p', e') && DecodeCodePoint(doc, p, e).Code?
    ensures var c, c' := DecodeCodePoint(doc, p, e), DecodeCodePoint(doc', p', e');
      c'.Code? && c'.value == c.value && c'.next - p' == c.next - p
  {
    hide HexQuad, Agree;
    AgreeBounds(doc, p, e, doc', p', e');
    HexLocal(doc, p, e, doc', p', e');
    var first := HexQuad(doc, p, e);
    if 0xD800 <= first.value <= 0xDBFF {
      AgreeAt(doc, p, e, doc', p', e', p + 4, p' + 4);
      AgreeAt(doc, p, e, doc', p', e', p + 5, p' + 5);
      AgreeAt(doc, p, e, doc', p', e', p + 6, p' + 6);
      HexLocal(doc, p + 6, e, doc', p' + 6, e');
    }
  }

  lemma {:induction false} DecodeLocal(doc: Bytes, p: nat, e: nat, doc': Bytes, p': nat, e': nat, decoded: Bytes)
    requires Agree(doc, p, e, doc', p', e') && Decode(doc, p, e, decoded).Chars?
    ensures Decode(doc', p', e', decoded) == Decode(doc, p, e, decoded)
    decreases e - p
  {
    hide DecodeCodePoint, CodePointToUtf8, ShortEscape, Agree;
    AgreeBounds(doc, p, e, doc', p', e');
    if p < e && doc[p] != QUOTE {
      AgreeAt(doc, p, e, doc', p', e', p + 1, p' + 1);
      if doc[p] != BACKSLASH {
        DecodeLocal(doc, p + 1, e, doc', p' + 1, e', decoded + [doc[p]]);
      } else {
        AgreeAt(doc, p, e, doc', p', e', p + 2, p' + 2);
        if ShortEscape(doc[p + 1]) != [] {
          DecodeLocal(doc, p + 2, e, doc', p' + 2, e', decoded + ShortEscape(doc[p + 1]));
        } else {
          CodePointLocal(doc, p + 2, e, doc', p' + 2, e');
          var c, c' := DecodeCodePoint(doc, p + 2, e), DecodeCodePoint(doc', p' + 2, e');
          AgreeAt(doc, p, e, doc', p', e', c.next, c'.next);
          DecodeLocal(doc, c.next, e, doc', c'.next, e', decoded + CodePointToUtf8(c.value));
        }
      }
    }
  }

  // Agreement up to earlier ends.
  lemma AgreeUpTo(doc: Bytes, p: nat, e: nat, doc': Bytes, p': nat, e': nat, q: nat, q': nat)
    requires Agree(doc, p, e, doc', p', e') && p <= q <= e && q - p == q' - p'
    ensures Agree(doc, p, q, doc', p', q')
  {
  }

  lemma LiteralLocal(doc: Bytes, p: nat, e: nat, doc': Bytes, p': nat, e': nat, t: Token, t': Token)
    requires Agree(doc, p, e, doc', p', e') && p <= t.start && t.start + 2 <= t.end <= e && Moved(t, p, t', p')
    requires Decode(doc, t.start + 1, t.end - 1, []).Chars?
    ensures t'.start + 2 <= t'.end <= |doc'|
    ensures Decode(doc', t'.start + 1, t'.end - 1, []) == Decode(doc, t.start + 1, t.end - 1, [])
  {
    hide Decode, Agree;
    AgreeBounds(doc, p, e, doc', p', e');
    AgreeAt(doc, p, e, doc', p', e', t.start + 1, t'.start + 1);
    AgreeUpTo(doc, t.start + 1, e, doc', t'.start + 1, e', t.end - 1, t'.end - 1);
    DecodeLocal(doc, t.start + 1, t.end - 1, doc', t'.start + 1, t'.end - 1, []);
  }

  lemma TextLocal(doc: Bytes, p: nat, e: nat, doc': Bytes, p': nat, e': nat, t: Token, t': Token)
    requires Agree(doc, p, e, doc', p', e') && p <= t.start <= t.end <= e && Moved(t, p, t', p')
    ensures t'.start <= t'.end <= |doc'| && doc[t.start..t.end] == doc'[t'.start..t'.end]
  {
    hide Agree;
    AgreeBounds(doc, p, e, doc', p', e');
    AgreeAt(doc, p, e, doc', p', e', t.start, t'.start);
    AgreeUpTo(doc, t.start, e, doc', t'.start, e', t.end, t'.end);
    AgreeSlice(doc, t.start, t.end, doc', t'.start, t'.end);
  }

  // --- Values ---

  // Reading of doc stopped within the agreeing bytes; what follows them in doc' does not prolong a number.
  ghost predicate Inside(pos: nat, e: nat, doc': Bytes, e': nat) {
    pos <= e && (pos < e || !IsNumeric(Peek(doc', e')))
  }

  lemma {:induction false} ValueLocal(
      f: Features, scan: Scanner, doc: Bytes, p: nat, e: nat, init: Node, doc': Bytes, p': nat, e': nat, init': Node)
    requires Agree(doc, p, e, doc', p', e')
    requires var r := ReadValue(f, scan, doc, p, init);
      r.Good? && Inside(r.pos, e, doc', e')
    ensures p' <= |doc'|
    ensures var r, r' := ReadValue(f, scan, doc, p, init), ReadValue(f, scan, doc', p', init');
      r'.Good? && r'.node.value == r.node.value && r'.pos - p' == r.pos - p
    decreases e - p, 0
  {
    hide ValueToken, Decode, NumberValue, ReadArray, ReadMembers, IsNumeric, Agree;
    AgreeBounds(doc, p, e, doc', p', e');
    var t, t' := ValueToken(f.allowComments, doc, p), ValueToken(f.allowComments, doc', p');
    ValueTokenLocal(f.allowComments, doc, p, e, doc', p', e');
    AgreeAt(doc, p, e, doc', p', e', t.end, t'.end);
    match t.kind {
      case ObjectBegin =>
        var none := Entries([], []);
        MembersLocal(f, scan, doc, t.end, e, [], none, doc', t'.end, e', none);
      case ArrayBegin =>
        ArrayLocal(f, scan, doc, t.end, e, doc', t'.end, e');
      case NumberToken =>
        TextLocal(doc, p, e, doc', p', e', t, t');
      case StringToken =>
        LiteralLocal(doc, p, e, doc', p', e', t, t');
      case _ =>
    }
  }

  // A finished list has read past its closing bracket.
  lemma ElementsMove(f: Features, scan: Scanner, doc: Bytes, p: nat, items: seq<Json>, kids: seq<Spans>)
    requires p <= |doc|
    ensures var l := ReadElements(f, scan, doc, p, items, kids);
      l.end.None? ==> p < l.pos
  {
    hide TokenAt, ReadToken, Recover, ReadValue;
  }

  lemma {:induction false} ArrayLocal(
      f: Features, scan: Scanner, doc: Bytes, p: nat, e: nat, doc': Bytes, p': nat, e': nat)
    requires Agree(doc, p, e, doc', p', e')
    requires var l := ReadArray(f, scan, doc, p);
      l.end.None? && l.pos <= e
    ensures p' <= |doc'|
    ensures var l, l' := ReadArray(f, scan, doc, p), ReadArray(f, scan, doc', p');
      l'.end.None? && l'.items == l.items && l'.pos - p' == l.pos - p
    decreases e - p, 2
  {
    hide ReadElements, Agree;
    AgreeBounds(doc, p, e, doc', p', e');
    var q := SkipSpaces(doc, p);
    ElementsMove(f, scan, doc, q, [], []);
    SpacesLocal(doc, p, e, doc', p', e');
    var q' := SkipSpaces(doc', p');
    AgreeAt(doc, p, e, doc', p', e', q, q');
    if doc[q] != CLOSE_ARRAY {
      ElementsLocal(f, scan, doc, q, e, [], [], doc', q', e', []);
    }
  }

  lemma {:induction false} ElementsLocal(
      f: Features, scan: Scanner, doc: Bytes, p: nat, e: nat, items: seq<Json>, kids: seq<Spans>,
      doc': Bytes, p': nat, e': nat, kids': seq<Spans>)
    requires Agree(doc, p, e, doc', p', e')
    requires var l := ReadElements(f, scan, doc, p, items, kids);
      l.end.None? && l.pos <= e
    ensures p' <= |doc'|
    ensures var l, l' := ReadElements(f, scan, doc, p, items, kids), ReadElements(f, scan, doc', p', items, kids');
      l'.end.None? && l'.items == l.items && l'.pos - p' == l.pos - p
    decreases e - p, 1
  {
    hide TokenAt, ReadToken, NextToken, Recover, ReadValue, IsNumeric, Agree;
    AgreeBounds(doc, p, e, doc', p', e');
    var v, v' := ReadValue(f, scan, doc, p, FRESH), ReadValue(f, scan, doc', p', FRESH);
    var t := NextToken(doc, v.pos);
    ValueLocal(f, scan, doc, p, e, FRESH, doc', p', e', FRESH);
    AgreeAt(doc, p, e, doc', p', e', v.pos, v'.pos);
    NextTokenLocal(doc, v.pos, e, doc', v'.pos, e', 0);
    var t' := NextToken(doc', v'.pos);
    if t.kind != ArrayEnd {
      AgreeAt(doc, p, e, doc', p', e', t.end, t'.end);
      ElementsLocal(f, scan, doc, t.end, e, items + [v.node.value], kids + [v.node.spans],
        doc', t'.end, e', kids' + [v'.node.spans]);
    }
  }

  lemma MemberMoves(f: Features, scan: Scanner, doc: Bytes, p: nat, name: Bytes, read: Entries)
    requires p <= |doc| && Paired(read)
    ensures var g := ReadMember(f, scan, doc, p, name, read);
      g.end.None? ==> p < g.pos && Closes(doc, p, g.pos - 1, g.pos)
    decreases |doc| - p, 1
  {
    hide TokenAt, ReadToken, Recover, ReadValue, AfterMember, CString;
    var colon := ReadToken(doc, p);
    if colon.kind == MemberSeparator {
      var v := ReadValue(f, scan, doc, colon.end, Lookup(read, CString(name)));
      AfterMoves(f, scan, doc, v.pos, name, Store(read, CString(name), v.node));
    }
  }

  lemma {:induction false} MembersLocal(
      f: Features, scan: Scanner, doc: Bytes, p: nat, e: nat, name: Bytes, read: Entries,
      doc': Bytes, p': nat, e': nat, read': Entries)
    requires Agree(doc, p, e, doc', p', e') && Paired(read) && Paired(read') && read'.members == read.members
    requires var g := ReadMembers(f, scan, doc, p, name, read);
      g.end.None? && g.pos <= e
    ensures p' <= |doc'|
    ensures var g, g' := ReadMembers(f, scan, doc, p, name, read), ReadMembers(f, scan, doc', p', name, read');
      g'.end.None? && g'.entries.members == g.entries.members && g'.pos - p' == g.pos - p
    decreases e - p, 1
  {
    hide TokenAt, ReadToken, NextToken, Recover, Decode, ReadMember, IsNumeric, Agree;
    AgreeBounds(doc, p, e, doc', p', e');
    var t, t' := NextToken(doc, p), NextToken(doc', p');
    if t.kind == StringToken {
      var name1 := Decode(doc, t.start + 1, t.end - 1, []).s;
      MemberMoves(f, scan, doc, t.end, name1, read);
      NextTokenLocal(doc, p, e, doc', p', e', 0);
      LiteralLocal(doc, p, e, doc', p', e', t, t');
      AgreeAt(doc, p, e, doc', p', e', t.end, t'.end);
      MemberLocal(f, scan, doc, t.end, e, name1, read, doc', t'.end, e', read');
    } else {
      NextTokenLocal(doc, p, e, doc', p', e', 0);
    }
  }

  lemma StoreSame(read: Entries, read': Entries, name: Bytes, n: Node, n': Node)
    requires Paired(read) && Paired(read') && read'.members == read.members && n'.value == n.value
    ensures Store(read', name, n').members == Store(read, name, n).members
  {
  }

  lemma BraceEnds(doc: Bytes, p: nat)
    requires p <= |doc| && ReadToken(doc, p).kind == ObjectEnd
    ensures var t := ReadToken(doc, p);
      p < t.end && doc[t.end - 1] == CLOSE_OBJECT
  {
    hide StringEnd, CommentEnd, NumberEnd, Match;
  }

  lemma {:induction false} EndsInBrace(doc: Bytes, p: nat)
    requires p <= |doc| && NextToken(doc, p).kind == ObjectEnd
    ensures var t := NextToken(doc, p);
      p < t.end && doc[t.end - 1] == CLOSE_OBJECT
    decreases |doc| - p
  {
    hide TokenAt, ReadToken;
    if ReadToken(doc, p).kind == CommentToken { EndsInBrace(doc, ReadToken(doc, p).end); } else { BraceEnds(doc, p); }
  }

  lemma AfterMoves(f: Features, scan: Scanner, doc: Bytes, p: nat, name: Bytes, read: Entries)
    requires p <= |doc| && Paired(read)
    ensures var g := AfterMember(f, scan, doc, p, name, read);
      g.end.None? ==> p < g.pos && Closes(doc, p, g.pos - 1, g.pos)
    decreases |doc| - p, 1
  {
    hide TokenAt, ReadToken, NextToken, Recover, ReadMembers;
    var comma := CommaToken(doc, p);
    if AfterMember(f, scan, doc, p, name, read).end.Some? {
    } else if comma.kind == ObjectEnd {
      if ReadToken(doc, p).kind == CommentToken { EndsInBrace(doc, ReadToken(doc, p).end); } else { BraceEnds(doc, p); }
    } else {
      MembersMove(f, scan, doc, comma.end, name, read);
    }
  }

  lemma {:induction false} MemberLocal(
      f: Features, scan: Scanner, doc: Bytes, p: nat, e: nat, name: Bytes, read: Entries,
      doc': Bytes, p': nat, e': nat, read': Entries)
    requires Agree(doc, p, e, doc', p', e') && Paired(read) && Paired(read') && read'.members == read.members
    requires var g := ReadMember(f, scan, doc, p, name, read);
      g.end.None? && g.pos <= e
    ensures p' <= |doc'|
    ensures var g, g' := ReadMember(f, scan, doc, p, name, read), ReadMember(f, scan, doc', p', name, read');
      g'.end.None? && g'.entries.members == g.entries.members && g'.pos - p' == g.pos - p
    decreases e - p, 1
  {
    hide TokenAt, ReadToken, Recover, ReadValue, AfterMember, IsNumeric, CString, Agree, Lookup, Store;
    AgreeBounds(doc, p, e, doc', p', e');
    var colon, colon' := ReadToken(doc, p), ReadToken(doc', p');
    var key := CString(name);
    var init, init' := Lookup(read, key), Lookup(read', key);
    var v := ReadValue(f, scan, doc, colon.end, init);
    var read1 := Store(read, key, v.node);
    AfterMoves(f, scan, doc, v.pos, name, read1);
    ReadTokenLocal(doc, p, e, doc', p', e');
    AgreeAt(doc, p, e, doc', p', e', colon.end, colon'.end);
    ValueLocal(f, scan, doc, colon.end, e, init, doc', colon'.end, e', init');
    var v' := ReadValue(f, scan, doc', colon'.end, init');
    AgreeAt(doc, p, e, doc', p', e', v.pos, v'.pos);
    StoreSame(read, read', key, v.node, v'.node);
    AfterLocal(f, scan, doc, v.pos, e, name, read1, doc', v'.pos, e', Store(read', key, v'.node));
  }

  // The token behind a member, in a stretch that goes on to the closing brace.
  lemma CommaLocal(doc: Bytes, p: nat, e: nat, doc': Bytes, p': nat, e': nat, b: nat)
    requires Agree(doc, p, e, doc', p', e')
    requires ReadToken(doc, p).kind in {ObjectEnd, ArraySeparator, CommentToken}
    requires CommaToken(doc, p).end <= e
      && (CommaToken(doc, p).kind != ObjectEnd ==> Closes(doc, CommaToken(doc, p).end, b, e))
    ensures ReadToken(doc', p').kind == ReadToken(doc, p).kind && Moved(CommaToken(doc, p), p, CommaToken(doc', p'), p')
  {
    hide TokenAt, ReadToken, NextToken, IsNumeric, Agree;
    AgreeBounds(doc, p, e, doc', p', e');
    var first, first' := ReadToken(doc, p), ReadToken(doc', p');
    ReadTokenLocal(doc, p, e, doc', p', e');
    if first.kind == CommentToken {
      AgreeAt(doc, p, e, doc', p', e', first.end, first'.end);
      NextTokenLocal(doc, first.end, e, doc', first'.end, e', b);
    }
  }

  lemma CommaMoves(doc: Bytes, p: nat)
    requires p <= |doc| && ReadToken(doc, p).kind in {ObjectEnd, ArraySeparator, CommentToken}
    ensures p < CommaToken(doc, p).end
  {
    hide TokenAt, NextToken;
  }

  lemma MembersMove(f: Features, scan: Scanner, doc: Bytes, p: nat, name: Bytes, read: Entries)
    requires p <= |doc| && Paired(read)
    ensures var g := ReadMembers(f, scan, doc, p, name, read);
      g.end.None? ==> p < g.pos && Closes(doc, p, g.pos - 1, g.pos)
    decreases |doc| - p, 1
  {
    hide TokenAt, ReadToken, NextToken, Recover, Decode, ReadMember;
    var t := NextToken(doc, p);
    if t.kind == ObjectEnd && name == [] {
      EndsInBrace(doc, p);
    } else if t.kind == StringToken && Decode(doc, t.start + 1, t.end - 1, []).Chars? {
      MemberMoves(f, scan, doc, t.end, Decode(doc, t.start + 1, t.end - 1, []).s, read);
    }
  }

  lemma {:induction false} AfterLocal(
      f: Features, scan: Scanner, doc: Bytes, p: nat, e: nat, name: Bytes, read: Entries,
      doc': Bytes, p': nat, e': nat, read': Entries)
    requires Agree(doc, p, e, doc', p', e') && Paired(read) && Paired(read') && read'.members == read.members
    requires var g := AfterMember(f, scan, doc, p, name, read);
      g.end.None? && g.pos <= e
    ensures p' <= |doc'|
    ensures var g, g' := AfterMember(f, scan, doc, p, name, read), AfterMember(f, scan, doc', p', name, read');
      g'.end.None? && g'.entries.members == g.entries.members && g'.pos - p' == g.pos - p
    decreases e - p, 1
  {
    hide TokenAt, ReadToken, CommaToken, Recover, ReadMembers, Agree;
    AgreeBounds(doc, p, e, doc', p', e');
    var comma, comma' := CommaToken(doc, p), CommaToken(doc', p');
    CommaMoves(doc, p);
    var b := AfterMember(f, scan, doc, p, name, read).pos - 1;
    if comma.kind != ObjectEnd { MembersMove(f, scan, doc, comma.end, name, read); }
    CommaLocal(doc, p, e, doc', p', e', b);
    if comma.kind != ObjectEnd {
      AgreeAt(doc, p, e, doc', p', e', comma.end, comma'.end);
      MembersLocal(f, scan, doc, comma.end, e, name, read, doc', comma'.end, e', read');
    }
  }
}
