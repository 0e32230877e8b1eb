/** Lexing is local: what a token is depends only on its own bytes, and for a number and a line
    comment on the byte that ends it. */
module JsonLocal {
  import opened Common
  import opened JsonText
  import opened JsonString
  import opened JsonLexer

  // The bytes of doc from p to e are those of doc' from p' to e'.
  ghost predicate Agree(doc: Bytes, p: nat, e: nat, doc': Bytes, p': nat, e': nat) {
    && p <= e <= |doc| && p' <= e' <= |doc'| && e - p == e' - p'
    && forall i | p <= i < e :: doc[i] == doc'[i - p + p']
  }

  lemma AgreeBounds(doc: Bytes, p: nat, e: nat, doc': Bytes, p': nat, e': nat)
    requires Agree(doc, p, e, doc', p', e')
    ensures p <= e <= |doc| && p' <= e' <= |doc'| && e - p == e' - p'
    ensures p < e ==> doc[p] == doc'[p']
  {
  }

  // The same from later positions on.
  lemma AgreeAt(doc: Bytes, p: nat, e: nat, doc': Bytes, p': nat, e': nat, q: nat, q': nat)
    requires Agree(doc, p, e, doc', p', e') && p <= q <= e && q - p == q' - p'
    ensures Agree(doc, q, e, doc', q', e') && (q < e ==> doc[q] == doc'[q'])
  {
    forall i | q <= i < e ensures doc[i] == doc'[i - q + q'] {
      assert i - q + q' == i - p + p';
    }
  }

  lemma AgreeSlice(doc: Bytes, p: nat, e: nat, doc': Bytes, p': nat, e': nat)
    requires Agree(doc, p, e, doc', p', e')
    ensures doc[p..e] == doc'[p'..e']
  {
    forall i | 0 <= i < e - p ensures doc[p..e][i] == doc'[p'..e'][i] {
      assert doc[p + i] == doc'[p + i - p + p'];
    }
  }

  lemma {:induction false} SpacesLocal(doc: Bytes, p: nat, e: nat, doc': Bytes, p': nat, e': nat)
    requires Agree(doc, p, e, doc', p', e') && SkipSpaces(doc, p) < e
    ensures SkipSpaces(doc', p') - p' == SkipSpaces(doc, p) - p
    decreases e - p
  {
    hide Agree;
    AgreeBounds(doc, p, e, doc', p', e');
    if IsSpace(doc[p]) {
      AgreeAt(doc, p, e, doc', p', e', p + 1, p' + 1);
      SpacesLocal(doc, p + 1, e, doc', p' + 1, e');
    }
  }

  lemma {:induction false} NumberLocal(doc: Bytes, p: nat, e: nat, doc': Bytes, p': nat, e': nat)
    requires Agree(doc, p, e, doc', p', e') && NumberEnd(doc, p) <= e
    requires NumberEnd(doc, p) < e || !IsNumeric(Peek(doc', e'))
    ensures NumberEnd(doc', p') - p' == NumberEnd(doc, p) - p
    decreases e - p
  {
    hide Agree;
    AgreeBounds(doc, p, e, doc', p', e');
    if p < e && IsNumeric(doc[p]) {
      AgreeAt(doc, p, e, doc', p', e', p + 1, p' + 1);
      NumberLocal(doc, p + 1, e, doc', p' + 1, e');
    }
  }

  lemma {:induction false} StringLocal(doc: Bytes, p: nat, e: nat, doc': Bytes, p': nat, e': nat)
    requires Agree(doc, p, e, doc', p', e') && StringEnd(doc, p).ok && StringEnd(doc, p).end <= e
    ensures StringEnd(doc', p').ok && StringEnd(doc', p').end - p' == StringEnd(doc, p).end - p
    decreases e - p
  {
    hide Agree;
    AgreeBounds(doc, p, e, doc', p', e');
    if doc[p] == BACKSLASH {
      AgreeAt(doc, p, e, doc', p', e', p + 2, p' + 2);
      StringLocal(doc, p + 2, e, doc', p' + 2, e');
    } else if doc[p] != QUOTE {
      AgreeAt(doc, p, e, doc', p', e', p + 1, p' + 1);
      StringLocal(doc, p + 1, e, doc', p' + 1, e');
    }
  }

  lemma {:induction false} StarLocal(doc: Bytes, p: nat, e: nat, doc': Bytes, p': nat, e': nat)
    requires Agree(doc, p, e, doc', p', e') && StarEnd(doc, p) < e && Peek(doc, StarEnd(doc, p)) == SLASH
    ensures StarEnd(doc', p') - p' == StarEnd(doc, p) - p
    ensures Peek(doc', StarEnd(doc', p')) == SLASH
    decreases e - p
  {
    hide Agree;
    AgreeBounds(doc, p, e, doc', p', e');
    AgreeAt(doc, p, e, doc', p', e', p + 1, p' + 1);
    if !(doc[p] == STAR && Peek(doc, p + 1) == SLASH) {
      StarLocal(doc, p + 1, e, doc', p' + 1, e');
    }
  }

  lemma {:induction false} LineLocal(doc: Bytes, p: nat, e: nat, doc': Bytes, p': nat, e': nat)
    requires Agree(doc, p, e, doc', p', e') && LineEnd(doc, p) < e
    ensures LineEnd(doc', p') - p' == LineEnd(doc, p) - p
    decreases e - p
  {
    hide Agree;
    AgreeBounds(doc, p, e, doc', p', e');
    if doc[p] != RETURN && doc[p] != NEWLINE {
      AgreeAt(doc, p, e, doc', p', e', p + 1, p' + 1);
      LineLocal(doc, p + 1, e, doc', p' + 1, e');
    }
  }

  lemma CommentLocal(doc: Bytes, p: nat, e: nat, doc': Bytes, p': nat, e': nat)
    requires Agree(doc, p, e, doc', p', e') && CommentEnd(doc, p).ok && CommentEnd(doc, p).end < e
    ensures CommentEnd(doc', p').ok && CommentEnd(doc', p').end - p' == CommentEnd(doc, p).end - p
  {
    hide Agree, StarEnd, LineEnd;
    AgreeBounds(doc, p, e, doc', p', e');
    AgreeAt(doc, p, e, doc', p', e', p + 1, p' + 1);
    if doc[p] == STAR {
      StarLocal(doc, p + 1, e, doc', p' + 1, e');
    } else {
      LineLocal(doc, p + 1, e, doc', p' + 1, e');
    }
  }

  lemma MatchLocal(doc: Bytes, p: nat, e: nat, doc': Bytes, p': nat, e': nat, pattern: Bytes)
    requires Agree(doc, p, e, doc', p', e') && Match(doc, p, pattern).ok && p + |pattern| <= e
    ensures Match(doc', p', pattern) == Span(true, p' + |pattern|)
  {
    forall i | 0 <= i < |pattern| ensures doc'[p' + i] == pattern[i] {
      assert doc[p..p + |pattern|][i] == doc[p + i];
      assert p + i - p + p' == p' + i;
    }
    assert doc'[p'..p' + |pattern|] == pattern;
  }

  // A token a value can be made of.
  ghost predicate IsSolid(kind: TokenType) {
    kind != EndOfStream && kind != CommentToken && kind != ErrorToken
  }

  // The same token, as far from p' as t is from p.
  ghost predicate Moved(t: Token, p: nat, t': Token, p': nat) {
    t'.kind == t.kind && t'.start - p' == t.start - p && t'.end - p' == t.end - p
  }

  // A token within the agreeing bytes; only a number may end where they end.
  ghost predicate Covered(t: Token, e: nat, doc': Bytes, e': nat) {
    && t.end <= e && (IsSolid(t.kind) || (t.kind == CommentToken && t.end < e))
    && (t.kind == NumberToken && t.end == e ==> !IsNumeric(Peek(doc', e')))
  }

  lemma WordLocal(doc: Bytes, p: nat, e: nat, doc': Bytes, p': nat, e': nat)
    requires Agree(doc, p, e, doc', p', e') && p < e && Covered(TokenAt(doc, p), e, doc', e')
    requires doc[p] in {116, 102, 110}
    ensures Moved(TokenAt(doc, p), p, TokenAt(doc', p'), p')
  {
    hide Agree, StringEnd, CommentEnd, NumberEnd;
    AgreeBounds(doc, p, e, doc', p', e');
    var pattern := if doc[p] == 116 then RUE else if doc[p] == 102 then ALSE else ULL;
    AgreeAt(doc, p, e, doc', p', e', p + 1, p' + 1);
    MatchLocal(doc, p + 1, e, doc', p' + 1, e', pattern);
  }

  lemma ScannedToken(doc: Bytes, p: nat)
    requires p < |doc|
    ensures doc[p] == QUOTE ==> TokenAt(doc, p) == Lexeme(StringToken, p, StringEnd(doc, p + 1))
    ensures doc[p] == SLASH ==> TokenAt(doc, p) == Lexeme(CommentToken, p, CommentEnd(doc, p + 1))
    ensures IsDigit(doc[p]) || doc[p] == MINUS ==> TokenAt(doc, p) == Token(NumberToken, p, NumberEnd(doc, p + 1))
  {
    hide StringEnd, CommentEnd, NumberEnd, Match;
  }

  lemma ScanLocal(doc: Bytes, p: nat, e: nat, doc': Bytes, p': nat, e': nat)
    requires Agree(doc, p, e, doc', p', e') && p < e && Covered(TokenAt(doc, p), e, doc', e')
    requires doc[p] == QUOTE || doc[p] == SLASH || IsDigit(doc[p]) || doc[p] == MINUS
    ensures Moved(TokenAt(doc, p), p, TokenAt(doc', p'), p')
  {
    hide Agree, TokenAt, StringEnd, CommentEnd, NumberEnd;
    AgreeBounds(doc, p, e, doc', p', e');
    ScannedToken(doc, p);
    ScannedToken(doc', p');
    AgreeAt(doc, p, e, doc', p', e', p + 1, p' + 1);
    if doc[p] == QUOTE {
      StringLocal(doc, p + 1, e, doc', p' + 1, e');
    } else if doc[p] == SLASH {
      CommentLocal(doc, p + 1, e, doc', p' + 1, e');
    } else {
      NumberLocal(doc, p + 1, e, doc', p' + 1, e');
    }
  }

  lemma TokenLocal(doc: Bytes, p: nat, e: nat, doc': Bytes, p': nat, e': nat)
    requires Agree(doc, p, e, doc', p', e') && p < e && Covered(TokenAt(doc, p), e, doc', e')
    ensures Moved(TokenAt(doc, p), p, TokenAt(doc', p'), p')
  {
    hide Agree;
    AgreeBounds(doc, p, e, doc', p', e');
    if doc[p] in {116, 102, 110} {
      WordLocal(doc, p, e, doc', p', e');
    } else if doc[p] == QUOTE || doc[p] == SLASH || IsDigit(doc[p]) || doc[p] == MINUS {
      ScanLocal(doc, p, e, doc', p', e');
    }
  }
}
