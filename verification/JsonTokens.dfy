/** Token texts and the token after token reading of a document, apart from what the tokens mean. */
module JsonTokens {
  import opened Common
  import opened JsonText
  import opened JsonLexer
  import opened JsonLocal
  import opened JsonSyntax

  // A text that is one token when it stands alone.
  ghost predicate IsTokenText(tok: Bytes) {
    IsSolid(TokenAt(tok, 0).kind) && TokenAt(tok, 0).end == |tok|
  }

  predicate NumberText(tok: Bytes) {
    tok != [] && (IsDigit(tok[0]) || tok[0] == MINUS)
  }

  ghost predicate AllTokenTexts(toks: seq<Bytes>) {
    forall i | 0 <= i < |toks| :: IsTokenText(toks[i])
  }

  // No number is followed by what could be more of it.
  ghost predicate KeptApart(toks: seq<Bytes>) {
    forall i, j | 0 <= i < |toks| && j == i + 1 < |toks| ::
      NumberText(toks[i]) && toks[j] != [] ==> !IsNumeric(toks[j][0])
  }

  // Reading token after token from p gives these texts and stops at q.
  ghost predicate Reads(doc: Bytes, p: nat, toks: seq<Bytes>, q: nat)
    requires p <= |doc|
    decreases |toks|
  {
    if toks == [] then p == q
    else
      var t := ReadToken(doc, p);
      IsSolid(t.kind) && doc[t.start..t.end] == toks[0] && Reads(doc, t.end, toks[1..], q)
  }

  // The next token has this text.
  ghost predicate Lexes(doc: Bytes, p: nat, tok: Bytes)
    requires p <= |doc|
  {
    var t := ReadToken(doc, p);
    IsSolid(t.kind) && doc[t.start..t.end] == tok
  }

  lemma ReadsOne(doc: Bytes, p: nat, tok: Bytes, rest: seq<Bytes>, q: nat)
    requires p <= |doc| && Reads(doc, p, [tok] + rest, q)
    ensures Lexes(doc, p, tok) && Reads(doc, ReadToken(doc, p).end, rest, q)
  {
    assert ([tok] + rest)[0] == tok && ([tok] + rest)[1..] == rest;
  }

  lemma ReadsMore(doc: Bytes, p: nat, tok: Bytes, rest: seq<Bytes>, q: nat)
    requires p <= |doc| && Lexes(doc, p, tok) && Reads(doc, ReadToken(doc, p).end, rest, q)
    ensures Reads(doc, p, [tok] + rest, q)
  {
    assert ([tok] + rest)[0] == tok && ([tok] + rest)[1..] == rest;
  }

  lemma {:induction false} ReadsJoin(doc: Bytes, p: nat, a: seq<Bytes>, m: nat, b: seq<Bytes>, q: nat)
    requires p <= |doc| && m <= |doc| && Reads(doc, p, a, m) && Reads(doc, m, b, q)
    ensures Reads(doc, p, a + b, q)
    decreases |a|
  {
    hide TokenAt, ReadToken;
    if a == [] {
      assert a + b == b;
    } else {
      ReadsJoin(doc, ReadToken(doc, p).end, a[1..], m, b, q);
      assert (a + b)[0] == a[0] && (a + b)[1..] == a[1..] + b;
    }
  }

  lemma {:induction false} ReadsEnd(doc: Bytes, p: nat, toks: seq<Bytes>, q: nat)
    requires p <= |doc| && Reads(doc, p, toks, q)
    ensures p <= q <= |doc|
    decreases |toks|
  {
    if toks != [] {
      ReadsEnd(doc, ReadToken(doc, p).end, toks[1..], q);
    }
  }

  lemma {:induction false} ReadsSplit(doc: Bytes, p: nat, a: seq<Bytes>, b: seq<Bytes>, q: nat) returns (m: nat)
    requires p <= |doc| && Reads(doc, p, a + b, q)
    ensures p <= m <= |doc| && Reads(doc, p, a, m) && Reads(doc, m, b, q)
    decreases |a|
  {
    if a == [] {
      m := p;
      assert a + b == b;
    } else {
      assert (a + b)[1..] == a[1..] + b && (a + b)[0] == a[0];
      m := ReadsSplit(doc, ReadToken(doc, p).end, a[1..], b, q);
    }
  }

  // --- Punctuation, words and numbers are tokens ---

  lemma PunctuationIsToken()
    ensures forall c: Byte | c in {COMMA, COLON, OPEN_ARRAY, CLOSE_ARRAY, OPEN_OBJECT, CLOSE_OBJECT} :: IsTokenText([c])
  {
    forall c: Byte | c in {COMMA, COLON, OPEN_ARRAY, CLOSE_ARRAY, OPEN_OBJECT, CLOSE_OBJECT} ensures IsTokenText([c]) {
      assert !IsSpace([c][0]);
    }
  }

  lemma WordIsToken(tok: Bytes)
    requires tok in {TRUE_TEXT, FALSE_TEXT, NULL_TEXT}
    ensures IsTokenText(tok)
  {
    assert tok[1..] == if tok == TRUE_TEXT then RUE else if tok == FALSE_TEXT then ALSE else ULL;
    assert tok[1..|tok|] == tok[1..];
  }

  lemma {:induction false} NumericToEnd(tok: Bytes, i: nat)
    requires i <= |tok| && forall j | i <= j < |tok| :: IsNumeric(tok[j])
    ensures NumberEnd(tok, i) == |tok|
    decreases |tok| - i
  {
    if i < |tok| { NumericToEnd(tok, i + 1); }
  }

  // --- A text of interleaved tokens reads as its tokens ---

  lemma TokenTextInPlace(tok: Bytes, doc: Bytes, p: nat)
    requires IsTokenText(tok) && At(doc, p, tok)
    requires NumberText(tok) ==> !IsNumeric(Peek(doc, p + |tok|))
    ensures TokenAt(doc, p) == Token(TokenAt(tok, 0).kind, p, p + |tok|)
  {
    forall i | 0 <= i < |tok| ensures tok[i] == doc[i - 0 + p] {
      AtIndex(doc, p, tok, i);
    }
    TokenLocal(tok, 0, |tok|, doc, p, p + |tok|);
  }

  lemma FirstIsNoSpace(tok: Bytes)
    requires IsTokenText(tok)
    ensures tok != [] && !IsSpace(tok[0])
  {
  }

  lemma {:induction false} SkipsTo(doc: Bytes, p: nat, j: nat)
    requires p <= j <= |doc| && (forall i | p <= i < j :: IsSpace(doc[i])) && (j < |doc| ==> !IsSpace(doc[j]))
    ensures SkipSpaces(doc, p) == j
    decreases j - p
  {
    if p < j { SkipsTo(doc, p + 1, j); }
  }

  // What follows a number does not continue it.
  lemma NextByte(tok: Bytes, toks: seq<Bytes>, s: Bytes)
    requires AllTokenTexts([tok] + toks) && KeptApart([tok] + toks) && Interleaved(toks, s)
    ensures NumberText(tok) && s != [] ==> !IsNumeric(s[0])
  {
    hide IsTokenText;
    if toks != [] {
      assert ([tok] + toks)[0] == tok && ([tok] + toks)[1] == toks[0];
      FirstIsNoSpace(toks[0]);
      var k := FirstLeads(toks, s);
      if k > 0 {
        assert s[..k][0] == s[0];
      } else {
        AtIndex(s, 0, toks[0], 0);
      }
    }
  }

  lemma FirstInPlace(tok: Bytes, doc: Bytes, p: nat, k: nat)
    requires p <= |doc| && IsTokenText(tok) && Leads(tok, doc[p..], k)
    ensures SkipSpaces(doc, p) == p + k && At(doc, p + k, tok)
  {
    hide TokenAt, IsTokenText;
    var s, j := doc[p..], p + k;
    FirstIsNoSpace(tok);
    AtIndex(s, k, tok, 0);
    forall i | p <= i < j ensures IsSpace(doc[i]) {
      assert s[..k][i - p] == doc[i];
    }
    SkipsTo(doc, p, j);
    assert doc[j..j + |tok|] == s[k..k + |tok|];
  }

  lemma TokenKind(tok: Bytes)
    requires IsTokenText(tok)
    ensures IsSolid(TokenAt(tok, 0).kind)
  {
  }

  // The first token of an interleaved text is read, and what remains is interleaved too.
  lemma FirstReads(tok: Bytes, rest: seq<Bytes>, doc: Bytes, p: nat)
    requires p <= |doc| && AllTokenTexts([tok] + rest) && KeptApart([tok] + rest) && Interleaved([tok] + rest, doc[p..])
    ensures Lexes(doc, p, tok) && Interleaved(rest, doc[ReadToken(doc, p).end..])
  {
    hide TokenAt, IsTokenText, Interleaved;
    assert ([tok] + rest)[0] == tok && ([tok] + rest)[1..] == rest;
    var k := FirstLeads([tok] + rest, doc[p..]);
    FirstInPlace(tok, doc, p, k);
    var j := p + k;
    assert doc[p..][k + |tok|..] == doc[j + |tok|..];
    NextByte(tok, rest, doc[j + |tok|..]);
    TokenTextInPlace(tok, doc, j);
    TokenKind(tok);
  }

  lemma RestKeptApart(tok: Bytes, rest: seq<Bytes>)
    requires AllTokenTexts([tok] + rest) && KeptApart([tok] + rest)
    ensures AllTokenTexts(rest) && KeptApart(rest)
  {
    hide IsTokenText, NumberText, IsNumeric;
    forall i | 0 <= i < |rest| ensures rest[i] == ([tok] + rest)[i + 1] {}
  }

  lemma OnlySpaces(doc: Bytes, p: nat)
    requires p <= |doc| && AllSpace(doc[p..])
    ensures SkipSpaces(doc, p) == |doc|
  {
    forall i | p <= i < |doc| ensures IsSpace(doc[i]) {
      assert doc[i] == doc[p..][i - p];
    }
    SkipsTo(doc, p, |doc|);
  }

  lemma {:induction false} InterleavedReads(toks: seq<Bytes>, doc: Bytes, p: nat) returns (q: nat)
    requires p <= |doc| && AllTokenTexts(toks) && KeptApart(toks) && Interleaved(toks, doc[p..])
    ensures Reads(doc, p, toks, q) && q <= |doc| && SkipSpaces(doc, q) == |doc|
    decreases |toks|
  {
    if toks == [] {
      q := p;
      OnlySpaces(doc, p);
    } else {
      hide TokenAt, ReadToken, AllTokenTexts, KeptApart, Leads, SkipSpaces, Interleaved, Reads, Lexes;
      var tok, rest := toks[0], toks[1..];
      assert toks == [tok] + rest;
      RestKeptApart(tok, rest);
      FirstReads(tok, rest, doc, p);
      q := InterleavedReads(rest, doc, ReadToken(doc, p).end);
      ReadsMore(doc, p, tok, rest, q);
    }
  }

  lemma TokenLeads(doc: Bytes, p: nat)
    requires p <= |doc|
    ensures var t := ReadToken(doc, p);
      Leads(doc[t.start..t.end], doc[p..], t.start - p)
  {
    hide TokenAt;
    var t := ReadToken(doc, p);
    assert doc[p..][t.start - p..t.end - p] == doc[t.start..t.end];
    var w := doc[p..][..t.start - p];
    forall i | 0 <= i < |w| ensures IsSpace(w[i]) {
      assert w[i] == doc[p + i];
    }
  }

  // Tokens read up to trailing white space are the text, white space apart.
  lemma {:induction false} ReadsInterleaved(doc: Bytes, p: nat, toks: seq<Bytes>, q: nat)
    requires p <= |doc| && q <= |doc| && Reads(doc, p, toks, q) && SkipSpaces(doc, q) == |doc|
    ensures Interleaved(toks, doc[p..])
    decreases |toks|
  {
    hide TokenAt, ReadToken, SkipSpaces;
    if toks == [] {
      forall i | 0 <= i < |doc[p..]| ensures IsSpace(doc[p..][i]) {
        assert doc[p..][i] == doc[p + i];
      }
    } else {
      var t := ReadToken(doc, p);
      var k := t.start - p;
      ReadsInterleaved(doc, t.end, toks[1..], q);
      TokenLeads(doc, p);
      assert doc[p..][k + |toks[0]|..] == doc[t.end..];
    }
  }
}
