/** Texts with comments, and the tokens they are read as. */
module JsonComments {
  import opened Common
  import opened JsonText
  import opened JsonString
  import opened JsonLexer
  import opened JsonLocal
  import opened JsonTokens
  import opened JsonErrors

  // --- Comments ---

  predicate IsBreak(c: Byte) { c == RETURN || c == NEWLINE }

  // From a slash and a star to the first star and slash.
  predicate IsBlock(w: Bytes) {
    && |w| >= 4 && w[0] == SLASH && w[1] == STAR && w[|w| - 2] == STAR && w[|w| - 1] == SLASH
    && forall i, j | 2 <= i < |w| - 2 && j == i + 1 :: w[i] == STAR ==> w[j] != SLASH
  }

  // From two slashes to the first carriage return or line feed.
  predicate IsLine(w: Bytes) {
    && |w| >= 3 && w[0] == SLASH && w[1] == SLASH && IsBreak(w[|w| - 1])
    && forall i | 2 <= i < |w| - 1 :: !IsBreak(w[i])
  }

  predicate IsComment(w: Bytes) { IsBlock(w) || IsLine(w) }

  ghost predicate StarSlash(doc: Bytes, i: nat) { i + 1 < |doc| && doc[i] == STAR && doc[i + 1] == SLASH }

  // A C comment ends at the first star from p on that a slash follows, or with the document.
  lemma {:induction false} StarEndIs(doc: Bytes, p: nat)
    requires p <= |doc|
    ensures var r := StarEnd(doc, p);
      && p <= r <= |doc| && (forall i | p <= i < r - 1 :: !StarSlash(doc, i))
      && (r == |doc| || (p < r && StarSlash(doc, r - 1)))
    decreases |doc| - p
  {
    if p < |doc| && !(doc[p] == STAR && Peek(doc, p + 1) == SLASH) { StarEndIs(doc, p + 1); }
  }

  // A C++ comment ends behind the first carriage return or line feed from p on, or with the document.
  lemma {:induction false} LineEndIs(doc: Bytes, p: nat)
    requires p <= |doc|
    ensures var r := LineEnd(doc, p);
      && p <= r <= |doc| && (forall i | p <= i < r - 1 :: !IsBreak(doc[i]))
      && ((p < r && IsBreak(doc[r - 1])) || (r == |doc| && (p < r ==> !IsBreak(doc[r - 1]))))
    decreases |doc| - p
  {
    if p < |doc| && !IsBreak(doc[p]) { LineEndIs(doc, p + 1); }
  }

  lemma BlockReads(doc: Bytes, p: nat, w: Bytes)
    requires At(doc, p, w) && IsBlock(w)
    ensures TokenAt(doc, p) == Token(CommentToken, p, p + |w|)
  {
    hide StringEnd, NumberEnd, Match, LineEnd, StarEnd;
    forall i | 0 <= i < |w| ensures doc[p + i] == w[i] { AtIndex(doc, p, w, i); }
    assert doc[p + 0] == SLASH && doc[p + 1] == STAR;
    StarEndIs(doc, p + 2);
    var r, e := StarEnd(doc, p + 2), p + |w| - 1;
    assert doc[p + (|w| - 2)] == STAR && doc[p + (|w| - 1)] == SLASH;
    assert StarSlash(doc, e - 1);
    forall i | p + 2 <= i < e - 1 ensures !StarSlash(doc, i) {
      assert doc[p + (i - p)] == w[i - p] && doc[p + (i + 1 - p)] == w[i + 1 - p];
    }
  }

  lemma LineReads(doc: Bytes, p: nat, w: Bytes)
    requires At(doc, p, w) && IsLine(w)
    ensures TokenAt(doc, p) == Token(CommentToken, p, p + |w|)
  {
    hide StringEnd, NumberEnd, Match, LineEnd, StarEnd;
    forall i | 0 <= i < |w| ensures doc[p + i] == w[i] { AtIndex(doc, p, w, i); }
    assert doc[p + 0] == SLASH && doc[p + 1] == SLASH;
    LineEndIs(doc, p + 2);
    var r, e := LineEnd(doc, p + 2), p + |w|;
    assert IsBreak(doc[p + (|w| - 1)]);
    forall i | p + 2 <= i < e - 1 ensures !IsBreak(doc[i]) {
      assert doc[p + (i - p)] == w[i - p];
    }
  }

  lemma StartsWithSlash(w: Bytes)
    requires IsComment(w)
    ensures w != [] && w[0] == SLASH
  {
  }

  lemma CommentReads(doc: Bytes, p: nat, w: Bytes)
    requires At(doc, p, w) && IsComment(w)
    ensures ReadToken(doc, p) == Token(CommentToken, p, p + |w|)
  {
    hide TokenAt, IsBlock, IsLine;
    if IsBlock(w) { BlockReads(doc, p, w); } else { LineReads(doc, p, w); }
    assert doc[p + 0] == w[0] == SLASH by { StartsWithSlash(w); AtIndex(doc, p, w, 0); }
    assert SkipSpaces(doc, p) == p;
  }

  // From two slashes to the end of the document.
  ghost predicate IsLastLine(doc: Bytes, p: nat) {
    p + 1 < |doc| && doc[p + 1] == SLASH && forall i | p + 2 <= i < |doc| :: !IsBreak(doc[i])
  }

  lemma SlashStands(doc: Bytes, p: nat)
    requires p + 2 <= |doc| && doc[p] == SLASH && TokenAt(doc, p).kind == CommentToken
    ensures (exists e | p < e <= |doc| :: IsComment(doc[p..e])) || IsLastLine(doc, p)
  {
    hide StringEnd, NumberEnd, Match, LineEnd, StarEnd;
    StarEndIs(doc, p + 2);
    LineEndIs(doc, p + 2);
    if doc[p + 1] == STAR {
      var e := StarEnd(doc, p + 2) + 1;
      var w := doc[p..e];
      assert forall i, j | 2 <= i < |w| - 2 && j == i + 1 ::
        !StarSlash(doc, p + i) && w[i] == doc[p + i] && w[j] == doc[p + j];
      assert IsBlock(w);
    } else {
      var e := LineEnd(doc, p + 2);
      var w := doc[p..e];
      if p + 2 < e && IsBreak(doc[e - 1]) {
        assert forall i | 0 <= i < |w| :: w[i] == doc[p + i];
        assert IsLine(w);
      }
    }
  }

  // A slash begins a comment where one stands, and is an error otherwise.
  lemma SlashReads(doc: Bytes, p: nat)
    requires p < |doc| && doc[p] == SLASH
    ensures var t := TokenAt(doc, p);
      && (t.kind == CommentToken || t.kind == ErrorToken)
      && (t.kind == CommentToken <==> (exists e | p < e <= |doc| :: IsComment(doc[p..e])) || IsLastLine(doc, p))
  {
    hide StringEnd, NumberEnd, Match, LineEnd, StarEnd;
    var t := TokenAt(doc, p);
    if e :| p < e <= |doc| && IsComment(doc[p..e]) {
      CommentReads(doc, p, doc[p..e]);
      ReadTokenIsAt(doc, p);
    }
    if p + 2 <= |doc| {
      StarEndIs(doc, p + 2);
      LineEndIs(doc, p + 2);
      if t.kind == CommentToken { SlashStands(doc, p); }
    }
  }

  // --- Gaps ---

  // White space and comments.
  ghost predicate IsGap(w: Bytes)
    decreases |w|
  {
    || w == []
    || (IsSpace(w[0]) && IsGap(w[1..]))
    || exists k | 0 < k <= |w| :: IsComment(w[..k]) && IsGap(w[k..])
  }

  lemma SpaceSkips(doc: Bytes, p: nat)
    requires p < |doc| && IsSpace(doc[p])
    ensures ReadToken(doc, p) == ReadToken(doc, p + 1) && NextToken(doc, p) == NextToken(doc, p + 1)
  {
    hide TokenAt;
  }

  lemma AtRest(doc: Bytes, p: nat, w: Bytes, k: nat)
    requires At(doc, p, w) && k <= |w|
    ensures At(doc, p, w[..k]) && At(doc, p + k, w[k..])
  {
    AtConcat(doc, p, w[..k], w[k..]);
    assert w[..k] + w[k..] == w;
  }

  lemma AtFits(doc: Bytes, p: nat, w: Bytes)
    requires At(doc, p, w)
    ensures p + |w| <= |doc|
  {
  }

  lemma CommentSkips(doc: Bytes, p: nat, w: Bytes)
    requires At(doc, p, w) && IsComment(w)
    ensures p + |w| <= |doc| && NextToken(doc, p) == NextToken(doc, p + |w|)
  {
    hide TokenAt, ReadToken, IsComment;
    CommentReads(doc, p, w);
  }

  // The next token is the one behind the gap.
  lemma {:induction false} GapSkips(doc: Bytes, p: nat, w: Bytes)
    requires At(doc, p, w) && IsGap(w)
    ensures NextToken(doc, p) == NextToken(doc, p + |w|)
    decreases |w|
  {
    hide TokenAt, ReadToken, NextToken, At, IsComment, IsSpace;
    assert p + |w| <= |doc| by { AtFits(doc, p, w); }
    if w != [] {
      AtIndex(doc, p, w, 0);
      if IsSpace(w[0]) && IsGap(w[1..]) {
        AtRest(doc, p, w, 1);
        SpaceSkips(doc, p);
        GapSkips(doc, p + 1, w[1..]);
      } else {
        var k :| 0 < k <= |w| && IsComment(w[..k]) && IsGap(w[k..]);
        AtRest(doc, p, w, k);
        CommentSkips(doc, p, w[..k]);
        GapSkips(doc, p + k, w[k..]);
      }
    }
  }

  // Without comments it is the very next one.
  lemma {:induction false} SpacesSkip(doc: Bytes, p: nat, w: Bytes)
    requires At(doc, p, w) && AllSpace(w)
    ensures p + |w| <= |doc| && ReadToken(doc, p) == ReadToken(doc, p + |w|)
    decreases |w|
  {
    hide TokenAt, ReadToken, At, IsSpace;
    AtFits(doc, p, w);
    if w != [] {
      AtIndex(doc, p, w, 0);
      AtRest(doc, p, w, 1);
      SpaceSkips(doc, p);
      SpacesSkip(doc, p + 1, w[1..]);
    }
  }

  // --- Texts with comments ---

  // A colon, and the bracket that closes an empty array: before these the reader takes no comment.
  predicate Tight(began: bool, tok: Bytes) { tok == [COLON] || (began && tok == [CLOSE_ARRAY]) }

  ghost predicate CommentedAt(placed: bool, began: bool, tok: Bytes, s: Bytes, k: nat) {
    At(s, k, tok) && IsGap(s[..k]) && (placed && Tight(began, tok) ==> AllSpace(s[..k]))
  }

  // s is the tokens with gaps between and around them; where it is placed, gaps before tight tokens are
  // white space. The last token before s was an opening bracket or not.
  ghost predicate Commented(placed: bool, began: bool, toks: seq<Bytes>, s: Bytes)
    decreases |toks|
  {
    if toks == [] then IsGap(s)
    else
      exists k: nat ::
        && CommentedAt(placed, began, toks[0], s, k)
        && Commented(placed, toks[0] == [OPEN_ARRAY], toks[1..], s[k + |toks[0]|..])
  }

  // Reading token after token, comments apart, gives these texts and stops at q.
  ghost predicate Skims(doc: Bytes, p: nat, toks: seq<Bytes>, q: nat)
    requires p <= |doc|
    decreases |toks|
  {
    if toks == [] then p == q
    else
      var t := NextToken(doc, p);
      IsSolid(t.kind) && doc[t.start..t.end] == toks[0] && Skims(doc, t.end, toks[1..], q)
  }

  // No comment stands before a tight token.
  ghost predicate Placed(doc: Bytes, p: nat, began: bool, toks: seq<Bytes>)
    requires p <= |doc|
    decreases |toks|
  {
    toks != [] ==>
      && (Tight(began, toks[0]) ==> ReadToken(doc, p).kind != CommentToken)
      && Placed(doc, NextToken(doc, p).end, toks[0] == [OPEN_ARRAY], toks[1..])
  }

  lemma GapStart(w: Bytes)
    requires IsGap(w) && w != []
    ensures IsSpace(w[0]) || w[0] == SLASH
  {
    if !IsSpace(w[0]) {
      var k :| 0 < k <= |w| && IsComment(w[..k]) && IsGap(w[k..]);
      StartsWithSlash(w[..k]);
      assert w[..k][0] == w[0];
    }
  }

  // What follows a number does not continue it.
  lemma NextIsNoDigit(placed: bool, began: bool, tok: Bytes, toks: seq<Bytes>, s: Bytes)
    requires AllTokenTexts([tok] + toks) && KeptApart([tok] + toks) && Commented(placed, began, toks, s)
    ensures NumberText(tok) && s != [] ==> !IsNumeric(s[0])
  {
    hide IsTokenText, IsGap;
    if toks != [] {
      assert ([tok] + toks)[0] == tok && ([tok] + toks)[1] == toks[0];
      FirstIsNoSpace(toks[0]);
      var k: nat :| CommentedAt(placed, began, toks[0], s, k);
      if k > 0 {
        GapStart(s[..k]);
        assert s[..k][0] == s[0];
      } else {
        AtIndex(s, 0, toks[0], 0);
      }
    } else if s != [] {
      GapStart(s);
    }
  }

  // A token text standing in a document is the next token there.
  lemma TokenInPlace(tok: Bytes, doc: Bytes, j: nat)
    requires IsTokenText(tok) && At(doc, j, tok) && (NumberText(tok) ==> !IsNumeric(Peek(doc, j + |tok|)))
    ensures var t := NextToken(doc, j);
      && t == ReadToken(doc, j) && IsSolid(t.kind) && t.kind != CommentToken
      && t.start == j && t.end == j + |tok|
  {
    hide TokenAt, IsTokenText;
    TokenTextInPlace(tok, doc, j);
    TokenKind(tok);
    FirstIsNoSpace(tok);
    AtIndex(doc, j, tok, 0);
    assert SkipSpaces(doc, j) == j;
  }

  // The first token of a text with comments.
  lemma FirstSkims(placed: bool, began: bool, tok: Bytes, rest: seq<Bytes>, doc: Bytes, p: nat, k: nat)
    requires p <= |doc| && AllTokenTexts([tok] + rest) && KeptApart([tok] + rest)
    requires CommentedAt(placed, began, tok, doc[p..], k) && k + |tok| <= |doc[p..]|
    requires Commented(placed, tok == [OPEN_ARRAY], rest, doc[p..][k + |tok|..])
    ensures var t := NextToken(doc, p);
      && IsSolid(t.kind) && doc[t.start..t.end] == tok && t.end == p + k + |tok|
      && (placed && Tight(began, tok) ==> ReadToken(doc, p).kind != CommentToken)
  {
    hide TokenAt, ReadToken, NextToken, IsTokenText, IsGap, Commented, KeptApart, NumberText, Tight;
    var j, w := p + k, doc[p..][..k];
    assert ([tok] + rest)[0] == tok && IsTokenText(tok);
    assert doc[p..j] == w && doc[j..j + |tok|] == doc[p..][k..k + |tok|] == tok;
    GapSkips(doc, p, w);
    var s := doc[j + |tok|..];
    assert doc[p..][k + |tok|..] == s;
    NextIsNoDigit(placed, tok == [OPEN_ARRAY], tok, rest, s);
    assert s != [] ==> Peek(doc, j + |tok|) == s[0];
    TokenInPlace(tok, doc, j);
    if placed && Tight(began, tok) { SpacesSkip(doc, p, w); }
  }

  // A text with comments is read as its tokens.
  lemma {:induction false} CommentedSkims(placed: bool, began: bool, toks: seq<Bytes>, doc: Bytes, p: nat)
    returns (q: nat)
    requires p <= |doc| && AllTokenTexts(toks) && KeptApart(toks) && Commented(placed, began, toks, doc[p..])
    ensures Skims(doc, p, toks, q) && (placed ==> Placed(doc, p, began, toks))
    decreases |toks|
  {
    hide TokenAt, ReadToken, NextToken, AllTokenTexts, KeptApart, IsGap, Tight;
    if toks == [] {
      q := p;
    } else {
      var tok, rest := toks[0], toks[1..];
      assert toks == [tok] + rest;
      RestKeptApart(tok, rest);
      var k: nat :| CommentedAt(placed, began, tok, doc[p..], k) &&
        Commented(placed, tok == [OPEN_ARRAY], rest, doc[p..][k + |tok|..]);
      FirstSkims(placed, began, tok, rest, doc, p, k);
      var m := NextToken(doc, p).end;
      assert doc[p..][k + |tok|..] == doc[m..];
      q := CommentedSkims(placed, tok == [OPEN_ARRAY], rest, doc, m);
    }
  }

  // --- Lists of tokens ---

  lemma {:induction false} SkimsEnd(doc: Bytes, p: nat, toks: seq<Bytes>, q: nat)
    requires p <= |doc| && Skims(doc, p, toks, q)
    ensures p <= q <= |doc|
    decreases |toks|
  {
    hide NextToken;
    if toks != [] { SkimsEnd(doc, NextToken(doc, p).end, toks[1..], q); }
  }

  predicate LastOpens(began: bool, toks: seq<Bytes>) {
    if toks == [] then began else toks[|toks| - 1] == [OPEN_ARRAY]
  }

  lemma {:induction false} SkimsSplit(doc: Bytes, p: nat, began: bool, a: seq<Bytes>, b: seq<Bytes>, q: nat)
    returns (m: nat)
    requires p <= |doc| && Skims(doc, p, a + b, q)
    ensures p <= m <= |doc| && Skims(doc, p, a, m) && Skims(doc, m, b, q)
    ensures Placed(doc, p, began, a + b) <==> Placed(doc, p, began, a) && Placed(doc, m, LastOpens(began, a), b)
    decreases |a|
  {
    hide NextToken, ReadToken, Tight;
    if a == [] {
      m := p;
      assert a + b == b;
    } else {
      assert (a + b)[1..] == a[1..] + b && (a + b)[0] == a[0];
      m := SkimsSplit(doc, NextToken(doc, p).end, a[0] == [OPEN_ARRAY], a[1..], b, q);
      assert LastOpens(began, a) == LastOpens(a[0] == [OPEN_ARRAY], a[1..]);
    }
  }

  // Whether an array was just began matters to a closing bracket only.
  lemma PlacedAnyway(doc: Bytes, p: nat, a: bool, b: bool, toks: seq<Bytes>)
    requires p <= |doc| && (toks == [] || toks[0] != [CLOSE_ARRAY])
    ensures Placed(doc, p, a, toks) <==> Placed(doc, p, b, toks)
  {
  }
}
