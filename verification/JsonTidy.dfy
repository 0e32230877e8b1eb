/** The tokens of JSON texts: what holds of any list of tokens that keeps to the grammar, and the list of
    the tokens of a document. */
module JsonTidy {
  import opened Common
  import opened JsonText
  import opened JsonString
  import opened JsonLexer
  import opened JsonTokens
  import opened JsonSyntax
  import opened JsonLiterals
  import opened JsonReading
  import opened JsonShape
  import opened JsonSound

  // --- Depth of brackets ---

  function Weight(tok: Bytes): int {
    if tok == [OPEN_ARRAY] || tok == [OPEN_OBJECT] then 1
    else if tok == [CLOSE_ARRAY] || tok == [CLOSE_OBJECT] then -1
    else 0
  }

  function Depth(toks: seq<Bytes>): int {
    if toks == [] then 0 else Depth(toks[..|toks| - 1]) + Weight(toks[|toks| - 1])
  }

  // Brackets never close more than was opened, and all are closed at the end.
  ghost predicate Level(toks: seq<Bytes>) {
    Depth(toks) == 0 && forall i | 0 <= i <= |toks| :: Depth(toks[..i]) >= 0
  }

  // All brackets are closed at the end and not before.
  ghost predicate Closed(toks: seq<Bytes>) {
    Depth(toks) == 0 && toks != [] && forall i | 0 < i < |toks| :: Depth(toks[..i]) > 0
  }

  lemma {:induction false} DepthConcat(a: seq<Bytes>, b: seq<Bytes>)
    ensures Depth(a + b) == Depth(a) + Depth(b)
    decreases |b|
  {
    if b == [] {
      assert a + b == a;
    } else {
      DepthConcat(a, b[..|b| - 1]);
      assert (a + b)[..|a + b| - 1] == a + b[..|b| - 1];
    }
  }

  lemma PrefixDepth(a: seq<Bytes>, b: seq<Bytes>, i: nat)
    requires i <= |a + b|
    ensures Depth((a + b)[..i]) == if i <= |a| then Depth(a[..i]) else Depth(a) + Depth(b[..i - |a|])
  {
    if i <= |a| {
      assert (a + b)[..i] == a[..i];
    } else {
      assert (a + b)[..i] == a + b[..i - |a|];
      DepthConcat(a, b[..i - |a|]);
    }
  }

  lemma LevelJoin(a: seq<Bytes>, b: seq<Bytes>)
    requires Level(a) && Level(b)
    ensures Level(a + b)
  {
    hide Depth;
    DepthConcat(a, b);
    forall i | 0 <= i <= |a + b| ensures Depth((a + b)[..i]) >= 0 {
      PrefixDepth(a, b, i);
    }
  }

  lemma OneDepth(tok: Bytes)
    ensures Depth([tok]) == Weight(tok) && Depth([]) == 0
  {
    assert [tok][..0] == [];
  }

  lemma OneIsLevel(tok: Bytes)
    requires Weight(tok) == 0
    ensures Level([tok]) && Closed([tok])
  {
    OneDepth(tok);
    hide Depth;
    forall i | 0 <= i <= |[tok]| ensures Depth([tok][..i]) >= 0 {
      assert [tok][..i] == if i == 0 then [] else [tok];
    }
  }

  lemma ClosedIsLevel(toks: seq<Bytes>)
    requires Closed(toks)
    ensures Level(toks)
  {
    forall i | 0 <= i <= |toks| ensures Depth(toks[..i]) >= 0 {
      if i == |toks| { assert toks[..i] == toks; }
    }
  }

  lemma BracketsClose(open: Bytes, inner: seq<Bytes>, close: Bytes)
    requires Level(inner) && Weight(open) == 1 && Weight(close) == -1
    ensures Closed([open] + inner + [close])
  {
    OneDepth(open);
    OneDepth(close);
    hide Depth, Weight;
    var a, b := [open] + inner, [close];
    DepthConcat([open], inner);
    DepthConcat(a, b);
    forall i | 0 < i < |a + b| ensures Depth((a + b)[..i]) > 0 {
      PrefixDepth(a, b, i);
      PrefixDepth([open], inner, i);
      assert i == 1 ==> [open][..i] == [open];
    }
  }

  // Of two closed lists neither goes on behind the other.
  lemma ClosedEnds(a: seq<Bytes>, b: seq<Bytes>)
    requires Closed(a) && Closed(a + b)
    ensures b == []
  {
    assert (a + b)[..|a|] == a;
  }

  // --- Tokens of the grammar ---

  ghost predicate TokenOk(tok: Bytes) { IsTokenText(tok) && LiteralOk(tok) }

  // Single tokens, whose literals keep to their grammar; no closing brace stands behind a comma.
  ghost predicate Orderly(toks: seq<Bytes>) {
    && (forall i | 0 <= i < |toks| :: TokenOk(toks[i]))
    && (forall i, j | 0 <= i < |toks| && j == i + 1 < |toks| :: toks[i] == [COMMA] ==> toks[j] != [CLOSE_OBJECT])
  }

  ghost predicate Tidy(toks: seq<Bytes>) { Orderly(toks) && KeptApart(toks) }

  // Tidy, and fit to stand behind a comma and before a closing brace.
  ghost predicate TidyPart(toks: seq<Bytes>) {
    Tidy(toks) && Level(toks) && toks != [] && toks[0] != [CLOSE_OBJECT] && toks[|toks| - 1] != [COMMA]
  }

  lemma TidyJoin(a: seq<Bytes>, b: seq<Bytes>)
    requires Tidy(a) && Tidy(b) && a != [] && b != [] && (a[|a| - 1] == [COMMA] ==> b[0] != [CLOSE_OBJECT])
    requires b[0] != [] ==> NumberText(a[|a| - 1]) ==> !IsNumeric(b[0][0])
    ensures Tidy(a + b)
  {
    hide TokenOk;
  }

  lemma TidyOne(c: Byte)
    requires c in {OPEN_ARRAY, CLOSE_ARRAY, OPEN_OBJECT, CLOSE_OBJECT, COMMA, COLON}
    ensures Tidy([[c]])
  {
    PunctuationIsToken();
    hide IsTokenText;
  }

  lemma TidyList(a: seq<Bytes>, b: seq<Bytes>)
    requires TidyPart(a) && TidyPart(b)
    ensures TidyPart(a + [[COMMA]] + b)
  {
    hide Tidy, Level;
    TidyOne(COMMA);
    OneIsLevel([COMMA]);
    LevelJoin(a, [[COMMA]]);
    LevelJoin(a + [[COMMA]], b);
    TidyJoin([[COMMA]], b);
    TidyJoin(a, [[COMMA]] + b);
    assert a + ([[COMMA]] + b) == a + [[COMMA]] + b;
  }

  lemma EmptyIsLevel()
    ensures Level([])
  {
  }

  lemma TidyEnclosed(toks: seq<Bytes>, open: Byte, close: Byte)
    requires Enclosed(toks, open, close) && (Inner(toks) != [] ==> TidyPart(Inner(toks)))
    requires open in {OPEN_ARRAY, OPEN_OBJECT} && close in {CLOSE_ARRAY, CLOSE_OBJECT}
    ensures TidyPart(toks) && Closed(toks)
  {
    hide Tidy, Level, Closed, Depth;
    TidyOne(open);
    TidyOne(close);
    var inner := Inner(toks);
    assert toks == [[open]] + inner + [[close]];
    if inner == [] { EmptyIsLevel(); }
    BracketsClose([open], inner, [close]);
    ClosedIsLevel(toks);
    if inner == [] {
      TidyJoin([[open]], [[close]]);
      assert toks == [[open]] + [[close]];
    } else {
      TidyJoin(inner, [[close]]);
      TidyJoin([[open]], inner + [[close]]);
      assert toks == [[open]] + (inner + [[close]]);
    }
  }

  lemma NumberByte(u: Bytes, i: nat, j: nat, k: nat)
    requires Splits(u, i, j) && k < |u|
    ensures IsNumeric(u[k])
  {
    if k < i {
      assert u[..i][k] == u[k];
    } else if k < j {
      assert u[i..j][k - i] == u[k] && (k > i ==> u[i..j][1..][k - i - 1] == u[k]);
    } else {
      var e := u[j..];
      var d := if e[1] == PLUS || e[1] == MINUS then 2 else 1;
      assert e[k - j] == u[k] && (k - j >= d ==> e[d..][k - j - d] == u[k]);
    }
  }

  lemma NumberIsToken(text: Bytes)
    requires IsNumber(text)
    ensures IsTokenText(text)
  {
    var u := Unsigned(text);
    var i: nat, j: nat :| Splits(u, i, j);
    forall k | 0 <= k < |u| ensures IsNumeric(u[k]) {
      NumberByte(u, i, j, k);
    }
    assert u[0] == u[..i][0];
    forall k | 1 <= k < |text| ensures IsNumeric(text[k]) {
      assert text[k] == u[if text[0] == MINUS then k - 1 else k];
    }
    NumericToEnd(text, 1);
  }

  lemma StringIsToken(text: Bytes)
    requires IsString(text)
    ensures |text| >= 2 && text[0] == QUOTE && !NumberText(text) && TokenOk(text)
  {
    hide StringEnd;
    CharsEnd(text, 1, |text| - 1);
  }

  lemma LiteralIsToken(text: Bytes)
    requires IsLiteral(text)
    ensures TokenOk(text) && text != []
    ensures text[0] !in {OPEN_ARRAY, CLOSE_ARRAY, OPEN_OBJECT, CLOSE_OBJECT, COMMA, COLON}
  {
    hide IsNumber, IsTokenText, IsString;
    if IsNumber(text) {
      NumberStarts(text);
      NumberIsToken(text);
    } else if IsString(text) {
      StringIsToken(text);
    } else {
      WordIsToken(text);
    }
  }

  lemma OneIsTidy(text: Bytes)
    requires TokenOk(text)
    ensures Tidy([text])
  {
  }

  lemma LiteralIsTidy(text: Bytes)
    requires IsLiteral(text)
    ensures TidyPart([text]) && Closed([text])
  {
    hide TokenOk, IsLiteral, Tidy, Level, Closed;
    LiteralIsToken(text);
    OneIsTidy(text);
    OneIsLevel(text);
  }

  lemma {:induction false} ValueIsTidy(toks: seq<Bytes>)
    requires IsValue(toks)
    ensures TidyPart(toks) && Closed(toks)
    decreases |toks|, 0
  {
    hide TidyPart, Closed, IsLiteral, AreItems, AreMembers;
    if |toks| == 1 && IsLiteral(toks[0]) {
      LiteralIsTidy(toks[0]);
      assert toks == [toks[0]];
    } else if Enclosed(toks, OPEN_ARRAY, CLOSE_ARRAY) {
      if Inner(toks) != [] { ItemsAreTidy(Inner(toks)); }
      TidyEnclosed(toks, OPEN_ARRAY, CLOSE_ARRAY);
    } else {
      if Inner(toks) != [] { MembersAreTidy(Inner(toks)); }
      TidyEnclosed(toks, OPEN_OBJECT, CLOSE_OBJECT);
    }
  }

  lemma {:induction false} ItemsAreTidy(toks: seq<Bytes>)
    requires AreItems(toks)
    ensures TidyPart(toks)
    decreases |toks|, 1
  {
    hide TidyPart, IsValue;
    if IsValue(toks) {
      ValueIsTidy(toks);
    } else {
      var k :| 0 <= k < |toks| && IsValue(toks[..k]) && toks[k] == [COMMA] && AreItems(toks[k + 1..]);
      ValueIsTidy(toks[..k]);
      ItemsAreTidy(toks[k + 1..]);
      TidyList(toks[..k], toks[k + 1..]);
      assert toks == toks[..k] + [[COMMA]] + toks[k + 1..];
    }
  }

  lemma {:induction false} MembersAreTidy(toks: seq<Bytes>)
    requires AreMembers(toks)
    ensures TidyPart(toks)
    decreases |toks|, 1
  {
    hide TidyPart, IsPair;
    if IsPair(toks) {
      MemberIsTidy(toks);
    } else {
      var k :| 0 <= k < |toks| && IsPair(toks[..k]) && toks[k] == [COMMA] && AreMembers(toks[k + 1..]);
      MemberIsTidy(toks[..k]);
      MembersAreTidy(toks[k + 1..]);
      TidyList(toks[..k], toks[k + 1..]);
      assert toks == toks[..k] + [[COMMA]] + toks[k + 1..];
    }
  }

  lemma {:induction false} MemberIsTidy(toks: seq<Bytes>)
    requires IsPair(toks)
    ensures TidyPart(toks)
    decreases |toks|, 0
  {
    hide IsValue, Tidy, IsString, TokenOk, Level;
    var name, value := toks[0], toks[2..];
    ValueIsTidy(value);
    StringIsToken(name);
    TidyOne(COLON);
    OneIsTidy(name);
    TidyJoin([name], [[COLON]]);
    TidyJoin([name] + [[COLON]], value);
    OneIsLevel(name);
    OneIsLevel([COLON]);
    LevelJoin([name], [[COLON]]);
    LevelJoin([name] + [[COLON]], value);
    assert toks == [name] + [[COLON]] + value;
  }

  lemma TidyTexts(toks: seq<Bytes>)
    requires Tidy(toks)
    ensures AllTokenTexts(toks) && KeptApart(toks)
  {
    hide IsTokenText, LiteralOk;
  }

  lemma {:induction false} TidyIsPlain(doc: Bytes, p: nat, toks: seq<Bytes>, q: nat)
    requires p <= |doc| && Reads(doc, p, toks, q) && Tidy(toks)
    ensures Plain(doc, p, q)
    decreases |toks|
  {
    hide TokenAt, ReadToken, LiteralOk, IsTokenText;
    if toks != [] {
      var t := ReadToken(doc, p);
      KindText(doc, p);
      assert Tidy(toks[1..]);
      TidyIsPlain(doc, t.end, toks[1..], q);
      if toks[1..] != [] { KindText(doc, t.end); }
    }
  }

  // --- The tokens of a document ---

  // All tokens from p on, up to the end marker.
  function Texts(doc: Bytes, p: nat): seq<Bytes>
    requires p <= |doc|
    decreases |doc| - p
  {
    var t := ReadToken(doc, p);
    if t.start == |doc| then [] else [doc[t.start..t.end]] + Texts(doc, t.end)
  }

  lemma {:induction false} ReadsTexts(doc: Bytes, p: nat, toks: seq<Bytes>, q: nat)
    requires p <= |doc| && Reads(doc, p, toks, q)
    ensures q <= |doc| && Texts(doc, p) == toks + Texts(doc, q)
    decreases |toks|
  {
    hide TokenAt, ReadToken;
    if toks == [] {
      assert [] + Texts(doc, q) == Texts(doc, q);
    } else {
      var t := ReadToken(doc, p);
      ReadsTexts(doc, t.end, toks[1..], q);
      assert toks + Texts(doc, q) == [toks[0]] + (toks[1..] + Texts(doc, q));
    }
  }

  lemma NoTexts(doc: Bytes, p: nat)
    requires p <= |doc|
    ensures Texts(doc, p) == [] <==> SkipSpaces(doc, p) == |doc|
  {
    hide TokenAt;
  }

  // The first token, if its text is one token when it stands alone.
  lemma FirstText(doc: Bytes, p: nat)
    requires p <= |doc| && ReadToken(doc, p).start < |doc|
    ensures var t := ReadToken(doc, p);
      && p < t.end && Texts(doc, p) == [doc[t.start..t.end]] + Texts(doc, t.end)
      && (IsTokenText(doc[t.start..t.end]) ==> t.kind != CommentToken)
  {
    hide StringEnd, CommentEnd, NumberEnd, Match;
  }

  lemma NothingIsOk()
    ensures LiteralOk([])
  {
  }

  lemma NoMore(doc: Bytes, p: nat, q: nat)
    requires p <= |doc| && ReadToken(doc, p).start == |doc| && q <= |doc|
    ensures Plain(doc, p, q)
  {
    var t := ReadToken(doc, p);
    assert doc[t.start..t.end] == [] && t.end == |doc|;
    hide LiteralOk, TokenAt;
    assert LiteralOk([]) by { NothingIsOk(); }
  }

  // No closing brace behind a comma.
  lemma CommaThenBrace(doc: Bytes, p: nat)
    requires p <= |doc| && Orderly(Texts(doc, p)) && ReadToken(doc, p).kind == ArraySeparator
    ensures ReadToken(doc, ReadToken(doc, p).end).kind != ObjectEnd
  {
    hide TokenAt, ReadToken, LiteralOk, IsTokenText, Texts;
    var t := ReadToken(doc, p);
    var u := ReadToken(doc, t.end);
    FirstText(doc, p);
    KindText(doc, p);
    var rest := Texts(doc, t.end);
    assert Texts(doc, p)[0] == [COMMA] && (rest != [] ==> Texts(doc, p)[1] == rest[0]);
    if u.kind == ObjectEnd {
      FirstText(doc, t.end);
      KindText(doc, t.end);
    }
  }

  // Orderly tokens leave no comment and no oddity to be met on the way.
  lemma {:induction false} OrderlyIsPlain(doc: Bytes, p: nat, q: nat)
    requires p <= |doc| && q <= |doc| && Orderly(Texts(doc, p))
    ensures Plain(doc, p, q)
    decreases |doc| - p
  {
    hide TokenAt, ReadToken, LiteralOk, IsTokenText, Texts;
    var t := ReadToken(doc, p);
    if t.start == |doc| {
      NoMore(doc, p, q);
    } else if p < q {
      FirstText(doc, p);
      var rest := Texts(doc, t.end);
      assert Texts(doc, p)[0] == doc[t.start..t.end] && Texts(doc, p)[1..] == rest;
      OrderlyIsPlain(doc, t.end, q);
      if t.kind == ArraySeparator { CommaThenBrace(doc, p); }
    }
  }
}
