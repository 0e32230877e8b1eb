/** Reading through comments, where they are allowed: a text with comments is read as the text with white space
    in their place, unless one stands before a colon or is all there is between the brackets of an array. */
module JsonThrough {
  import opened Common
  import opened JsonText
  import opened JsonValue
  import opened JsonString
  import opened JsonLexer
  import opened JsonGrammar
  import opened JsonMap
  import opened JsonTokens
  import opened JsonSyntax
  import opened JsonLiterals
  import opened JsonShape
  import opened JsonReading
  import opened JsonComplete
  import opened JsonSound
  import opened JsonTidy
  import opened JsonConform
  import opened JsonComments

  // --- Going on at the next token ---

  lemma {:induction false} TokenHere(doc: Bytes, p: nat)
    requires p <= |doc|
    ensures var t := NextToken(doc, p);
      ReadToken(doc, t.start) == t == NextToken(doc, t.start)
    decreases |doc| - p
  {
    hide TokenAt;
    var t := ReadToken(doc, p);
    assert SkipSpaces(doc, t.start) == t.start;
    if t.kind == CommentToken { TokenHere(doc, t.end); }
  }

  lemma ValueJump(f: Features, scan: Scanner, doc: Bytes, p: nat, init: Node)
    requires f.allowComments && p <= |doc|
    ensures ReadValue(f, scan, doc, p, init) == ReadValue(f, scan, doc, NextToken(doc, p).start, init)
  {
    hide TokenAt, ReadToken, NextToken, ReadArray, ReadMembers, Decode, NumberValue;
    TokenHere(doc, p);
  }

  lemma MembersJump(f: Features, scan: Scanner, doc: Bytes, p: nat, last: Bytes, e: Entries)
    requires p <= |doc| && Paired(e)
    ensures ReadMembers(f, scan, doc, p, last, e) == ReadMembers(f, scan, doc, NextToken(doc, p).start, last, e)
  {
    hide TokenAt, ReadToken, NextToken, ReadMember, Decode, Recover;
    TokenHere(doc, p);
  }

  // The first text skimmed.
  lemma SkimsOne(doc: Bytes, p: nat, began: bool, tok: Bytes, rest: seq<Bytes>, q: nat)
    requires p <= |doc| && Skims(doc, p, [tok] + rest, q)
    ensures var t := NextToken(doc, p);
      && Lexes(doc, t.start, tok) && ReadToken(doc, t.start) == t && tok != [] && t.kind == KindOf(tok[0])
      && Skims(doc, t.end, rest, q)
      && (Placed(doc, p, began, [tok] + rest) <==>
            (Tight(began, tok) ==> ReadToken(doc, p).kind != CommentToken)
            && Placed(doc, t.end, tok == [OPEN_ARRAY], rest))
  {
    hide TokenAt, ReadToken, NextToken, Tight;
    assert ([tok] + rest)[0] == tok && ([tok] + rest)[1..] == rest;
    TokenHere(doc, p);
    LexedKind(doc, NextToken(doc, p).start, tok);
  }

  lemma ReadableConcat(d: Dialect, a: seq<Bytes>, b: seq<Bytes>)
    ensures AllReadable(d, a + b) <==> AllReadable(d, a) && AllReadable(d, b)
  {
    hide Readable;
  }

  lemma OneReadable(d: Dialect, tok: Bytes)
    requires tok in {[COMMA], [COLON], [OPEN_ARRAY], [CLOSE_ARRAY], [OPEN_OBJECT], [CLOSE_OBJECT]}
    ensures AllReadable(d, [tok])
  {
    WordReadable(d, tok);
  }

  lemma ReadableList(d: Dialect, a: seq<Bytes>, c: Bytes, b: seq<Bytes>)
    requires c in {[COMMA], [COLON]}
    ensures AllReadable(d, a + [c] + b) <==> AllReadable(d, a) && AllReadable(d, b)
  {
    hide AllReadable;
    OneReadable(d, c);
    ReadableConcat(d, a, [c]);
    ReadableConcat(d, a + [c], b);
  }

  lemma ReadableInside(d: Dialect, open: Bytes, inner: seq<Bytes>, close: Bytes)
    requires open in {[OPEN_ARRAY], [OPEN_OBJECT]} && close in {[CLOSE_ARRAY], [CLOSE_OBJECT]}
    ensures AllReadable(d, [open] + (inner + [close])) <==> AllReadable(d, inner)
  {
    hide AllReadable;
    OneReadable(d, open);
    OneReadable(d, close);
    ReadableConcat(d, inner, [close]);
    ReadableConcat(d, [open], inner + [close]);
  }

  // How the tokens of a value begin and end.
  lemma ValueEdges(toks: seq<Bytes>)
    requires IsValue(toks)
    ensures toks != [] && toks[0] !in {[COLON], [CLOSE_ARRAY]} && toks[|toks| - 1] != [OPEN_ARRAY]
  {
    hide AreItems, AreMembers, IsLiteral;
    if |toks| == 1 && IsLiteral(toks[0]) { LiteralIsToken(toks[0]); }
  }

  lemma ItemsEdges(toks: seq<Bytes>)
    requires AreItems(toks)
    ensures toks != [] && toks[0] !in {[COLON], [CLOSE_ARRAY]}
  {
    hide IsValue;
    if IsValue(toks) {
      ValueEdges(toks);
    } else {
      var k :| 0 <= k < |toks| && IsValue(toks[..k]) && toks[k] == [COMMA] && AreItems(toks[k + 1..]);
      ValueEdges(toks[..k]);
    }
  }

  // --- Scalars ---

  lemma ScalarDenotes(d: Dialect, text: Bytes, v: Json)
    requires ScalarMeans(d, text, v)
    ensures Denotes(d, [text], v)
  {
    hide ScalarMeans;
  }

  lemma ScalarSkim(f: Features, d: Dialect, doc: Bytes, p: nat, text: Bytes, init: Node)
    requires d.Loose? && p <= |doc| && Lexes(doc, p, text) && IsLiteral(text)
    ensures var r := ReadValue(f, d.scan, doc, p, init);
      && (r.Good? <==> Readable(d, text))
      && (r.Good? ==> r.pos == ReadToken(doc, p).end && Denotes(d, [text], r.node.value))
  {
    hide Readable, IsLiteral, TokenAt, ReadToken, ReadValue, Denotes, LiteralOk, ScalarMeans;
    LiteralExists(d, text);
    LiteralIsToken(text);
    LexedKind(doc, p, text);
    if Readable(d, text) {
      var v :| ScalarMeans(d, text, v);
      ReadsScalar(f, d, doc, p, text, v, init);
      ScalarDenotes(d, text, v);
    } else if ReadValue(f, d.scan, doc, p, init).Good? {
      var toks := ScalarRead(f, d, doc, p, init);
      ValueHasForm(d, toks, ReadValue(f, d.scan, doc, p, init).node.value);
      ValueEdges(toks);
    }
  }

  // --- Arrays ---

  lemma CommentPeek(doc: Bytes, p: nat)
    requires p <= |doc| && ReadToken(doc, p).kind == CommentToken
    ensures Peek(doc, SkipSpaces(doc, p)) == SLASH
  {
    hide StringEnd, CommentEnd, NumberEnd, Match;
  }

  lemma SkipsAgain(doc: Bytes, p: nat)
    requires p <= |doc|
    ensures var q := SkipSpaces(doc, p);
      ReadToken(doc, q) == ReadToken(doc, p) && NextToken(doc, q) == NextToken(doc, p)
  {
    hide TokenAt;
    var q := SkipSpaces(doc, p);
    assert SkipSpaces(doc, q) == q;
  }

  lemma EmptyFails(f: Features, scan: Scanner, doc: Bytes, p: nat)
    requires f.allowComments && p <= |doc| && NextToken(doc, p).kind == ArrayEnd
    ensures ReadElements(f, scan, doc, p, [], []).end.Some?
  {
    hide TokenAt, ReadToken, NextToken, Recover;
  }

  lemma EmptyArraySkim(f: Features, scan: Scanner, doc: Bytes, p: nat, q: nat)
    requires f.allowComments && p <= |doc| && Skims(doc, p, [[CLOSE_ARRAY]], q)
    ensures var l := ReadArray(f, scan, doc, p);
      && (l.end.None? <==> ReadToken(doc, p).kind != CommentToken)
      && (l.end.None? ==> l.pos == q && l.items == [])
  {
    hide TokenAt, ReadElements;
    assert [[CLOSE_ARRAY]] == [[CLOSE_ARRAY]] + [];
    SkimsOne(doc, p, true, [CLOSE_ARRAY], [], q);
    if ReadToken(doc, p).kind == CommentToken {
      CommentPeek(doc, p);
      EmptyFails(f, scan, doc, SkipSpaces(doc, p));
      SkipsAgain(doc, p);
    } else {
      ClosesArray(f, scan, doc, p);
    }
  }

  lemma ElementsStep(f: Features, scan: Scanner, doc: Bytes, p: nat, done: seq<Json>, kids: seq<Spans>)
    requires p <= |doc|
    ensures var l, v := ReadElements(f, scan, doc, p, done, kids), ReadValue(f, scan, doc, p, FRESH);
      if v.Bad? then l.end.Some?
      else
        var t := NextToken(doc, v.pos);
        && (t.kind == ArrayEnd ==> l.end.None? && l.pos == t.end && l.items == done + [v.node.value])
        && (t.kind == ArraySeparator ==>
              l == ReadElements(f, scan, doc, t.end, done + [v.node.value], kids + [v.node.spans]))
  {
    hide TokenAt, ReadToken, NextToken, Recover, ReadValue;
  }

  lemma NotTight()
    ensures !Tight(false, [COMMA]) && !Tight(false, [CLOSE_ARRAY]) && !Tight(false, [CLOSE_OBJECT])
    ensures forall b :: !Tight(b, [OPEN_ARRAY]) && !Tight(b, [OPEN_OBJECT]) && !Tight(b, [CLOSE_OBJECT])
  {
  }

  // The closing bracket alone.
  lemma ClosesList(doc: Bytes, p: nat, c: Byte, q: nat)
    requires p <= |doc| && Skims(doc, p, [[c]], q) && c in {CLOSE_ARRAY, CLOSE_OBJECT}
    ensures Placed(doc, p, false, [[c]]) && NextToken(doc, p).kind == KindOf(c) && NextToken(doc, p).end == q
  {
    hide NextToken, ReadToken;
    assert [[c]] == [[c]] + [];
    SkimsOne(doc, p, false, [c], [], q);
  }

  lemma BracketNext(doc: Bytes, p: nat)
    requires p <= |doc|
    ensures var t := NextToken(doc, p);
      Peek(doc, SkipSpaces(doc, p)) == CLOSE_ARRAY ==> t == ReadToken(doc, p) && doc[t.start..t.end] == [CLOSE_ARRAY]
  {
    hide StringEnd, CommentEnd, NumberEnd, Match;
  }

  lemma NoBracketYet(doc: Bytes, p: nat, tok: Bytes)
    requires p <= |doc| && Lexes(doc, NextToken(doc, p).start, tok) && tok != [CLOSE_ARRAY]
    ensures Peek(doc, SkipSpaces(doc, p)) != CLOSE_ARRAY
  {
    hide ReadToken, NextToken;
    TokenHere(doc, p);
    BracketNext(doc, p);
  }

  lemma {:induction false} LastItemSkim(
      f: Features, d: Dialect, doc: Bytes, p: nat, began: bool, toks: seq<Bytes>, q: nat,
      done: seq<Json>, kids: seq<Spans>) returns (items: seq<Json>)
    requires f.allowComments && d.Loose? && p <= |doc| && IsValue(toks)
    requires Skims(doc, p, toks + [[CLOSE_ARRAY]], q)
    ensures var l := ReadElements(f, d.scan, doc, p, done, kids);
      && (l.end.None? <==> AllReadable(d, toks) && Placed(doc, p, began, toks + [[CLOSE_ARRAY]]))
      && (l.end.None? ==> l.pos == q && l.items == done + items && ItemsDenote(d, toks, items) && items != [])
    decreases |toks|, 1
  {
    hide TokenAt, ReadToken, NextToken, ReadElements, ReadValue, Denotes, ItemsDenote, IsValue, AllReadable, Lexes,
      Skims, Placed, Tight;
    ElementsStep(f, d.scan, doc, p, done, kids);
    var v := ReadValue(f, d.scan, doc, p, FRESH);
    var m := SkimsSplit(doc, p, began, toks, [[CLOSE_ARRAY]], q);
    ValueEdges(toks);
    ValueSkim(f, d, doc, p, began, toks, m, FRESH);
    ClosesList(doc, m, CLOSE_ARRAY, q);
    OneDenotes(d, toks);
    items := [v.node.value];
  }

  lemma {:induction false} NextItemSkim(
      f: Features, d: Dialect, doc: Bytes, p: nat, began: bool, a: seq<Bytes>, b: seq<Bytes>, q: nat,
      done: seq<Json>, kids: seq<Spans>) returns (items: seq<Json>)
    requires f.allowComments && d.Loose? && p <= |doc| && IsValue(a) && AreItems(b)
    requires Skims(doc, p, a + ([[COMMA]] + (b + [[CLOSE_ARRAY]])), q)
    ensures var l := ReadElements(f, d.scan, doc, p, done, kids);
      && (l.end.None? <==>
            AllReadable(d, a) && AllReadable(d, b) && Placed(doc, p, began, a + ([[COMMA]] + (b + [[CLOSE_ARRAY]]))))
      && (l.end.None? ==>
            l.pos == q && l.items == done + items && ItemsDenote(d, a + [[COMMA]] + b, items) && items != [])
    decreases |a| + |b| + 1, 1
  {
    hide TokenAt, ReadToken, NextToken, ReadElements, ReadValue, Denotes, ItemsDenote, IsValue, AreItems, AllReadable,
      Lexes, Skims, Placed, Tight;
    ElementsStep(f, d.scan, doc, p, done, kids);
    var v := ReadValue(f, d.scan, doc, p, FRESH);
    var rest := b + [[CLOSE_ARRAY]];
    var m := SkimsSplit(doc, p, began, a, [[COMMA]] + rest, q);
    ValueEdges(a);
    ValueSkim(f, d, doc, p, began, a, m, FRESH);
    SkimsOne(doc, m, false, [COMMA], rest, q);
    NotTight();
    var t := NextToken(doc, m);
    var others := ItemsSkim(f, d, doc, t.end, false, b, q, done + [v.node.value], kids + [v.node.spans]);
    items := [v.node.value] + others;
    assert done + [v.node.value] + others == done + items;
    if v.Good? && others != [] && ItemsDenote(d, b, others) { ItemsCons(d, a, v.node.value, b, others); }
  }

  lemma {:induction false} ItemsSkim(
      f: Features, d: Dialect, doc: Bytes, p: nat, began: bool, toks: seq<Bytes>, q: nat,
      done: seq<Json>, kids: seq<Spans>) returns (items: seq<Json>)
    requires f.allowComments && d.Loose? && p <= |doc| && AreItems(toks)
    requires Skims(doc, p, toks + [[CLOSE_ARRAY]], q)
    ensures var l := ReadElements(f, d.scan, doc, p, done, kids);
      && (l.end.None? <==> AllReadable(d, toks) && Placed(doc, p, began, toks + [[CLOSE_ARRAY]]))
      && (l.end.None? ==> l.pos == q && l.items == done + items && ItemsDenote(d, toks, items) && items != [])
    decreases |toks|, 2
  {
    hide ReadElements, Denotes, ItemsDenote, IsValue, AllReadable, Skims, Placed;
    if IsValue(toks) {
      items := LastItemSkim(f, d, doc, p, began, toks, q, done, kids);
    } else {
      var k :| 0 <= k < |toks| && IsValue(toks[..k]) && toks[k] == [COMMA] && AreItems(toks[k + 1..]);
      var a, b := toks[..k], toks[k + 1..];
      assert toks == a + [[COMMA]] + b;
      assert toks + [[CLOSE_ARRAY]] == a + ([[COMMA]] + (b + [[CLOSE_ARRAY]]));
      ReadableList(d, a, [COMMA], b);
      items := NextItemSkim(f, d, doc, p, began, a, b, q, done, kids);
    }
  }

  lemma {:induction false} ArraySkim(f: Features, d: Dialect, doc: Bytes, p: nat, toks: seq<Bytes>, q: nat)
    returns (items: seq<Json>)
    requires f.allowComments && d.Loose? && p <= |doc| && (toks == [] || AreItems(toks))
    requires Skims(doc, p, toks + [[CLOSE_ARRAY]], q)
    ensures var l := ReadArray(f, d.scan, doc, p);
      && (l.end.None? <==> AllReadable(d, toks) && Placed(doc, p, true, toks + [[CLOSE_ARRAY]]))
      && (l.end.None? ==> l.pos == q && l.items == items && ItemsDenote(d, toks, items))
    decreases |toks|, 3
  {
    hide TokenAt, ReadToken, NextToken, ReadElements, Denotes, IsValue, Readable, Lexes;
    if toks == [] {
      items := [];
      assert toks + [[CLOSE_ARRAY]] == [[CLOSE_ARRAY]] + [];
      SkimsOne(doc, p, true, [CLOSE_ARRAY], [], q);
      EmptyArraySkim(f, d.scan, doc, p, q);
    } else {
      ItemsEdges(toks);
      var q0, rest := SkipSpaces(doc, p), toks[1..] + [[CLOSE_ARRAY]];
      assert toks + [[CLOSE_ARRAY]] == [toks[0]] + rest;
      SkimsOne(doc, p, true, toks[0], rest, q);
      NoBracketYet(doc, p, toks[0]);
      SkipsAgain(doc, p);
      items := ItemsSkim(f, d, doc, q0, true, toks, q, [], []);
    }
  }

  // --- Objects ---

  lemma AfterStep(f: Features, scan: Scanner, doc: Bytes, p: nat, name: Bytes, e: Entries)
    requires p <= |doc| && Paired(e) && NextToken(doc, p).kind in {ObjectEnd, ArraySeparator}
    ensures var t := NextToken(doc, p);
      AfterMember(f, scan, doc, p, name, e) ==
        if t.kind == ObjectEnd then Grouped(e, None, t.end) else ReadMembers(f, scan, doc, t.end, name, e)
  {
    hide TokenAt, ReadToken, Recover, ReadMembers;
  }

  lemma MemberFails(f: Features, scan: Scanner, doc: Bytes, p: nat, raw: Bytes, e: Entries)
    requires p <= |doc| && Paired(e)
    requires var c := ReadToken(doc, p);
      c.kind != MemberSeparator || ReadValue(f, scan, doc, c.end, Lookup(e, CString(raw))).Bad?
    ensures ReadMember(f, scan, doc, p, raw, e).end.Some?
  {
    hide TokenAt, ReadToken, Recover, ReadValue, AfterMember, Lookup, Store, CString;
  }

  // The name of a member, which is read if its surrogates are coupled.
  lemma NameSkim(f: Features, d: Dialect, doc: Bytes, p: nat, text: Bytes, last: Bytes, e: Entries)
    returns (raw: Bytes)
    requires d.Loose? && p <= |doc| && Paired(e) && IsString(text) && Lexes(doc, NextToken(doc, p).start, text)
    ensures var g, t := ReadMembers(f, d.scan, doc, p, last, e), NextToken(doc, p);
      && (!Readable(d, text) ==> g.end.Some?)
      && (Readable(d, text) ==> g == ReadMember(f, d.scan, doc, t.end, raw, e) && StringMeans(d, text, CString(raw)))
  {
    hide TokenAt, ReadToken, NextToken, Decode, Lexes, ReadMember, Recover, CString, Meaning, IsChars, WellEscaped,
      Coupled;
    var t := NextToken(doc, p);
    TokenHere(doc, p);
    MembersJump(f, d.scan, doc, p, last, e);
    LexedChars(doc, t.start, text);
    MeaningExists(false, text, 1, |text| - 1);
    CharsEscaped(text, 1, |text| - 1);
    assert Readable(d, text) <==> Coupled(false, text, 1, |text| - 1);
    if Readable(d, text) {
      raw := Meaning(false, text, 1, |text| - 1).value;
    } else {
      raw := [];
    }
  }

  lemma ColonSkim(doc: Bytes, p: nat)
    requires p <= |doc| && ReadToken(doc, p).kind != CommentToken
    ensures ReadToken(doc, p) == NextToken(doc, p)
  {
  }

  // The members read on top of e are what the tokens denote.
  ghost predicate MembersAre(
      d: Dialect, toks: seq<Bytes>, entries: seq<Member>, e: Entries, g: Grouped, q: nat) {
    && g.pos == q && Increasing(g.entries.members)
    && AsMap(g.entries.members) == AsMap(e.members) + AsMap(entries)
    && MembersDenote(d, toks, entries) && entries != []
  }

  lemma ColonLexes(doc: Bytes, p: nat)
    requires p <= |doc| && NextToken(doc, p) == ReadToken(doc, p) && Lexes(doc, NextToken(doc, p).start, [COLON])
    ensures Lexes(doc, p, [COLON])
  {
    TokenHere(doc, p);
  }

  // From behind the name of a member: a comment makes it fail, and so does its value.
  lemma ValueOfPair(f: Features, scan: Scanner, doc: Bytes, p: nat, raw: Bytes, e: Entries)
    requires p <= |doc| && Paired(e) && Lexes(doc, NextToken(doc, p).start, [COLON])
    ensures var c, key := NextToken(doc, p), CString(raw);
      var v := ReadValue(f, scan, doc, c.end, Lookup(e, key));
      if ReadToken(doc, p).kind == CommentToken || v.Bad? then ReadMember(f, scan, doc, p, raw, e).end.Some?
      else ReadMember(f, scan, doc, p, raw, e) == AfterMember(f, scan, doc, v.pos, raw, Store(e, key, v.node))
  {
    hide TokenAt, ReadToken, NextToken, ReadValue, ReadMember, AfterMember, Lexes, Store, CString, Lookup;
    if ReadToken(doc, p).kind == CommentToken {
      MemberFails(f, scan, doc, p, raw, e);
    } else {
      ColonSkim(doc, p);
      ColonLexes(doc, p);
      LexedKind(doc, p, [COLON]);
      var v := ReadValue(f, scan, doc, NextToken(doc, p).end, Lookup(e, CString(raw)));
      if v.Bad? {
        MemberFails(f, scan, doc, p, raw, e);
      } else {
        ColonStep(f, scan, doc, p, raw, v.node.value, v.pos, e);
      }
    }
  }

  lemma ReadablePair(d: Dialect, name: Bytes, value: seq<Bytes>)
    ensures AllReadable(d, [name] + ([[COLON]] + value)) <==> Readable(d, name) && AllReadable(d, value)
  {
    hide Readable;
    WordReadable(d, [COLON]);
    ReadableConcat(d, [name], [[COLON]] + value);
    ReadableConcat(d, [[COLON]], value);
  }

  // Comments of a member stand in their places if none is before its colon, and in its value.
  lemma PairPlaced(doc: Bytes, p: nat, began: bool, name: Bytes, value: seq<Bytes>)
    requires p <= |doc| && name != [] && name[0] == QUOTE
    ensures var t := NextToken(doc, p);
      var c := NextToken(doc, t.end);
      Placed(doc, p, began, [name] + ([[COLON]] + value)) <==>
        ReadToken(doc, t.end).kind != CommentToken && Placed(doc, c.end, false, value)
  {
    hide NextToken, ReadToken;
    var toks := [name] + ([[COLON]] + value);
    assert toks[0] == name && toks[1..] == [[COLON]] + value && ([[COLON]] + value)[1..] == value;
  }

  // A member and what follows it, token by token.
  lemma SplitPair(doc: Bytes, p: nat, began: bool, a: seq<Bytes>, rest: seq<Bytes>, q: nat) returns (to: nat)
    requires p <= |doc| && IsPair(a) && Skims(doc, p, a + rest, q)
    ensures var t := NextToken(doc, p);
      var c := NextToken(doc, t.end);
      && Lexes(doc, t.start, a[0]) && Lexes(doc, c.start, [COLON])
      && Skims(doc, c.end, a[2..], to) && to <= |doc| && Skims(doc, to, rest, q)
      && (Placed(doc, p, began, a) <==>
            ReadToken(doc, t.end).kind != CommentToken && Placed(doc, c.end, false, a[2..]))
      && (Placed(doc, p, began, a + rest) <==> Placed(doc, p, began, a) && Placed(doc, to, false, rest))
  {
    hide ReadToken, NextToken, IsValue, Lexes, Skims, Placed, IsString, KindOf;
    var name, value := a[0], a[2..];
    assert a == [name] + ([[COLON]] + value) && a + rest == [name] + ([[COLON]] + (value + rest));
    SkimsOne(doc, p, began, name, [[COLON]] + (value + rest), q);
    var t := NextToken(doc, p);
    SkimsOne(doc, t.end, false, [COLON], value + rest, q);
    to := SkimsSplit(doc, NextToken(doc, t.end).end, false, value, rest, q);
    ValueEdges(value);
    StringIsToken(name);
    PairPlaced(doc, p, began, name, value);
  }

  // A member up to what follows it.
  lemma {:induction false} PairSkim(
      f: Features, d: Dialect, doc: Bytes, p: nat, began: bool, a: seq<Bytes>, rest: seq<Bytes>, q: nat,
      last: Bytes, e: Entries) returns (to: nat, e1: Entries, raw: Bytes, m: Member)
    requires f.allowComments && d.Loose? && p <= |doc| && Paired(e) && Increasing(e.members)
    requires IsPair(a) && Skims(doc, p, a + rest, q)
    ensures to <= |doc| && Skims(doc, to, rest, q)
    ensures Placed(doc, p, began, a + rest) <==> Placed(doc, p, began, a) && Placed(doc, to, false, rest)
    ensures !(AllReadable(d, a) && Placed(doc, p, began, a)) ==> ReadMembers(f, d.scan, doc, p, last, e).end.Some?
    ensures AllReadable(d, a) && Placed(doc, p, began, a) ==>
      && MemberDenotes(d, a, m) && Paired(e1) && Increasing(e1.members)
      && AsMap(e1.members) == AsMap(e.members)[m.name := m.value]
      && ReadMembers(f, d.scan, doc, p, last, e) == AfterMember(f, d.scan, doc, to, raw, e1)
    decreases |a|, 0
  {
    hide TokenAt, ReadToken, NextToken, ReadValue, ReadMembers, ReadMember, AfterMember, Denotes, MemberDenotes,
      IsValue, AllReadable, Readable, Lexes, Skims, Placed, StringMeans, IsString, Store, CString, Lookup, Increasing,
      AsMap;
    var name, value := a[0], a[2..];
    assert a == [name] + ([[COLON]] + value) && a == [name, [COLON]] + value;
    to := SplitPair(doc, p, began, a, rest, q);
    var t := NextToken(doc, p);
    var c := NextToken(doc, t.end);
    ReadablePair(d, name, value);
    raw := NameSkim(f, d, doc, p, name, last, e);
    var key := CString(raw);
    var init := Lookup(e, key);
    ValueSkim(f, d, doc, c.end, false, value, to, init);
    var n := ReadValue(f, d.scan, doc, c.end, init).node;
    e1, m := Store(e, key, n), Member(key, n.value);
    StoreKeepsOrder(e, key, n);
    StoreUpdates(e, key, n);
    ValueOfPair(f, d.scan, doc, t.end, raw, e);
    if Readable(d, name) && ReadValue(f, d.scan, doc, c.end, init).Good? { MemberOf(d, name, key, value, n.value); }
  }

  lemma {:induction false} LastMemberSkim(
      f: Features, d: Dialect, doc: Bytes, p: nat, began: bool, toks: seq<Bytes>, q: nat, last: Bytes, e: Entries)
    returns (entries: seq<Member>)
    requires f.allowComments && d.Loose? && p <= |doc| && Paired(e) && Increasing(e.members)
    requires IsPair(toks) && Skims(doc, p, toks + [[CLOSE_OBJECT]], q)
    ensures var g := ReadMembers(f, d.scan, doc, p, last, e);
      && (g.end.None? <==> AllReadable(d, toks) && Placed(doc, p, began, toks + [[CLOSE_OBJECT]]))
      && (g.end.None? ==> MembersAre(d, toks, entries, e, g, q))
    decreases |toks|, 1
  {
    hide TokenAt, ReadToken, NextToken, ReadMembers, AfterMember, MemberDenotes, MembersDenote, IsPair, AllReadable,
      Lexes, Skims, Placed, Tight, AsMap, Increasing;
    AsMapEmpty();
    var to, e1, raw, m := PairSkim(f, d, doc, p, began, toks, [[CLOSE_OBJECT]], q, last, e);
    ClosesList(doc, to, CLOSE_OBJECT, q);
    if AllReadable(d, toks) && Placed(doc, p, began, toks) { AfterStep(f, d.scan, doc, to, raw, e1); }
    OneDenotes(d, toks);
    entries := [m];
    UpdateThen(AsMap(e.members), m, []);
    assert [m] + [] == [m];
  }

  lemma {:induction false} NextMemberSkim(
      f: Features, d: Dialect, doc: Bytes, p: nat, began: bool, a: seq<Bytes>, b: seq<Bytes>, q: nat, last: Bytes,
      e: Entries)
    returns (entries: seq<Member>)
    requires f.allowComments && d.Loose? && p <= |doc| && Paired(e) && Increasing(e.members)
    requires IsPair(a) && AreMembers(b) && Skims(doc, p, a + ([[COMMA]] + (b + [[CLOSE_OBJECT]])), q)
    ensures var g := ReadMembers(f, d.scan, doc, p, last, e);
      && (g.end.None? <==>
            AllReadable(d, a) && AllReadable(d, b) && Placed(doc, p, began, a + ([[COMMA]] + (b + [[CLOSE_OBJECT]]))))
      && (g.end.None? ==> MembersAre(d, a + [[COMMA]] + b, entries, e, g, q))
    decreases |a| + |b| + 1, 1
  {
    hide TokenAt, ReadToken, NextToken, ReadMembers, AfterMember, MemberDenotes, MembersDenote, IsPair, AreMembers,
      AllReadable, Lexes, Skims, Placed, Tight, AsMap, Increasing;
    var rest := b + [[CLOSE_OBJECT]];
    var to, e1, raw, m := PairSkim(f, d, doc, p, began, a, [[COMMA]] + rest, q, last, e);
    SkimsOne(doc, to, false, [COMMA], rest, q);
    NotTight();
    entries := [m];
    if AllReadable(d, a) && Placed(doc, p, began, a) {
      AfterStep(f, d.scan, doc, to, raw, e1);
      var others := MembersSkim(f, d, doc, NextToken(doc, to).end, false, b, q, raw, e1);
      entries := [m] + others;
      if others != [] && MembersDenote(d, b, others) { MembersCons(d, a, m, b, others); }
      UpdateThen(AsMap(e.members), m, others);
    }
  }

  lemma {:induction false} MembersSkim(
      f: Features, d: Dialect, doc: Bytes, p: nat, began: bool, toks: seq<Bytes>, q: nat, last: Bytes, e: Entries)
    returns (entries: seq<Member>)
    requires f.allowComments && d.Loose? && p <= |doc| && Paired(e) && Increasing(e.members)
    requires AreMembers(toks) && Skims(doc, p, toks + [[CLOSE_OBJECT]], q)
    ensures var g := ReadMembers(f, d.scan, doc, p, last, e);
      && (g.end.None? <==> AllReadable(d, toks) && Placed(doc, p, began, toks + [[CLOSE_OBJECT]]))
      && (g.end.None? ==> MembersAre(d, toks, entries, e, g, q))
    decreases |toks|, 2
  {
    hide ReadMembers, IsPair, AllReadable, Skims, Placed, MembersAre, Increasing;
    if IsPair(toks) {
      entries := LastMemberSkim(f, d, doc, p, began, toks, q, last, e);
    } else {
      var k :| 0 <= k < |toks| && IsPair(toks[..k]) && toks[k] == [COMMA] && AreMembers(toks[k + 1..]);
      var a, b := toks[..k], toks[k + 1..];
      assert toks == a + [[COMMA]] + b;
      assert toks + [[CLOSE_OBJECT]] == a + ([[COMMA]] + (b + [[CLOSE_OBJECT]]));
      ReadableList(d, a, [COMMA], b);
      entries := NextMemberSkim(f, d, doc, p, began, a, b, q, last, e);
    }
  }

  lemma EmptyObjectSkim(f: Features, scan: Scanner, doc: Bytes, p: nat, q: nat)
    requires p <= |doc| && Skims(doc, p, [[CLOSE_OBJECT]], q)
    ensures ReadMembers(f, scan, doc, p, [], Entries([], [])) == Grouped(Entries([], []), None, q)
    ensures Placed(doc, p, false, [[CLOSE_OBJECT]])
  {
    hide TokenAt, ReadToken, NextToken;
    ClosesList(doc, p, CLOSE_OBJECT, q);
  }

  lemma {:induction false} ObjectSkim(f: Features, d: Dialect, doc: Bytes, p: nat, toks: seq<Bytes>, q: nat)
    requires f.allowComments && d.Loose? && p <= |doc| && (toks == [] || AreMembers(toks))
    requires Skims(doc, p, toks + [[CLOSE_OBJECT]], q)
    ensures var g := ReadMembers(f, d.scan, doc, p, [], Entries([], []));
      && (g.end.None? <==> AllReadable(d, toks) && Placed(doc, p, false, toks + [[CLOSE_OBJECT]]))
      && (g.end.None? ==> g.pos == q && Denotes(d, [[OPEN_OBJECT]] + toks + [[CLOSE_OBJECT]], Obj(g.entries.members)))
    decreases |toks|, 3
  {
    hide TokenAt, ReadToken, NextToken, ReadMembers, Denotes, MembersDenote, AreMembers, Skims, Placed, Readable, AsMap;
    AsMapEmpty();
    var g := ReadMembers(f, d.scan, doc, p, [], Entries([], []));
    if toks == [] {
      assert toks + [[CLOSE_OBJECT]] == [[CLOSE_OBJECT]];
      EmptyObjectSkim(f, d.scan, doc, p, q);
      NothingDenotes(d);
      ObjectDenotes(d, toks, [], []);
    } else {
      var entries := MembersSkim(f, d, doc, p, false, toks, q, [], Entries([], []));
      assert map[] + AsMap(entries) == AsMap(entries);
      if g.end.None? { ObjectDenotes(d, toks, entries, g.entries.members); }
    }
  }

  // --- Values ---

  lemma LastSkims(doc: Bytes, p: nat, q: nat)
    requires p <= |doc| && Skims(doc, p, [], q)
    ensures p == q && forall b :: Placed(doc, p, b, [])
  {
  }

  lemma LiteralNotTight(text: Bytes, began: bool)
    requires IsLiteral(text)
    ensures !Tight(began, text)
  {
    hide IsLiteral;
    LiteralIsToken(text);
  }

  // Where comments are allowed, the tokens of a value are read as a value they denote exactly when their
  // literals can be read and no comment stands before a colon or alone in an array.
  lemma {:induction false} ValueSkim(
      f: Features, d: Dialect, doc: Bytes, p: nat, began: bool, toks: seq<Bytes>, q: nat, init: Node)
    requires f.allowComments && d.Loose? && p <= |doc| && IsValue(toks) && Skims(doc, p, toks, q)
    ensures var r := ReadValue(f, d.scan, doc, p, init);
      && (r.Good? <==> AllReadable(d, toks) && Placed(doc, p, began, toks))
      && (r.Good? ==> r.pos == q && Denotes(d, toks, r.node.value))
    decreases |toks|, 0
  {
    hide TokenAt, ReadToken, NextToken, ReadValue, ReadArray, ReadMembers, Denotes, ItemsDenote, AreItems, AreMembers,
      IsLiteral, Readable, Lexes, Skims, Placed, Tight;
    ValueJump(f, d.scan, doc, p, init);
    ValueEdges(toks);
    NotTight();
    var rest := toks[1..];
    assert toks == [toks[0]] + rest;
    SkimsOne(doc, p, began, toks[0], rest, q);
    var t := NextToken(doc, p);
    if |toks| == 1 && IsLiteral(toks[0]) {
      ScalarSkim(f, d, doc, t.start, toks[0], init);
      LastSkims(doc, t.end, q);
      LiteralNotTight(toks[0], began);
      assert toks == [toks[0]];
    } else {
      var inner, close := Inner(toks), toks[|toks| - 1];
      assert rest == inner + [close] && toks == [toks[0]] + inner + [close];
      ReadableInside(d, toks[0], inner, close);
      if Enclosed(toks, OPEN_ARRAY, CLOSE_ARRAY) {
        var items := ArraySkim(f, d, doc, t.end, inner, q);
        OpensArray(f, d.scan, doc, t.start, init);
        if ReadArray(f, d.scan, doc, t.end).end.None? { ArrayDenotes(d, inner, items); }
      } else {
        ObjectSkim(f, d, doc, t.end, inner, q);
        OpensObject(f, d.scan, doc, t.start, init);
      }
    }
  }

  // --- Documents ---

  lemma TidyValue(toks: seq<Bytes>)
    requires IsValue(toks)
    ensures AllTokenTexts(toks) && KeptApart(toks)
  {
    hide IsValue, Closed, Level;
    ValueIsTidy(toks);
    TidyTexts(toks);
  }

  // Where comments are allowed, a JSON text with comments is accepted exactly when its literals can be read,
  // no comment stands before a colon or alone in an array, and the features admit the root; its value is one
  // the tokens denote.
  lemma CommentsParse(f: Features, d: Dialect, doc: Bytes, init: Node, toks: seq<Bytes>)
    requires f.allowComments && d.Loose? && IsValue(toks) && Commented(false, false, toks, doc)
    ensures var r := Parse(f, d.scan, doc, init);
      && (r.successful <==>
            AllReadable(d, toks) && Placed(doc, 0, false, toks) && (f.strictRoot ==> |toks| > 1))
      && (r.successful ==> Denotes(d, toks, r.root.value))
  {
    hide ReadValue, Denotes, Commented, IsValue, AllReadable, Placed, Skims, Tidy, TidyPart, Closed;
    TidyValue(toks);
    assert doc[0..] == doc;
    var q := CommentedSkims(false, false, toks, doc, 0);
    ValueSkim(f, d, doc, 0, false, toks, q, init);
    var r := ReadValue(f, d.scan, doc, 0, init);
    if r.Good? { RootOf(d, toks, r.node.value); }
  }

  // A text with comments parses like a text with white space in their place, if none is misplaced; otherwise
  // it is rejected.
  lemma CommentsAreSpace(f: Features, d: Dialect, doc: Bytes, s: Bytes, init: Node, toks: seq<Bytes>)
    requires f.allowComments && d.Loose? && IsValue(toks)
    requires Commented(false, false, toks, doc) && Interleaved(toks, s)
    ensures var r, w := Parse(f, d.scan, doc, init), Parse(f, d.scan, s, init);
      if Placed(doc, 0, false, toks) then
        (r.successful <==> w.successful) && (r.successful ==> r.root.value == w.root.value)
      else !r.successful
  {
    hide Parse, Denotes, Commented, IsValue, AllReadable, Placed, Interleaved, Texts, Regular, Reads, SkipSpaces;
    CommentsParse(f, d, doc, init, toks);
    var q := JsonTexts(s, toks);
    Accepted(f, d, s, init);
    var r := Parse(f, d.scan, doc, init);
    if r.successful {
      DocumentConforms(f, d, s, init, r.root.value);
      RootOf(d, toks, r.root.value);
    }
  }

  lemma {:induction false} PlacedIsCommented(began: bool, toks: seq<Bytes>, s: Bytes)
    requires Commented(true, began, toks, s)
    ensures Commented(false, began, toks, s)
    decreases |toks|
  {
    hide IsGap, Tight;
    if toks != [] {
      var k: nat :| CommentedAt(true, began, toks[0], s, k) &&
        Commented(true, toks[0] == [OPEN_ARRAY], toks[1..], s[k + |toks[0]|..]);
      PlacedIsCommented(toks[0] == [OPEN_ARRAY], toks[1..], s[k + |toks[0]|..]);
      assert CommentedAt(false, began, toks[0], s, k);
    }
  }

  // So a text whose gaps before colons and in empty arrays are white space is read like one without comments.
  lemma PlacedCommentsAreSpace(f: Features, d: Dialect, doc: Bytes, s: Bytes, init: Node, toks: seq<Bytes>)
    requires f.allowComments && d.Loose? && IsValue(toks)
    requires Commented(true, false, toks, doc) && Interleaved(toks, s)
    ensures var r, w := Parse(f, d.scan, doc, init), Parse(f, d.scan, s, init);
      (r.successful <==> w.successful) && (r.successful ==> r.root.value == w.root.value)
  {
    hide Parse, Commented, IsValue, Placed, Interleaved, Skims;
    TidyValue(toks);
    assert doc[0..] == doc;
    var q := CommentedSkims(true, false, toks, doc, 0);
    PlacedIsCommented(false, toks, doc);
    CommentsAreSpace(f, d, doc, s, init, toks);
  }

  // Where comments are not allowed, none may stand before the root.
  lemma CommentNotAllowed(f: Features, scan: Scanner, doc: Bytes, init: Node)
    requires !f.allowComments && ReadToken(doc, 0).kind == CommentToken
    ensures !Parse(f, scan, doc, init).successful
  {
    hide TokenAt, ReadToken;
  }

  // --- Three texts ---

  lemma CommentedCons(placed: bool, began: bool, gap: Bytes, tok: Bytes, rest: seq<Bytes>, s: Bytes)
    requires IsGap(gap) && Commented(placed, tok == [OPEN_ARRAY], rest, s)
    requires placed && Tight(began, tok) ==> AllSpace(gap)
    ensures Commented(placed, began, [tok] + rest, gap + tok + s)
  {
    hide IsGap, Tight;
    var t := gap + tok + s;
    assert t[|gap|..|gap| + |tok|] == tok && t[..|gap|] == gap && t[|gap| + |tok|..] == s;
    assert ([tok] + rest)[0] == tok && ([tok] + rest)[1..] == rest;
    assert CommentedAt(placed, began, tok, t, |gap|);
  }

  lemma CommentIsGap(w: Bytes)
    requires IsComment(w)
    ensures IsGap(w) && IsGap([])
  {
    hide IsComment;
    StartsWithSlash(w);
    assert w[..|w|] == w && w[|w|..] == [];
  }

  lemma NothingCommented(placed: bool, began: bool)
    ensures Commented(placed, began, [], [])
  {
  }

  lemma EmptyArrayDenotes(d: Dialect)
    ensures var toks := [[OPEN_ARRAY], [CLOSE_ARRAY]];
      Denotes(d, toks, Arr([])) && IsValue(toks) && Interleaved(toks, [OPEN_ARRAY, CLOSE_ARRAY])
  {
    hide Denotes, IsValue, Interleaved, ItemsDenote;
    var toks := [[OPEN_ARRAY], [CLOSE_ARRAY]];
    NothingDenotes(d);
    ArrayDenotes(d, [], []);
    assert [[OPEN_ARRAY]] + [] + [[CLOSE_ARRAY]] == toks;
    ValueHasForm(d, toks, Arr([]));
    InterleavedOne([OPEN_ARRAY]);
    InterleavedOne([CLOSE_ARRAY]);
    InterleavedConcat([[OPEN_ARRAY]], [OPEN_ARRAY], [[CLOSE_ARRAY]], [CLOSE_ARRAY]);
    assert [[OPEN_ARRAY]] + [[CLOSE_ARRAY]] == toks && [OPEN_ARRAY] + [CLOSE_ARRAY] == [OPEN_ARRAY, CLOSE_ARRAY];
  }

  // A comment before an empty array, of either kind.
  lemma CommentInFront(f: Features, d: Dialect, init: Node, w: Bytes)
    requires f.allowComments && d.Loose? && IsComment(w)
    ensures var r := Parse(f, d.scan, w + [OPEN_ARRAY, CLOSE_ARRAY], init);
      r.successful && r.root.value == Arr([])
  {
    hide Parse, IsComment, Commented, Denotes, Interleaved, Regular, Texts;
    CommentIsGap(w);
    NothingCommented(true, false);
    CommentedCons(true, true, [], [CLOSE_ARRAY], [], []);
    assert [[CLOSE_ARRAY]] + [] == [[CLOSE_ARRAY]];
    CommentedCons(true, false, w, [OPEN_ARRAY], [[CLOSE_ARRAY]], [] + [CLOSE_ARRAY] + []);
    var toks := [[OPEN_ARRAY], [CLOSE_ARRAY]];
    var doc, s := w + [OPEN_ARRAY, CLOSE_ARRAY], [OPEN_ARRAY, CLOSE_ARRAY];
    assert [[OPEN_ARRAY]] + [[CLOSE_ARRAY]] == toks;
    assert doc == w + [OPEN_ARRAY] + ([] + [CLOSE_ARRAY] + []);
    EmptyArrayDenotes(d);
    PlacedCommentsAreSpace(f, d, doc, s, init, toks);
    DocumentConforms(f, d, s, init, Arr([]));
  }

  lemma BracketFirst(doc: Bytes)
    requires |doc| > 1 && doc[0] == OPEN_ARRAY && ReadToken(doc, 1).kind == CommentToken
    ensures !Placed(doc, 0, false, [[OPEN_ARRAY], [CLOSE_ARRAY]])
  {
    hide StringEnd, CommentEnd, NumberEnd, Match;
    assert SkipSpaces(doc, 0) == 0;
    assert NextToken(doc, 0).end == 1;
    var toks := [[OPEN_ARRAY], [CLOSE_ARRAY]];
    assert toks[1..] == [[CLOSE_ARRAY]];
  }

  // A comment alone in an array makes the reader reject the text.
  lemma CommentAloneInArray(f: Features, d: Dialect, init: Node, w: Bytes)
    requires f.allowComments && d.Loose? && IsComment(w)
    ensures !Parse(f, d.scan, [OPEN_ARRAY] + w + [CLOSE_ARRAY], init).successful
  {
    hide Parse, IsComment, Commented, Denotes, Interleaved, AllReadable;
    CommentIsGap(w);
    NothingCommented(false, false);
    CommentedCons(false, true, w, [CLOSE_ARRAY], [], []);
    assert [[CLOSE_ARRAY]] + [] == [[CLOSE_ARRAY]];
    CommentedCons(false, false, [], [OPEN_ARRAY], [[CLOSE_ARRAY]], w + [CLOSE_ARRAY] + []);
    var toks, doc := [[OPEN_ARRAY], [CLOSE_ARRAY]], [OPEN_ARRAY] + w + [CLOSE_ARRAY];
    assert [[OPEN_ARRAY]] + [[CLOSE_ARRAY]] == toks;
    assert doc == [] + [OPEN_ARRAY] + (w + [CLOSE_ARRAY] + []);
    EmptyArrayDenotes(d);
    CommentsParse(f, d, doc, init, toks);
    assert doc[1..1 + |w|] == w;
    CommentReads(doc, 1, w);
    BracketFirst(doc);
  }
}
