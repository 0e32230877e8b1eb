/** Completeness of the reader: a text that denotes a value in the loose dialect is read as that value. */
module JsonComplete {
  import opened Common
  import opened JsonText
  import opened JsonValue
  import opened JsonString
  import opened JsonLexer
  import opened JsonGrammar
  import opened JsonMap
  import opened JsonTokens
  import opened JsonSyntax
  import opened JsonLiterals
  import opened JsonReading

  // --- Texts that denote a value are read as that value ---

  lemma ScalarStart(d: Dialect, text: Bytes, v: Json)
    requires ScalarMeans(d, text, v)
    ensures text != [] && text[0] !in {OPEN_ARRAY, CLOSE_ARRAY, OPEN_OBJECT, CLOSE_OBJECT, COMMA, COLON}
    ensures NumberMeans(d.scan, text, v) ==> NumberText(text)
  {
    if NumberMeans(d.scan, text, v) {
      var i: nat, j: nat :| Splits(Unsigned(text), i, j);
      assert Unsigned(text)[..i][0] == Unsigned(text)[0];
    }
  }

  lemma ReadsScalar(f: Features, d: Dialect, doc: Bytes, p: nat, text: Bytes, v: Json, init: Node)
    requires d.Loose? && p <= |doc| && Lexes(doc, p, text) && ScalarMeans(d, text, v)
    ensures var r := ReadValue(f, d.scan, doc, p, init);
      r.Good? && r.node.value == v && r.pos == ReadToken(doc, p).end
  {
    hide TokenAt, ReadToken, ReadArray, ReadMembers, Decode, NumberValue, NumberMeans, StringMeans;
    LexedKind(doc, p, text);
    ScalarStart(d, text, v);
    NumberExact(d.scan, text, v);
    if v.Text? && StringMeans(d, text, v.s) { var raw := LexedString(d, doc, p, text, v.s); }
  }

  lemma ReadsNone(doc: Bytes, p: nat, q: nat)
    requires p <= |doc| && Reads(doc, p, [], q)
    ensures p == q
  {
  }

  // Reading items reads the first, a separator and the others.
  lemma SplitItems(d: Dialect, doc: Bytes, p: nat, toks: seq<Bytes>, items: seq<Json>, q: nat)
    returns (m: nat, a: seq<Bytes>, b: seq<Bytes>)
    requires p <= |doc| && items != [] && ItemsDenote(d, toks, items) && Reads(doc, p, toks + [[CLOSE_ARRAY]], q)
    ensures p <= m <= |doc| && Reads(doc, p, a, m) && Denotes(d, a, items[0]) && |a| <= |toks|
    ensures |items| == 1 ==> Lexes(doc, m, [CLOSE_ARRAY]) && !Lexes(doc, m, [COMMA]) && ReadToken(doc, m).end == q
    ensures |items| > 1 ==>
      && |b| < |toks| && Lexes(doc, m, [COMMA]) && ItemsDenote(d, b, items[1..])
      && Reads(doc, ReadToken(doc, m).end, b + [[CLOSE_ARRAY]], q)
  {
    hide TokenAt, ReadToken, Reads, Denotes;
    if |items| == 1 {
      a, b := toks, [];
      m := ReadsSplit(doc, p, toks, [[CLOSE_ARRAY]], q);
      assert [[CLOSE_ARRAY]] == [[CLOSE_ARRAY]] + [];
      ReadsOne(doc, m, [CLOSE_ARRAY], [], q);
      ReadsNone(doc, ReadToken(doc, m).end, q);
    } else {
      var k :| 0 <= k < |toks| && Denotes(d, toks[..k], items[0]) && toks[k] == [COMMA] &&
        ItemsDenote(d, toks[k + 1..], items[1..]);
      a, b := toks[..k], toks[k + 1..];
      assert toks + [[CLOSE_ARRAY]] == a + ([[COMMA]] + (b + [[CLOSE_ARRAY]]));
      m := ReadsSplit(doc, p, a, [[COMMA]] + (b + [[CLOSE_ARRAY]]), q);
      ReadsOne(doc, m, [COMMA], b + [[CLOSE_ARRAY]], q);
    }
  }

  lemma {:induction false} ReadsItems(
      f: Features, d: Dialect, doc: Bytes, p: nat, toks: seq<Bytes>, items: seq<Json>, q: nat,
      done: seq<Json>, kids: seq<Spans>)
    requires d.Loose? && p <= |doc| && items != [] && ItemsDenote(d, toks, items)
      && Reads(doc, p, toks + [[CLOSE_ARRAY]], q)
    ensures var l := ReadElements(f, d.scan, doc, p, done, kids);
      l.items == done + items && l.end.None? && l.pos == q
    decreases |toks|, 1
  {
    hide TokenAt, ReadToken, ReadValue, ReadElements, Reads, Lexes, Denotes, ItemsDenote;
    var m, a, b := SplitItems(d, doc, p, toks, items, q);
    ReadsValue(f, d, doc, p, a, items[0], m, FRESH);
    ElementStep(f, d.scan, doc, p, items[0], m, done, kids);
    if |items| > 1 {
      ReadsItems(f, d, doc, ReadToken(doc, m).end, b, items[1..], q, done + [items[0]],
        kids + [ReadValue(f, d.scan, doc, p, FRESH).node.spans]);
      assert done + [items[0]] + items[1..] == done + items;
    } else {
      assert items == [items[0]];
    }
  }

  lemma FirstIsNoBracket(d: Dialect, toks: seq<Bytes>, v: Json)
    requires Denotes(d, toks, v)
    ensures toks != [] && toks[0] != [] && toks[0][0] !in {CLOSE_ARRAY, CLOSE_OBJECT, COMMA, COLON}
  {
    if |toks| == 1 && ScalarMeans(d, toks[0], v) { ScalarStart(d, toks[0], v); }
  }

  lemma FirstOfItems(d: Dialect, toks: seq<Bytes>, items: seq<Json>)
    requires ItemsDenote(d, toks, items) && items != []
    ensures toks != [] && toks[0] != [] && toks[0][0] != CLOSE_ARRAY
  {
    hide Denotes;
    if |items| == 1 {
      FirstIsNoBracket(d, toks, items[0]);
    } else {
      var k :| 0 <= k < |toks| && Denotes(d, toks[..k], items[0]) && toks[k] == [COMMA] &&
        ItemsDenote(d, toks[k + 1..], items[1..]);
      FirstIsNoBracket(d, toks[..k], items[0]);
    }
  }

  lemma {:induction false} ReadsArray(
      f: Features, d: Dialect, doc: Bytes, p: nat, toks: seq<Bytes>, items: seq<Json>, q: nat)
    requires d.Loose? && p <= |doc| && ItemsDenote(d, toks, items) && Reads(doc, p, toks + [[CLOSE_ARRAY]], q)
    ensures var l := ReadArray(f, d.scan, doc, p);
      l.items == items && l.end.None? && l.pos == q
    decreases |toks|, 2
  {
    hide TokenAt, ReadToken, ReadElements, Denotes;
    if items == [] {
      assert toks + [[CLOSE_ARRAY]] == [[CLOSE_ARRAY]] + [];
      ReadsOne(doc, p, [CLOSE_ARRAY], [], q);
      ClosesArray(f, d.scan, doc, p);
    } else {
      FirstOfItems(d, toks, items);
      assert toks + [[CLOSE_ARRAY]] == [toks[0]] + (toks[1..] + [[CLOSE_ARRAY]]);
      ReadsOne(doc, p, toks[0], toks[1..] + [[CLOSE_ARRAY]], q);
      LexedKind(doc, p, toks[0]);
      LeadingSpaces(doc, p, toks + [[CLOSE_ARRAY]], q);
      ReadsItems(f, d, doc, SkipSpaces(doc, p), toks, items, q, [], []);
    }
  }

  // Reading a member reads its name, a colon and its value.
  lemma SplitMember(d: Dialect, doc: Bytes, p: nat, toks: seq<Bytes>, m: Member, rest: seq<Bytes>, q: nat)
    returns (from: nat, to: nat)
    requires p <= |doc| && MemberDenotes(d, toks, m) && Reads(doc, p, toks + rest, q)
    ensures Lexes(doc, p, toks[0]) && StringMeans(d, toks[0], m.name) && Lexes(doc, ReadToken(doc, p).end, [COLON])
    ensures from == ReadToken(doc, ReadToken(doc, p).end).end <= to <= |doc|
    ensures Reads(doc, from, toks[2..], to) && Denotes(d, toks[2..], m.value) && Reads(doc, to, rest, q)
  {
    hide TokenAt, ReadToken, Reads, Denotes, StringMeans;
    assert toks + rest == [toks[0]] + ([[COLON]] + (toks[2..] + rest));
    ReadsOne(doc, p, toks[0], [[COLON]] + (toks[2..] + rest), q);
    ReadsOne(doc, ReadToken(doc, p).end, [COLON], toks[2..] + rest, q);
    from := ReadToken(doc, ReadToken(doc, p).end).end;
    to := ReadsSplit(doc, from, toks[2..], rest, q);
  }

  // A member is read and stored; behind it stands what followed it.
  lemma {:induction false} ReadsMember(
      f: Features, d: Dialect, doc: Bytes, p: nat, toks: seq<Bytes>, m: Member, rest: seq<Bytes>, q: nat,
      last: Bytes, e: Entries) returns (to: nat, e1: Entries, raw: Bytes)
    requires d.Loose? && p <= |doc| && Paired(e) && Increasing(e.members) && MemberDenotes(d, toks, m)
    requires Reads(doc, p, toks + rest, q)
    ensures Paired(e1) && Increasing(e1.members) && AsMap(e1.members) == AsMap(e.members)[m.name := m.value]
    ensures to <= |doc| && Reads(doc, to, rest, q)
    ensures ReadMembers(f, d.scan, doc, p, last, e) == AfterMember(f, d.scan, doc, to, raw, e1)
    decreases |toks|, 0
  {
    var from;
    from, to := SplitMember(d, doc, p, toks, m, rest, q);
    hide TokenAt, ReadToken, ReadValue, ReadMembers, ReadMember, AfterMember, Reads, Lexes, Denotes, StringMeans, Store,
      CString;
    var init := Lookup(e, m.name);
    ReadsValue(f, d, doc, from, toks[2..], m.value, to, init);
    var n := ReadValue(f, d.scan, doc, from, init).node;
    raw := NameStep(f, d, doc, p, toks[0], m.name, last, e);
    ColonStep(f, d.scan, doc, ReadToken(doc, p).end, raw, m.value, to, e);
    e1 := Store(e, m.name, n);
    StoreKeepsOrder(e, m.name, n);
    StoreUpdates(e, m.name, n);
  }

  // Reading members reads the first, a separator and the others.
  lemma SplitMembers(d: Dialect, toks: seq<Bytes>, entries: seq<Member>)
    returns (a: seq<Bytes>, b: seq<Bytes>, rest: seq<Bytes>)
    requires entries != [] && MembersDenote(d, toks, entries)
    ensures MemberDenotes(d, a, entries[0]) && |a| <= |toks| && toks + [[CLOSE_OBJECT]] == a + rest
    ensures |entries| == 1 ==> rest == [[CLOSE_OBJECT]]
    ensures |entries| > 1 ==>
      |b| < |toks| && MembersDenote(d, b, entries[1..]) && rest == [[COMMA]] + (b + [[CLOSE_OBJECT]])
  {
    hide MemberDenotes;
    if |entries| == 1 {
      a, b, rest := toks, [], [[CLOSE_OBJECT]];
    } else {
      var k :| 0 <= k < |toks| && MemberDenotes(d, toks[..k], entries[0]) && toks[k] == [COMMA] &&
        MembersDenote(d, toks[k + 1..], entries[1..]);
      a, b := toks[..k], toks[k + 1..];
      rest := [[COMMA]] + (b + [[CLOSE_OBJECT]]);
    }
  }

  lemma NotBoth(doc: Bytes, p: nat, a: Bytes, b: Bytes)
    requires p <= |doc| && Lexes(doc, p, a) && a != b
    ensures !Lexes(doc, p, b)
  {
  }

  lemma {:induction false} ReadsMembers(
      f: Features, d: Dialect, doc: Bytes, p: nat, toks: seq<Bytes>, entries: seq<Member>, q: nat,
      last: Bytes, e: Entries)
    requires d.Loose? && p <= |doc| && entries != [] && MembersDenote(d, toks, entries)
    requires Paired(e) && Increasing(e.members) && Reads(doc, p, toks + [[CLOSE_OBJECT]], q)
    ensures var g := ReadMembers(f, d.scan, doc, p, last, e);
      g.end.None? && g.pos == q && Increasing(g.entries.members)
      && AsMap(g.entries.members) == AsMap(e.members) + AsMap(entries)
    decreases |toks|, 1
  {
    hide TokenAt, ReadToken, ReadMembers, AfterMember, Reads, Lexes, MemberDenotes, MembersDenote, AsMap, Increasing;
    var first, others := entries[0], entries[1..];
    assert entries == [first] + others;
    AsMapCons(first, others);
    var a, b, rest := SplitMembers(d, toks, entries);
    var to, e1, raw := ReadsMember(f, d, doc, p, a, first, rest, q, last, e);
    if others == [] {
      assert rest == [[CLOSE_OBJECT]] + [] && AsMap(others) == map[] by { AsMapEmpty(); }
      ReadsOne(doc, to, [CLOSE_OBJECT], [], q);
      ReadsNone(doc, ReadToken(doc, to).end, q);
      NotBoth(doc, to, [CLOSE_OBJECT], [COMMA]);
      SeparatorStep(f, d.scan, doc, to, raw, e1);
    } else {
      ReadsOne(doc, to, [COMMA], b + [[CLOSE_OBJECT]], q);
      SeparatorStep(f, d.scan, doc, to, raw, e1);
      ReadsMembers(f, d, doc, ReadToken(doc, to).end, b, others, q, raw, e1);
    }
  }

  lemma {:induction false} ReadsObject(
      f: Features, d: Dialect, doc: Bytes, p: nat, toks: seq<Bytes>, members: seq<Member>, q: nat)
    requires d.Loose? && p <= |doc| && Increasing(members) && Reads(doc, p, toks + [[CLOSE_OBJECT]], q)
    requires exists entries :: MembersDenote(d, toks, entries) && AsMap(entries) == AsMap(members)
    ensures var g := ReadMembers(f, d.scan, doc, p, [], Entries([], []));
      g.end.None? && g.pos == q && g.entries.members == members
    decreases |toks|, 2
  {
    hide TokenAt, ReadToken, ReadMembers, MemberDenotes, AsMap;
    var entries :| MembersDenote(d, toks, entries) && AsMap(entries) == AsMap(members);
    AsMapEmpty();
    if entries == [] {
      assert toks + [[CLOSE_OBJECT]] == [[CLOSE_OBJECT]] + [];
      ReadsOne(doc, p, [CLOSE_OBJECT], [], q);
      ClosesObject(f, d.scan, doc, p, Entries([], []));
      MapDetermines([], members);
    } else {
      ReadsMembers(f, d, doc, p, toks, entries, q, [], Entries([], []));
      MapDetermines(ReadMembers(f, d.scan, doc, p, [], Entries([], [])).entries.members, members);
    }
  }

  lemma {:induction false} ReadsValue(
      f: Features, d: Dialect, doc: Bytes, p: nat, toks: seq<Bytes>, v: Json, q: nat, init: Node)
    requires d.Loose? && p <= |doc| && Denotes(d, toks, v) && Reads(doc, p, toks, q)
    ensures var r := ReadValue(f, d.scan, doc, p, init);
      r.Good? && r.node.value == v && r.pos == q
    decreases |toks|, 0
  {
    hide TokenAt, ReadToken, ReadValue, ReadArray, ReadMembers, ScalarMeans, ItemsDenote, MembersDenote,
      AsMap, Increasing;
    if |toks| == 1 && ScalarMeans(d, toks[0], v) {
      assert toks == [toks[0]] + [];
      ReadsOne(doc, p, toks[0], [], q);
      ReadsScalar(f, d, doc, p, toks[0], v, init);
    } else {
      var inner, close := Inner(toks), toks[|toks| - 1];
      assert toks == [toks[0]] + (inner + [close]);
      ReadsOne(doc, p, toks[0], inner + [close], q);
      var from := ReadToken(doc, p).end;
      if v.Arr? {
        OpensArray(f, d.scan, doc, p, init);
        ReadsArray(f, d, doc, from, inner, v.items, q);
      } else {
        OpensObject(f, d.scan, doc, p, init);
        ReadsObject(f, d, doc, from, inner, v.members, q);
      }
    }
  }
}
