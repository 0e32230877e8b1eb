/** Soundness of the reader: what it reads denotes the value it returns in the loose dialect, if no comment,
    no comma before a closing brace and no literal outside the grammar was on its way. */
module JsonSound {
  import opened Common
  import opened JsonText
  import opened JsonValue
  import opened JsonString
  import opened JsonLexer
  import opened JsonLocal
  import opened JsonGrammar
  import opened JsonMap
  import opened JsonTokens
  import opened JsonSyntax
  import opened JsonLiterals
  import opened JsonReading

  // --- What is read without oddities denotes what was read ---

  // A number or a string keeps to its grammar.
  ghost predicate LiteralOk(text: Bytes) {
    (NumberText(text) ==> IsNumber(text)) && (text != [] && text[0] == QUOTE ==> IsString(text))
  }

  // From p to q there is no comment, no comma with a closing brace behind it, and every number and every
  // string keeps to its grammar.
  ghost predicate Plain(doc: Bytes, p: nat, q: nat)
    requires p <= |doc|
    decreases |doc| - p
  {
    p < q ==>
      var t := ReadToken(doc, p);
      && t.kind != CommentToken && LiteralOk(doc[t.start..t.end])
      && (t.kind == ArraySeparator && t.end < q ==> ReadToken(doc, t.end).kind != ObjectEnd)
      && (t.end > p ==> Plain(doc, t.end, q))
  }

  lemma {:induction false} PlainPrefix(doc: Bytes, p: nat, m: nat, q: nat)
    requires p <= |doc| && m <= q && Plain(doc, p, q)
    ensures Plain(doc, p, m)
    decreases |doc| - p
  {
    hide TokenAt, ReadToken, LiteralOk;
    if p < m && ReadToken(doc, p).end > p { PlainPrefix(doc, ReadToken(doc, p).end, m, q); }
  }

  lemma {:induction false} PlainSuffix(doc: Bytes, p: nat, toks: seq<Bytes>, m: nat, q: nat)
    requires p <= |doc| && Reads(doc, p, toks, m) && m <= q && Plain(doc, p, q)
    ensures m <= |doc| && Plain(doc, m, q)
    decreases |toks|
  {
    hide TokenAt, ReadToken, LiteralOk;
    ReadsEnd(doc, p, toks, m);
    if toks != [] {
      var t := ReadToken(doc, p);
      ReadsEnd(doc, t.end, toks[1..], m);
      PlainSuffix(doc, t.end, toks[1..], m, q);
    }
  }

  // The first token of a plain stretch.
  lemma PlainToken(doc: Bytes, p: nat, q: nat)
    requires p <= |doc| && p < q && Plain(doc, p, q) && IsSolid(NextToken(doc, p).kind) && NextToken(doc, p).end <= q
    ensures var t := ReadToken(doc, p);
      && NextToken(doc, p) == t && p < t.end && Plain(doc, t.end, q) && LiteralOk(doc[t.start..t.end])
      && (t.kind == ArraySeparator && t.end < q ==> ReadToken(doc, t.end).kind != ObjectEnd)
  {
    hide TokenAt, ReadToken, LiteralOk;
  }

  lemma ScalarRead(f: Features, d: Dialect, doc: Bytes, p: nat, init: Node) returns (toks: seq<Bytes>)
    requires d.Loose? && p <= |doc|
    requires var r, t := ReadValue(f, d.scan, doc, p, init), ReadToken(doc, p);
      && r.Good? && IsSolid(t.kind) && ValueToken(f.allowComments, doc, p) == t && LiteralOk(doc[t.start..t.end])
      && t.kind != ArrayBegin && t.kind != ObjectBegin
    ensures var r := ReadValue(f, d.scan, doc, p, init);
      Reads(doc, p, toks, r.pos) && Denotes(d, toks, r.node.value)
  {
    hide TokenAt, ReadToken, ValueToken, ReadArray, ReadMembers, Decode, NumberValue, NumberMeans, IsChars, Meaning;
    var t := ReadToken(doc, p);
    var text := doc[t.start..t.end];
    KindText(doc, p);
    toks := [text];
    if t.kind == NumberToken {
      NumberExact(d.scan, text, ReadValue(f, d.scan, doc, p, init).node.value);
    } else if t.kind == StringToken {
      LexedChars(doc, p, text);
    }
    assert Reads(doc, t.end, [], t.end);
    ReadsMore(doc, p, text, [], t.end);
    assert [text] + [] == [text];
  }

  lemma ValueStarts(f: Features, d: Dialect, doc: Bytes, p: nat, init: Node)
    requires p <= |doc|
    requires var r := ReadValue(f, d.scan, doc, p, init);
      r.Good? && Plain(doc, p, r.pos)
    ensures var r := ReadValue(f, d.scan, doc, p, init);
      var t := ReadToken(doc, p);
      && p < r.pos && NextToken(doc, p) == t && ValueToken(f.allowComments, doc, p) == t && IsSolid(t.kind)
        && t.end <= r.pos
  {
    hide TokenAt, ReadToken, ReadArray, ReadMembers, Decode, NumberValue, LiteralOk;
  }

  lemma {:induction false} ValueRead(f: Features, d: Dialect, doc: Bytes, p: nat, init: Node)
    returns (toks: seq<Bytes>)
    requires d.Loose? && p <= |doc|
    requires var r := ReadValue(f, d.scan, doc, p, init);
      r.Good? && Plain(doc, p, r.pos)
    ensures var r := ReadValue(f, d.scan, doc, p, init);
      Reads(doc, p, toks, r.pos) && Denotes(d, toks, r.node.value)
    decreases |doc| - p, 0
  {
    hide TokenAt, ReadToken, ReadArray, ReadMembers, Decode, NumberValue, LiteralOk, Denotes, ItemsDenote,
      MembersDenote, Plain, Reads;
    var r := ReadValue(f, d.scan, doc, p, init);
    ValueStarts(f, d, doc, p, init);
    PlainToken(doc, p, r.pos);
    var t := ReadToken(doc, p);
    KindText(doc, p);
    if t.kind == ArrayBegin {
      var inner := ArrayRead(f, d, doc, t.end);
      ReadsMore(doc, p, [OPEN_ARRAY], inner + [[CLOSE_ARRAY]], r.pos);
      toks := [[OPEN_ARRAY]] + inner + [[CLOSE_ARRAY]];
      assert toks == [[OPEN_ARRAY]] + (inner + [[CLOSE_ARRAY]]);
      ArrayDenotes(d, inner, ReadArray(f, d.scan, doc, t.end).items);
    } else if t.kind == ObjectBegin {
      var e := Entries([], []);
      var inner, entries := MembersRead(f, d, doc, t.end, [], e, true);
      ReadsMore(doc, p, [OPEN_OBJECT], inner + [[CLOSE_OBJECT]], r.pos);
      toks := [[OPEN_OBJECT]] + inner + [[CLOSE_OBJECT]];
      assert toks == [[OPEN_OBJECT]] + (inner + [[CLOSE_OBJECT]]);
      AsMapEmpty();
      assert map[] + AsMap(entries) == AsMap(entries);
      ObjectDenotes(d, inner, entries, ReadMembers(f, d.scan, doc, t.end, [], e).entries.members);
    } else {
      toks := ScalarRead(f, d, doc, p, init);
    }
  }

  lemma BracketReads(doc: Bytes, p: nat, q: nat)
    requires p <= |doc| && Peek(doc, SkipSpaces(doc, p)) == CLOSE_ARRAY && q == SkipSpaces(doc, p) + 1
    ensures Reads(doc, p, [[CLOSE_ARRAY]], q)
  {
    assert doc[q - 1..q] == [CLOSE_ARRAY];
    assert [[CLOSE_ARRAY]][1..] == [];
  }

  lemma PlainSpaces(doc: Bytes, p: nat, q: nat)
    requires p <= |doc| && Plain(doc, p, q)
    ensures Plain(doc, SkipSpaces(doc, p), q)
  {
    hide TokenAt, LiteralOk;
    var r := SkipSpaces(doc, p);
    assert SkipSpaces(doc, r) == r;
  }

  lemma SpacesReads(doc: Bytes, p: nat, toks: seq<Bytes>, q: nat)
    requires p <= |doc| && toks != [] && Reads(doc, SkipSpaces(doc, p), toks, q)
    ensures Reads(doc, p, toks, q)
  {
    hide TokenAt;
    var r := SkipSpaces(doc, p);
    assert SkipSpaces(doc, r) == r;
  }

  lemma {:induction false} ArrayRead(f: Features, d: Dialect, doc: Bytes, p: nat) returns (toks: seq<Bytes>)
    requires d.Loose? && p <= |doc|
    requires var l := ReadArray(f, d.scan, doc, p);
      l.end.None? && Plain(doc, p, l.pos)
    ensures var l := ReadArray(f, d.scan, doc, p);
      Reads(doc, p, toks + [[CLOSE_ARRAY]], l.pos) && ItemsDenote(d, toks, l.items)
    decreases |doc| - p, 2
  {
    hide ReadElements, Denotes, Plain, Reads;
    var l, q := ReadArray(f, d.scan, doc, p), SkipSpaces(doc, p);
    if Peek(doc, q) == CLOSE_ARRAY {
      toks := [];
      BracketReads(doc, p, l.pos);
      assert toks + [[CLOSE_ARRAY]] == [[CLOSE_ARRAY]];
    } else {
      PlainSpaces(doc, p, l.pos);
      var items;
      toks, items := ElementsRead(f, d, doc, q, [], []);
      assert [] + items == items;
      SpacesReads(doc, p, toks + [[CLOSE_ARRAY]], l.pos);
    }
  }

  lemma ReadsNothing(doc: Bytes, p: nat)
    requires p <= |doc|
    ensures Reads(doc, p, [], p)
  {
  }

  // An element and the closing bracket.
  lemma LastItem(d: Dialect, doc: Bytes, p: nat, a: seq<Bytes>, item: Json, mid: nat)
    requires p <= |doc| && mid <= |doc| && Reads(doc, p, a, mid) && Denotes(d, a, item)
    requires Lexes(doc, mid, [CLOSE_ARRAY])
    ensures Reads(doc, p, a + [[CLOSE_ARRAY]], ReadToken(doc, mid).end) && ItemsDenote(d, a, [item])
  {
    hide TokenAt, ReadToken, Denotes, Reads, Lexes;
    var end := ReadToken(doc, mid).end;
    ReadsNothing(doc, end);
    ReadsMore(doc, mid, [CLOSE_ARRAY], [], end);
    assert [[CLOSE_ARRAY]] + [] == [[CLOSE_ARRAY]];
    ReadsJoin(doc, p, a, mid, [[CLOSE_ARRAY]], end);
  }

  // An element, a comma and the others.
  lemma JoinItem(
      d: Dialect, doc: Bytes, p: nat, a: seq<Bytes>, item: Json, mid: nat, b: seq<Bytes>, others: seq<Json>, q: nat)
    requires p <= |doc| && mid <= |doc| && Reads(doc, p, a, mid) && Denotes(d, a, item)
    requires Lexes(doc, mid, [COMMA]) && Reads(doc, ReadToken(doc, mid).end, b + [[CLOSE_ARRAY]], q)
    requires ItemsDenote(d, b, others) && others != []
    ensures Reads(doc, p, a + [[COMMA]] + b + [[CLOSE_ARRAY]], q)
    ensures ItemsDenote(d, a + [[COMMA]] + b, [item] + others)
  {
    hide TokenAt, ReadToken, Denotes, ItemsDenote, Reads, Lexes;
    ItemsCons(d, a, item, b, others);
    ReadsMore(doc, mid, [COMMA], b + [[CLOSE_ARRAY]], q);
    ReadsJoin(doc, p, a, mid, [[COMMA]] + (b + [[CLOSE_ARRAY]]), q);
    assert a + [[COMMA]] + b + [[CLOSE_ARRAY]] == a + ([[COMMA]] + (b + [[CLOSE_ARRAY]]));
  }

  // What reading elements comes to, one element on.
  lemma ElementsStart(f: Features, d: Dialect, doc: Bytes, p: nat, done: seq<Json>, kids: seq<Spans>)
    requires p <= |doc|
    requires var l := ReadElements(f, d.scan, doc, p, done, kids);
      l.end.None? && Plain(doc, p, l.pos)
    ensures var l, v := ReadElements(f, d.scan, doc, p, done, kids), ReadValue(f, d.scan, doc, p, FRESH);
      var t := NextToken(doc, v.pos);
      && v.Good? && v.pos <= t.end <= l.pos && v.pos < l.pos && (t.kind == ArrayEnd || t.kind == ArraySeparator)
      && (t.kind == ArrayEnd ==> l.items == done + [v.node.value] && l.pos == t.end)
      && (t.kind == ArraySeparator ==>
            l == ReadElements(f, d.scan, doc, t.end, done + [v.node.value], kids + [v.node.spans]))
  {
    hide TokenAt, ReadToken, NextToken, Recover, ReadValue, Plain;
  }

  // The token behind an element of a plain stretch.
  lemma ElementEnds(doc: Bytes, p: nat, a: seq<Bytes>, mid: nat, q: nat)
    requires p <= |doc| && mid <= |doc| && Reads(doc, p, a, mid) && mid < q && Plain(doc, p, q)
    requires NextToken(doc, mid).kind in {ArrayEnd, ArraySeparator} && NextToken(doc, mid).end <= q
    ensures var t := ReadToken(doc, mid);
      && NextToken(doc, mid) == t && mid < t.end && Plain(doc, t.end, q)
      && Lexes(doc, mid, if t.kind == ArrayEnd then [CLOSE_ARRAY] else [COMMA])
  {
    hide TokenAt, ReadToken, NextToken, Plain, Reads, LiteralOk, Lexes;
    PlainSuffix(doc, p, a, mid, q);
    PlainToken(doc, mid, q);
    KindText(doc, mid);
  }

  lemma {:induction false} ElementsRead(
      f: Features, d: Dialect, doc: Bytes, p: nat, done: seq<Json>, kids: seq<Spans>)
    returns (toks: seq<Bytes>, items: seq<Json>)
    requires d.Loose? && p <= |doc|
    requires var l := ReadElements(f, d.scan, doc, p, done, kids);
      l.end.None? && Plain(doc, p, l.pos)
    ensures var l := ReadElements(f, d.scan, doc, p, done, kids);
      && l.items == done + items && items != []
      && Reads(doc, p, toks + [[CLOSE_ARRAY]], l.pos) && ItemsDenote(d, toks, items)
    decreases |doc| - p, 1
  {
    hide TokenAt, ReadToken, NextToken, ReadValue, ReadElements, Denotes, ItemsDenote, Plain, Reads, Lexes;
    var l, v := ReadElements(f, d.scan, doc, p, done, kids), ReadValue(f, d.scan, doc, p, FRESH);
    ElementsStart(f, d, doc, p, done, kids);
    PlainPrefix(doc, p, v.pos, l.pos);
    var a := ValueRead(f, d, doc, p, FRESH);
    ElementEnds(doc, p, a, v.pos, l.pos);
    var t, item := ReadToken(doc, v.pos), v.node.value;
    if t.kind == ArrayEnd {
      toks, items := a, [item];
      LastItem(d, doc, p, a, item, v.pos);
    } else {
      var b, others := ElementsRead(f, d, doc, t.end, done + [item], kids + [v.node.spans]);
      toks, items := a + [[COMMA]] + b, [item] + others;
      JoinItem(d, doc, p, a, item, v.pos, b, others, l.pos);
      assert done + [item] + others == done + items;
    }
  }

  // A name of the grammar that is read denotes what was decoded, up to its first NUL.
  lemma NameRead(f: Features, d: Dialect, doc: Bytes, p: nat, text: Bytes, last: Bytes, e: Entries)
    returns (raw: Bytes)
    requires d.Loose? && p <= |doc| && Paired(e) && Lexes(doc, p, text) && text != [] && text[0] == QUOTE
      && LiteralOk(text)
    requires ReadMembers(f, d.scan, doc, p, last, e).end.None?
    ensures StringMeans(d, text, CString(raw))
    ensures ReadMembers(f, d.scan, doc, p, last, e) == ReadMember(f, d.scan, doc, ReadToken(doc, p).end, raw, e)
  {
    hide TokenAt, ReadToken, Decode, Lexes, ReadMember, Recover, CString, Meaning, IsChars;
    LexedKind(doc, p, text);
    LexedChars(doc, p, text);
    raw := Meaning(false, text, 1, |text| - 1).value;
  }

  lemma MembersStart(f: Features, d: Dialect, doc: Bytes, p: nat, last: Bytes, e: Entries)
    requires p <= |doc| && Paired(e) && ReadMembers(f, d.scan, doc, p, last, e).end.None?
    ensures var g, t := ReadMembers(f, d.scan, doc, p, last, e), NextToken(doc, p);
      && p < g.pos && t.end <= g.pos && (t.kind == StringToken || (t.kind == ObjectEnd && g == Grouped(e, None, t.end)))
  {
    hide TokenAt, ReadToken, NextToken, Recover, ReadMember, Decode;
  }

  // Members up to the closing brace; behind a comma there is at least one.
  lemma {:induction false} MembersRead(
      f: Features, d: Dialect, doc: Bytes, p: nat, last: Bytes, e: Entries, first: bool)
    returns (toks: seq<Bytes>, entries: seq<Member>)
    requires d.Loose? && p <= |doc| && Paired(e) && Increasing(e.members)
    requires first || ReadToken(doc, p).kind != ObjectEnd
    requires var g := ReadMembers(f, d.scan, doc, p, last, e);
      g.end.None? && Plain(doc, p, g.pos)
    ensures var g := ReadMembers(f, d.scan, doc, p, last, e);
      && Increasing(g.entries.members) && AsMap(g.entries.members) == AsMap(e.members) + AsMap(entries)
      && Reads(doc, p, toks + [[CLOSE_OBJECT]], g.pos) && MembersDenote(d, toks, entries)
      && (entries == [] ==> ReadToken(doc, p).kind == ObjectEnd)
    decreases |doc| - p, 1
  {
    hide TokenAt, ReadToken, Recover, ReadMember, Decode, Denotes, MemberDenotes, Plain, Reads, LiteralOk,
      Lexes, AsMap, Increasing;
    var g := ReadMembers(f, d.scan, doc, p, last, e);
    MembersStart(f, d, doc, p, last, e);
    PlainToken(doc, p, g.pos);
    var t := ReadToken(doc, p);
    var text := doc[t.start..t.end];
    KindText(doc, p);
    if t.kind == ObjectEnd {
      toks, entries := [], [];
      AsMapEmpty();
      ReadsNothing(doc, t.end);
      ReadsMore(doc, p, [CLOSE_OBJECT], [], t.end);
      assert toks + [[CLOSE_OBJECT]] == [[CLOSE_OBJECT]] + [];
    } else {
      var raw := NameRead(f, d, doc, p, text, last, e);
      var inner;
      inner, entries := MemberRead(f, d, doc, t.end, raw, text, e);
      toks := [text] + inner;
      ReadsMore(doc, p, text, inner + [[CLOSE_OBJECT]], g.pos);
      assert toks + [[CLOSE_OBJECT]] == [text] + (inner + [[CLOSE_OBJECT]]);
    }
  }

  lemma UpdateThen(a: map<Bytes, Json>, m: Member, others: seq<Member>)
    ensures a[m.name := m.value] + AsMap(others) == a + AsMap([m] + others)
  {
    hide AsMap;
    AsMapCons(m, others);
  }

  // What stands behind a member: the closing brace, or a comma, the other members and the brace.
  ghost predicate RestDenotes(d: Dialect, toks: seq<Bytes>, others: seq<Member>) {
    if others == [] then toks == [[CLOSE_OBJECT]]
    else Enclosed(toks, COMMA, CLOSE_OBJECT) && MembersDenote(d, Inner(toks), others)
  }

  lemma OneMember(d: Dialect, toks: seq<Bytes>, m: Member)
    requires MemberDenotes(d, toks, m)
    ensures MembersDenote(d, toks, [m])
  {
  }

  // The tokens of a member from its colon on, and of the members behind it.
  lemma JoinMember(
      d: Dialect, doc: Bytes, p: nat, text: Bytes, m: Member, a: seq<Bytes>, mid: nat, b: seq<Bytes>,
      others: seq<Member>, q: nat) returns (toks: seq<Bytes>)
    requires p <= |doc| && mid <= |doc| && Lexes(doc, p, [COLON]) && Reads(doc, ReadToken(doc, p).end, a, mid)
    requires Reads(doc, mid, b, q) && StringMeans(d, text, m.name) && Denotes(d, a, m.value)
    requires RestDenotes(d, b, others)
    ensures Reads(doc, p, toks + [[CLOSE_OBJECT]], q) && MembersDenote(d, [text] + toks, [m] + others)
  {
    hide TokenAt, ReadToken, Denotes, Reads, Lexes, StringMeans, MembersDenote;
    var head := [text, [COLON]] + a;
    MemberOf(d, text, m.name, a, m.value);
    ReadsJoin(doc, ReadToken(doc, p).end, a, mid, b, q);
    ReadsMore(doc, p, [COLON], a + b, q);
    if others == [] {
      toks := [[COLON]] + a;
      assert [text] + toks == head && [m] + others == [m];
      OneMember(d, head, m);
    } else {
      toks := [[COLON]] + a + [[COMMA]] + Inner(b);
      MembersCons(d, head, m, Inner(b), others);
      assert [text] + toks == head + [[COMMA]] + Inner(b) && b == [[COMMA]] + Inner(b) + [[CLOSE_OBJECT]];
    }
    assert toks + [[CLOSE_OBJECT]] == [[COLON]] + (a + b);
  }

  lemma MemberStart(f: Features, d: Dialect, doc: Bytes, p: nat, raw: Bytes, e: Entries)
    returns (from: nat, v: Outcome, e1: Entries)
    requires p <= |doc| && Paired(e)
    requires var g := ReadMember(f, d.scan, doc, p, raw, e);
      g.end.None? && Plain(doc, p, g.pos)
    ensures var g := ReadMember(f, d.scan, doc, p, raw, e);
      && NextToken(doc, p) == ReadToken(doc, p) && ReadToken(doc, p).kind == MemberSeparator
      && from == ReadToken(doc, p).end && p < from <= v.pos <= g.pos && v.pos <= |doc|
      && v == ReadValue(f, d.scan, doc, from, Lookup(e, CString(raw))) && v.Good?
        && e1 == Store(e, CString(raw), v.node) && Paired(e1)
      && g == AfterMember(f, d.scan, doc, v.pos, raw, e1)
  {
    hide TokenAt, ReadToken, ReadValue, AfterMember, LiteralOk, Lookup, CString, Recover;
    from := ReadToken(doc, p).end;
    v := ReadValue(f, d.scan, doc, from, Lookup(e, CString(raw)));
    e1 := Store(e, CString(raw), v.node);
  }

  // From behind a member's name: the tokens behind it, and all members from this one on.
  lemma {:induction false} MemberRead(
      f: Features, d: Dialect, doc: Bytes, p: nat, raw: Bytes, text: Bytes, e: Entries)
    returns (toks: seq<Bytes>, entries: seq<Member>)
    requires d.Loose? && p <= |doc| && Paired(e) && Increasing(e.members) && StringMeans(d, text, CString(raw))
    requires var g := ReadMember(f, d.scan, doc, p, raw, e);
      g.end.None? && Plain(doc, p, g.pos)
    ensures var g := ReadMember(f, d.scan, doc, p, raw, e);
      && Increasing(g.entries.members) && AsMap(g.entries.members) == AsMap(e.members) + AsMap(entries)
      && Reads(doc, p, toks + [[CLOSE_OBJECT]], g.pos) && MembersDenote(d, [text] + toks, entries) && entries != []
    decreases |doc| - p, 1
  {
    hide Paired, TokenAt, ReadToken, ReadValue, ReadMember, AfterMember, Denotes, MembersDenote,
      Plain, Reads, LiteralOk, Lexes, AsMap, Increasing, StringMeans, Lookup, Store, CString, NextToken, RestDenotes;
    var g := ReadMember(f, d.scan, doc, p, raw, e);
    var name := CString(raw);
    var from, v, e1 := MemberStart(f, d, doc, p, raw, e);
    PlainToken(doc, p, g.pos);
    ColonText(doc, p);
    PlainPrefix(doc, from, v.pos, g.pos);
    var a := ValueRead(f, d, doc, from, Lookup(e, CString(raw)));
    PlainSuffix(doc, from, a, v.pos, g.pos);
    StoreKeepsOrder(e, name, v.node);
    StoreUpdates(e, name, v.node);
    var m := Member(name, v.node.value);
    var b, others := AfterRead(f, d, doc, v.pos, raw, e1);
    toks := JoinMember(d, doc, p, text, m, a, v.pos, b, others, g.pos);
    entries := [m] + others;
    UpdateThen(AsMap(e.members), m, others);
  }

  lemma AfterStart(f: Features, d: Dialect, doc: Bytes, p: nat, name: Bytes, e: Entries)
    requires p <= |doc| && Paired(e)
    requires var g := AfterMember(f, d.scan, doc, p, name, e);
      g.end.None? && Plain(doc, p, g.pos)
    ensures var g, t := AfterMember(f, d.scan, doc, p, name, e), ReadToken(doc, p);
      && p < g.pos && t.end <= g.pos && NextToken(doc, p) == t && (t.kind == ObjectEnd || t.kind == ArraySeparator)
      && g == (if t.kind == ObjectEnd then Grouped(e, None, t.end) else ReadMembers(f, d.scan, doc, t.end, name, e))
      && (t.kind == ArraySeparator ==> t.end < g.pos)
  {
    hide TokenAt, ReadToken, Recover, LiteralOk, ReadMembers;
    if ReadToken(doc, p).kind == ArraySeparator { MembersStart(f, d, doc, ReadToken(doc, p).end, name, e); }
  }

  // From behind a member's value.
  lemma {:induction false} AfterRead(f: Features, d: Dialect, doc: Bytes, p: nat, name: Bytes, e: Entries)
    returns (toks: seq<Bytes>, others: seq<Member>)
    requires d.Loose? && p <= |doc| && Paired(e) && Increasing(e.members)
    requires var g := AfterMember(f, d.scan, doc, p, name, e);
      g.end.None? && Plain(doc, p, g.pos)
    ensures var g := AfterMember(f, d.scan, doc, p, name, e);
      && Increasing(g.entries.members) && AsMap(g.entries.members) == AsMap(e.members) + AsMap(others)
      && Reads(doc, p, toks, g.pos)
      && RestDenotes(d, toks, others)
    decreases |doc| - p, 1
  {
    hide TokenAt, ReadToken, Recover, ReadMembers, MembersDenote, Plain, Reads, LiteralOk, Lexes, AsMap, Increasing;
    var g := AfterMember(f, d.scan, doc, p, name, e);
    AfterStart(f, d, doc, p, name, e);
    PlainToken(doc, p, g.pos);
    KindText(doc, p);
    var t := ReadToken(doc, p);
    if t.kind == ObjectEnd {
      others, toks := [], [[CLOSE_OBJECT]];
      AsMapEmpty();
      ReadsNothing(doc, t.end);
      ReadsMore(doc, p, [CLOSE_OBJECT], [], t.end);
      assert toks == [[CLOSE_OBJECT]] + [];
    } else {
      var inner;
      inner, others := MembersRead(f, d, doc, t.end, name, e, false);
      toks := [[COMMA]] + (inner + [[CLOSE_OBJECT]]);
      ReadsMore(doc, p, [COMMA], inner + [[CLOSE_OBJECT]], g.pos);
      assert Inner(toks) == inner;
    }
  }
}
