/** The offsets a successful parse leaves in the values: nested like the values, apart from one
    another, and each the text of its value. */
module JsonSpans {
  import opened Common
  import opened JsonText
  import opened JsonValue
  import opened JsonString
  import opened JsonLexer
  import opened JsonLocal
  import opened JsonGrammar
  import opened JsonReparse
  import opened JsonErrors

  // The text alone parses to the value.
  ghost predicate ParsesTo(f: Features, scan: Scanner, s: Bytes, v: Json) {
    forall init: Node :: var r := Parse(f, scan, s, init);
      r.successful && r.errors == [] && r.root.value == v
  }

  predicate Apart(a: Spans, b: Spans) { a.limit <= b.start || b.limit <= a.start }

  ghost predicate AllApart(kids: seq<Spans>) {
    forall i, j | 0 <= i < j < |kids| :: Apart(kids[i], kids[j])
  }

  // A span begins and ends with the value itself.
  predicate Edged(doc: Bytes, v: Json, start: nat, limit: nat)
    requires start < limit <= |doc|
  {
    var first, last := doc[start], doc[limit - 1];
    match v
    case Arr(_) => first == OPEN_ARRAY && last == CLOSE_ARRAY
    case Obj(_) => first == OPEN_OBJECT && last == CLOSE_OBJECT
    case Text(_) => first == QUOTE && last == QUOTE
    case _ => !IsSpace(first) && first != SLASH && !IsSpace(last)
  }

  // The spans are in the document, in one another and apart; each slice is the text of its value and parses
  // to it.
  ghost predicate Sourced(f: Features, scan: Scanner, doc: Bytes, v: Json, sp: Spans)
    decreases v
  {
    && sp.start < sp.limit <= |doc|
    && ParsesTo(f, scan, doc[sp.start..sp.limit], v) && Edged(doc, v, sp.start, sp.limit)
    && AllApart(sp.kids)
    && (forall k | k in sp.kids :: sp.start < k.start && k.limit < sp.limit)
    && match v
       case Arr(items) =>
         |items| == |sp.kids| && forall i | 0 <= i < |items| :: Sourced(f, scan, doc, items[i], sp.kids[i])
       case Obj(members) =>
         |members| == |sp.kids| && forall i | 0 <= i < |members| :: Sourced(f, scan, doc, members[i].value, sp.kids[i])
       case _ => sp.kids == []
  }

  // Values read so far between lo and hi.
  ghost predicate ItemsSourced(f: Features, scan: Scanner, doc: Bytes, items: seq<Json>, kids: seq<Spans>, lo: nat,
      hi: nat) {
    && |items| == |kids| && AllApart(kids)
    && (forall k | k in kids :: lo <= k.start && k.limit <= hi)
    && forall i | 0 <= i < |items| :: Sourced(f, scan, doc, items[i], kids[i])
  }

  ghost predicate MembersSourced(f: Features, scan: Scanner, doc: Bytes, e: Entries, lo: nat, hi: nat) {
    && |e.members| == |e.kids| && AllApart(e.kids)
    && (forall k | k in e.kids :: lo <= k.start && k.limit <= hi)
    && forall i | 0 <= i < |e.members| :: Sourced(f, scan, doc, e.members[i].value, e.kids[i])
  }

  lemma ReadTokenAgain(doc: Bytes, p: nat)
    requires p <= |doc|
    ensures ReadToken(doc, ReadToken(doc, p).start) == ReadToken(doc, p)
  {
    hide TokenAt;
    var k := SkipSpaces(doc, p);
    assert SkipSpaces(doc, k) == k;
  }

  lemma {:induction false} NextTokenAgain(doc: Bytes, p: nat)
    requires p <= |doc|
    ensures NextToken(doc, NextToken(doc, p).start) == NextToken(doc, p)
    decreases |doc| - p
  {
    hide TokenAt, ReadToken;
    ReadTokenAgain(doc, p);
    if ReadToken(doc, p).kind == CommentToken { NextTokenAgain(doc, ReadToken(doc, p).end); }
  }

  lemma TokenAgain(comments: bool, doc: Bytes, p: nat)
    requires p <= |doc| && ValueToken(comments, doc, p).kind != CommentToken
    ensures var t := ValueToken(comments, doc, p);
      ValueToken(comments, doc, t.start) == t
  {
    if comments { NextTokenAgain(doc, p); } else { ReadTokenAgain(doc, p); }
  }

  // Reading may as well start at the first token.
  lemma StartsAtToken(f: Features, scan: Scanner, doc: Bytes, p: nat, init: Node)
    requires p <= |doc| && ReadValue(f, scan, doc, p, init).Good?
    ensures var t := ValueToken(f.allowComments, doc, p);
      ReadValue(f, scan, doc, t.start, init) == ReadValue(f, scan, doc, p, init)
  {
    hide TokenAt, ReadToken, ValueToken, ReadArray, ReadMembers, Decode, NumberValue;
    TokenAgain(f.allowComments, doc, p);
  }

  // --- Where a value begins and ends ---

  lemma TokenEdges(doc: Bytes, p: nat)
    requires p <= |doc|
    ensures var t := TokenAt(doc, p);
      && (t.kind == ArrayBegin ==> doc[p] == OPEN_ARRAY) && (t.kind == ObjectBegin ==> doc[p] == OPEN_OBJECT)
      && (t.kind == ArrayEnd ==> doc[t.end - 1] == CLOSE_ARRAY)
      && (t.kind == ObjectEnd ==> doc[t.end - 1] == CLOSE_OBJECT)
      && (t.kind == StringToken ==> doc[p] == QUOTE && doc[t.end - 1] == QUOTE)
      && (t.kind in {NumberToken, TrueToken, FalseToken, NullToken} ==>
            p < t.end && !IsSpace(doc[p]) && doc[p] != SLASH && !IsSpace(doc[t.end - 1]))
  {
    hide CommentEnd, StringEnd;
    var t := TokenAt(doc, p);
    if t.kind in {TrueToken, FalseToken, NullToken} { assert doc[p + 1..t.end][t.end - p - 2] == doc[t.end - 1]; }
  }

  lemma NextTokenEdges(doc: Bytes, p: nat)
    requires p <= |doc|
    ensures var t := NextToken(doc, p);
      && (t.kind == ArrayEnd ==> doc[t.end - 1] == CLOSE_ARRAY)
      && (t.kind == ObjectEnd ==> doc[t.end - 1] == CLOSE_OBJECT)
    decreases |doc| - p
  {
    hide TokenAt;
    var t := ReadToken(doc, p);
    TokenEdges(doc, t.start);
    assert TokenAt(doc, t.start) == t;
    if t.kind == CommentToken { NextTokenEdges(doc, t.end); }
  }

  lemma {:induction false} ElementsEnd(
      f: Features, scan: Scanner, doc: Bytes, p: nat, items: seq<Json>, kids: seq<Spans>)
    requires p <= |doc| && ReadElements(f, scan, doc, p, items, kids).end.None?
    ensures var l := ReadElements(f, scan, doc, p, items, kids);
      l.pos > 0 && doc[l.pos - 1] == CLOSE_ARRAY
    decreases |doc| - p
  {
    hide TokenAt, ReadToken, NextToken, Recover, ReadValue;
    var v := ReadValue(f, scan, doc, p, FRESH);
    var t := NextToken(doc, v.pos);
    NextTokenEdges(doc, v.pos);
    if t.kind != ArrayEnd { ElementsEnd(f, scan, doc, t.end, items + [v.node.value], kids + [v.node.spans]); }
  }

  lemma ArrayEnds(f: Features, scan: Scanner, doc: Bytes, p: nat)
    requires p <= |doc| && ReadArray(f, scan, doc, p).end.None?
    ensures var l := ReadArray(f, scan, doc, p);
      l.pos > 0 && doc[l.pos - 1] == CLOSE_ARRAY
  {
    hide ReadElements;
    var q := SkipSpaces(doc, p);
    if Peek(doc, q) != CLOSE_ARRAY { ElementsEnd(f, scan, doc, q, [], []); }
  }

  lemma {:induction false} MembersEnd(f: Features, scan: Scanner, doc: Bytes, p: nat, name: Bytes, e: Entries)
    requires p <= |doc| && Paired(e) && ReadMembers(f, scan, doc, p, name, e).end.None?
    ensures var g := ReadMembers(f, scan, doc, p, name, e);
      g.pos > 0 && doc[g.pos - 1] == CLOSE_OBJECT
    decreases |doc| - p, 1
  {
    hide TokenAt, ReadToken, NextToken, Recover, ReadMember, Decode;
    var t := NextToken(doc, p);
    NextTokenEdges(doc, p);
    if t.kind == StringToken {
      MemberEnd(f, scan, doc, t.end, Decode(doc, t.start + 1, t.end - 1, []).s, e);
    }
  }

  lemma {:induction false} MemberEnd(f: Features, scan: Scanner, doc: Bytes, p: nat, name: Bytes, e: Entries)
    requires p <= |doc| && Paired(e) && ReadMember(f, scan, doc, p, name, e).end.None?
    ensures var g := ReadMember(f, scan, doc, p, name, e);
      g.pos > 0 && doc[g.pos - 1] == CLOSE_OBJECT
    decreases |doc| - p, 1
  {
    hide TokenAt, ReadToken, NextToken, Recover, ReadValue, AfterMember, CString, Lookup, Store;
    var key := CString(name);
    var v := ReadValue(f, scan, doc, ReadToken(doc, p).end, Lookup(e, key));
    AfterEnd(f, scan, doc, v.pos, name, Store(e, key, v.node));
  }

  lemma {:induction false} AfterEnd(f: Features, scan: Scanner, doc: Bytes, p: nat, name: Bytes, e: Entries)
    requires p <= |doc| && Paired(e) && AfterMember(f, scan, doc, p, name, e).end.None?
    ensures var g := AfterMember(f, scan, doc, p, name, e);
      g.pos > 0 && doc[g.pos - 1] == CLOSE_OBJECT
    decreases |doc| - p, 1
  {
    hide TokenAt, ReadToken, Recover, ReadMembers;
    NextTokenEdges(doc, p);
    var first, comma := ReadToken(doc, p), CommaToken(doc, p);
    assert comma == NextToken(doc, p);
    hide NextToken;
    if comma.kind != ObjectEnd { MembersEnd(f, scan, doc, comma.end, name, e); }
  }

  lemma ValueTokenIsAt(comments: bool, doc: Bytes, p: nat)
    requires p <= |doc|
    ensures TokenAt(doc, ValueToken(comments, doc, p).start) == ValueToken(comments, doc, p)
  {
    ReadTokenIsAt(doc, p);
    NextTokenIsAt(doc, p);
  }

  lemma ValueEdged(f: Features, scan: Scanner, doc: Bytes, p: nat, init: Node)
    requires p <= |doc| && ReadValue(f, scan, doc, p, init).Good?
    ensures var r := ReadValue(f, scan, doc, p, init);
      var start := ValueToken(f.allowComments, doc, p).start;
      start < r.pos && Edged(doc, r.node.value, start, r.pos)
  {
    hide TokenAt, ReadToken, NextToken, ReadArray, ReadMembers, Decode, NumberValue;
    var t := ValueToken(f.allowComments, doc, p);
    TokenEdges(doc, t.start);
    ValueTokenIsAt(f.allowComments, doc, p);
    if t.kind == ArrayBegin {
      ArrayEnds(f, scan, doc, t.end);
    } else if t.kind == ObjectBegin {
      MembersEnd(f, scan, doc, t.end, [], Entries([], []));
    }
  }

  // The slice a value was read from parses to that value.
  lemma SliceParses(f: Features, scan: Scanner, doc: Bytes, p: nat, init: Node)
    requires p <= |doc| && !f.strictRoot && ReadValue(f, scan, doc, p, init).Good?
    ensures var r := ReadValue(f, scan, doc, p, init);
      var t := ValueToken(f.allowComments, doc, p);
      && r.node.spans.start == t.start < r.pos == r.node.spans.limit
      && ParsesTo(f, scan, doc[t.start..r.pos], r.node.value)
  {
    hide TokenAt, ReadToken, NextToken;
    var r := ReadValue(f, scan, doc, p, init);
    var t := ValueToken(f.allowComments, doc, p);
    StartsAtToken(f, scan, doc, p, init);
    var s := doc[t.start..r.pos];
    assert Agree(doc, t.start, r.pos, s, 0, |s|);
    forall init': Node
      ensures var parsed := Parse(f, scan, s, init');
        parsed.successful && parsed.errors == [] && parsed.root.value == r.node.value
    {
      ValueLocal(f, scan, doc, t.start, r.pos, init, s, 0, |s|, init');
    }
  }

  // --- Every value of a document ---

  lemma SourcedRange(f: Features, scan: Scanner, doc: Bytes, n: Node)
    requires Sourced(f, scan, doc, n.value, n.spans)
    ensures n.spans.start < n.spans.limit <= |doc|
  {
  }

  lemma AddItem(
      f: Features, scan: Scanner, doc: Bytes, items: seq<Json>, kids: seq<Spans>, n: Node, lo: nat, mid: nat, hi: nat)
    requires ItemsSourced(f, scan, doc, items, kids, lo, mid) && Sourced(f, scan, doc, n.value, n.spans)
    requires lo <= mid <= n.spans.start && n.spans.limit <= hi
    ensures ItemsSourced(f, scan, doc, items + [n.value], kids + [n.spans], lo, hi)
  {
    SourcedRange(f, scan, doc, n);
    hide Sourced;
    var kids1 := kids + [n.spans];
    forall i, j | 0 <= i < j < |kids1| ensures Apart(kids1[i], kids1[j]) {
      assert kids[i] in kids;
    }
    forall k | k in kids1 ensures lo <= k.start && k.limit <= hi {
      assert k in kids || k == n.spans;
    }
  }

  // Where an entry was before the one at position at was inserted or replaced.
  function Before(at: nat, replaced: bool, i: nat): nat
    requires i != at
  {
    if i < at || replaced then i else i - 1
  }

  lemma StoredAt(e: Entries, name: Bytes, n: Node, i: nat)
    requires Paired(e) && i < |Store(e, name, n).kids|
    ensures var e1, at := Store(e, name, n), LowerBound(e.members, name);
      if i == at then e1.kids[i] == n.spans && e1.members[i].value == n.value
      else
        var o := Before(at, IsMember(e.members, name), i);
        o < |e.kids| && e1.kids[i] == e.kids[o] && e1.members[i] == e.members[o]
  {
    hide LowerBound;
  }

  lemma StoreApart(e: Entries, name: Bytes, n: Node, lo: nat, mid: nat)
    requires Paired(e) && AllApart(e.kids) && (forall k | k in e.kids :: lo <= k.start && k.limit <= mid)
    requires lo <= mid <= n.spans.start
    ensures AllApart(Store(e, name, n).kids)
  {
    hide LowerBound, IsMember, Store;
    var e1 := Store(e, name, n);
    forall i, j | 0 <= i < j < |e1.kids| ensures Apart(e1.kids[i], e1.kids[j]) {
      StoredAt(e, name, n, i);
      StoredAt(e, name, n, j);
    }
  }

  lemma StoreSourced(f: Features, scan: Scanner, doc: Bytes, e: Entries, name: Bytes, n: Node, lo: nat, mid: nat,
      hi: nat)
    requires MembersSourced(f, scan, doc, e, lo, mid) && Sourced(f, scan, doc, n.value, n.spans)
    requires lo <= mid <= n.spans.start && n.spans.limit <= hi
    ensures MembersSourced(f, scan, doc, Store(e, name, n), lo, hi)
  {
    SourcedRange(f, scan, doc, n);
    StoreApart(e, name, n, lo, mid);
    assert Paired(Store(e, name, n));
    hide Sourced, LowerBound, Store, IsMember, AllApart;
    var e1 := Store(e, name, n);
    forall i | 0 <= i < |e1.kids|
      ensures lo <= e1.kids[i].start && e1.kids[i].limit <= hi && Sourced(f, scan, doc, e1.members[i].value, e1.kids[i])
    {
      StoredAt(e, name, n, i);
    }
  }

  lemma {:induction false} ValueSourced(f: Features, scan: Scanner, doc: Bytes, p: nat, init: Node)
    requires p <= |doc| && !f.strictRoot && ReadValue(f, scan, doc, p, init).Good?
    ensures var n := ReadValue(f, scan, doc, p, init).node;
      Sourced(f, scan, doc, n.value, n.spans)
    decreases |doc| - p, 0
  {
    hide ParsesTo, ValueToken, NumberValue, ReadMembers, ReadArray, Decode, Edged;
    ValueEdged(f, scan, doc, p, init);
    SliceParses(f, scan, doc, p, init);
    var t := ValueToken(f.allowComments, doc, p);
    if t.kind == ArrayBegin {
      ArraySourced(f, scan, doc, t.end);
    } else if t.kind == ObjectBegin {
      MembersSourcedFrom(f, scan, doc, t.end, [], Entries([], []), t.end);
    }
  }

  lemma {:induction false} ArraySourced(f: Features, scan: Scanner, doc: Bytes, p: nat)
    requires p <= |doc| && !f.strictRoot && ReadArray(f, scan, doc, p).end.None?
    ensures var l := ReadArray(f, scan, doc, p);
      p < l.pos && ItemsSourced(f, scan, doc, l.items, l.kids, p, l.pos - 1)
    decreases |doc| - p, 2
  {
    hide Sourced, ReadElements;
    var q := SkipSpaces(doc, p);
    if Peek(doc, q) != CLOSE_ARRAY {
      ElementsSourced(f, scan, doc, q, [], [], p);
    }
  }

  lemma {:induction false} ElementsSourced(
      f: Features, scan: Scanner, doc: Bytes, p: nat, items: seq<Json>, kids: seq<Spans>, lo: nat)
    requires lo <= p <= |doc| && !f.strictRoot && ItemsSourced(f, scan, doc, items, kids, lo, p)
    requires ReadElements(f, scan, doc, p, items, kids).end.None?
    ensures var l := ReadElements(f, scan, doc, p, items, kids);
      p < l.pos && ItemsSourced(f, scan, doc, l.items, l.kids, lo, l.pos - 1)
    decreases |doc| - p, 1
  {
    hide Sourced, ItemsSourced, TokenAt, ReadToken, NextToken, Recover, ReadValue, ParsesTo;
    var v := ReadValue(f, scan, doc, p, FRESH);
    var t := NextToken(doc, v.pos);
    SliceParses(f, scan, doc, p, FRESH);
    ValueSourced(f, scan, doc, p, FRESH);
    var items1, kids1 := items + [v.node.value], kids + [v.node.spans];
    if t.kind == ArrayEnd {
      AddItem(f, scan, doc, items, kids, v.node, lo, p, t.end - 1);
    } else {
      AddItem(f, scan, doc, items, kids, v.node, lo, p, t.end);
      ElementsSourced(f, scan, doc, t.end, items1, kids1, lo);
    }
  }

  lemma {:induction false} MembersSourcedFrom(f: Features, scan: Scanner, doc: Bytes, p: nat, name: Bytes, e: Entries,
      lo: nat)
    requires lo <= p <= |doc| && !f.strictRoot && MembersSourced(f, scan, doc, e, lo, p)
    requires ReadMembers(f, scan, doc, p, name, e).end.None?
    ensures var g := ReadMembers(f, scan, doc, p, name, e);
      p < g.pos && MembersSourced(f, scan, doc, g.entries, lo, g.pos - 1)
    decreases |doc| - p, 1
  {
    hide Sourced, TokenAt, ReadToken, NextToken, Recover, ReadMember, Decode;
    var t := NextToken(doc, p);
    if t.kind == StringToken {
      MemberSourced(f, scan, doc, t.end, Decode(doc, t.start + 1, t.end - 1, []).s, e, lo);
    }
  }

  lemma {:induction false} MemberSourced(f: Features, scan: Scanner, doc: Bytes, p: nat, name: Bytes, e: Entries,
      lo: nat)
    requires lo <= p <= |doc| && !f.strictRoot && MembersSourced(f, scan, doc, e, lo, p)
    requires ReadMember(f, scan, doc, p, name, e).end.None?
    ensures var g := ReadMember(f, scan, doc, p, name, e);
      p < g.pos && MembersSourced(f, scan, doc, g.entries, lo, g.pos - 1)
    decreases |doc| - p, 1
  {
    assert Paired(e);
    hide Sourced, MembersSourced, TokenAt, ReadToken, Recover, ReadValue, AfterMember, CString, ParsesTo;
    var colon := ReadToken(doc, p);
    var key := CString(name);
    var v := ReadValue(f, scan, doc, colon.end, Lookup(e, key));
    SliceParses(f, scan, doc, colon.end, Lookup(e, key));
    ValueSourced(f, scan, doc, colon.end, Lookup(e, key));
    StoreSourced(f, scan, doc, e, key, v.node, lo, p, v.pos);
    AfterSourced(f, scan, doc, v.pos, name, Store(e, key, v.node), lo);
  }

  lemma {:induction false} AfterSourced(f: Features, scan: Scanner, doc: Bytes, p: nat, name: Bytes, e: Entries,
      lo: nat)
    requires lo <= p <= |doc| && !f.strictRoot && MembersSourced(f, scan, doc, e, lo, p)
    requires AfterMember(f, scan, doc, p, name, e).end.None?
    ensures var g := AfterMember(f, scan, doc, p, name, e);
      p < g.pos && MembersSourced(f, scan, doc, g.entries, lo, g.pos - 1)
    decreases |doc| - p, 1
  {
    hide Sourced, TokenAt, ReadToken, NextToken, Recover, ReadMembers;
    var comma := CommaToken(doc, p);
    if comma.kind != ObjectEnd {
      MembersSourcedFrom(f, scan, doc, comma.end, name, e, lo);
    }
  }

  // A successful parse leaves the span of the root, and of every value in it, on the value's own text.
  lemma ParseSourced(f: Features, scan: Scanner, doc: Bytes, init: Node)
    requires !f.strictRoot && Parse(f, scan, doc, init).successful
    ensures var root := Parse(f, scan, doc, init).root;
      Sourced(f, scan, doc, root.value, root.spans)
  {
    ValueSourced(f, scan, doc, 0, init);
  }
}
