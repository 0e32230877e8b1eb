/** What the reader builds: objects are maps in the order of their names, strings have no NUL, and
    integers have the type their size calls for. Printing and parsing it again changes nothing. */
module JsonClean {
  import opened Common
  import opened JsonText
  import opened JsonValue
  import opened JsonNumber
  import opened JsonString
  import opened JsonLexer
  import opened JsonMap
  import opened JsonGrammar
  import opened JsonSyntax
  import opened JsonRender
  import opened JsonReadBack

  ghost predicate Clean(v: Json) {
    match v
    case Int(i) => -TWO63 <= i <= MAX_INT
    case UInt(u) => MAX_INT < u < TWO64
    case Text(s) => NulFree(s)
    case Arr(items) => forall x | x in items :: Clean(x)
    case Obj(members) => Increasing(members) && forall x | x in members :: NulFree(x.name) && Clean(x.value)
    case _ => true
  }

  predicate RealFree(v: Json) {
    match v
    case Real(_) => false
    case Arr(items) => forall x | x in items :: RealFree(x)
    case Obj(members) => forall x | x in members :: RealFree(x.value)
    case _ => true
  }

  // --- Values as read are clean ---

  lemma {:induction false} CStringIsNulFree(s: Bytes)
    ensures NulFree(CString(s))
  {
    if s != [] && s[0] != 0 { CStringIsNulFree(s[1..]); }
  }

  lemma {:induction false} ScanIsBounded(rest: Bytes, value: nat, max: nat)
    requires value <= max && max >= 10
    ensures var r := Scan(rest, value, max);
      r.Exact? ==> r.value <= max
    decreases |rest|
  {
    if rest != [] && Scan(rest, value, max).Exact? {
      ScanIsBounded(rest[1..], value * 10 + (rest[0] - ZERO), max);
    }
  }

  lemma NumberIsClean(scan: Scanner, text: Bytes)
    requires text != []
    ensures NumberValue(scan, text).Some? ==> Clean(NumberValue(scan, text).value)
  {
    var negative := text[0] == MINUS;
    var rest := if negative then text[1..] else text;
    ScanIsBounded(rest, 0, Limit(negative));
    var r := Scan(rest, 0, Limit(negative));
    if r.Exact? { TypedIsExact(negative, r.value); }
  }

  ghost predicate CleanEntries(e: Entries) {
    Paired(e) && Clean(Obj(e.members))
  }

  lemma StoreIsClean(e: Entries, name: Bytes, n: Node)
    requires CleanEntries(e) && NulFree(name) && Clean(n.value)
    ensures CleanEntries(Store(e, name, n))
  {
    StoreKeepsOrder(e, name, n);
    hide LowerBound, IsMember;
  }

  lemma {:induction false} ValueIsClean(f: Features, scan: Scanner, doc: Bytes, p: nat, init: Node)
    requires p <= |doc| && ReadValue(f, scan, doc, p, init).Good?
    ensures Clean(ReadValue(f, scan, doc, p, init).node.value)
    decreases |doc| - p, 0
  {
    hide ValueToken, Decode, NumberValue, ReadMembers, ReadArray;
    var t := ValueToken(f.allowComments, doc, p);
    match t.kind {
      case ObjectBegin => MembersAreClean(f, scan, doc, t.end, [], Entries([], []));
      case ArrayBegin => ArrayIsClean(f, scan, doc, t.end);
      case NumberToken => NumberIsClean(scan, doc[t.start..t.end]);
      case StringToken => CStringIsNulFree(Decode(doc, t.start + 1, t.end - 1, []).s);
      case _ =>
    }
  }

  lemma {:induction false} ArrayIsClean(f: Features, scan: Scanner, doc: Bytes, p: nat)
    requires p <= |doc| && ReadArray(f, scan, doc, p).end.None?
    ensures Clean(Arr(ReadArray(f, scan, doc, p).items))
    decreases |doc| - p, 2
  {
    hide ReadElements;
    var q := SkipSpaces(doc, p);
    if Peek(doc, q) != CLOSE_ARRAY { ElementsAreClean(f, scan, doc, q, [], []); }
  }

  lemma {:induction false} ElementsAreClean(f: Features, scan: Scanner, doc: Bytes, p: nat, items: seq<Json>,
      kids: seq<Spans>)
    requires p <= |doc| && Clean(Arr(items)) && ReadElements(f, scan, doc, p, items, kids).end.None?
    ensures Clean(Arr(ReadElements(f, scan, doc, p, items, kids).items))
    decreases |doc| - p, 1
  {
    hide TokenAt, ReadToken, NextToken, Recover, ReadValue;
    var v := ReadValue(f, scan, doc, p, FRESH);
    ValueIsClean(f, scan, doc, p, FRESH);
    var t := NextToken(doc, v.pos);
    if t.kind != ArrayEnd {
      ElementsAreClean(f, scan, doc, t.end, items + [v.node.value], kids + [v.node.spans]);
    }
  }

  lemma {:induction false} MembersAreClean(f: Features, scan: Scanner, doc: Bytes, p: nat, name: Bytes, e: Entries)
    requires p <= |doc| && CleanEntries(e) && ReadMembers(f, scan, doc, p, name, e).end.None?
    ensures CleanEntries(ReadMembers(f, scan, doc, p, name, e).entries)
    decreases |doc| - p, 1
  {
    hide TokenAt, ReadToken, NextToken, Recover, ReadMember, Decode, Clean;
    var t := NextToken(doc, p);
    if t.kind == StringToken {
      MemberIsClean(f, scan, doc, t.end, Decode(doc, t.start + 1, t.end - 1, []).s, e);
    }
  }

  lemma {:induction false} MemberIsClean(f: Features, scan: Scanner, doc: Bytes, p: nat, name: Bytes, e: Entries)
    requires p <= |doc| && CleanEntries(e) && ReadMember(f, scan, doc, p, name, e).end.None?
    ensures CleanEntries(ReadMember(f, scan, doc, p, name, e).entries)
    decreases |doc| - p, 1
  {
    hide TokenAt, ReadToken, Recover, ReadValue, AfterMember, CString, Clean, Store;
    var colon := ReadToken(doc, p);
    var key := CString(name);
    CStringIsNulFree(name);
    var v := ReadValue(f, scan, doc, colon.end, Lookup(e, key));
    ValueIsClean(f, scan, doc, colon.end, Lookup(e, key));
    StoreIsClean(e, key, v.node);
    AfterIsClean(f, scan, doc, v.pos, name, Store(e, key, v.node));
  }

  lemma {:induction false} AfterIsClean(f: Features, scan: Scanner, doc: Bytes, p: nat, name: Bytes, e: Entries)
    requires p <= |doc| && CleanEntries(e) && AfterMember(f, scan, doc, p, name, e).end.None?
    ensures CleanEntries(AfterMember(f, scan, doc, p, name, e).entries)
    decreases |doc| - p, 1
  {
    hide TokenAt, ReadToken, NextToken, Recover, ReadMembers, Clean;
    var comma := CommaToken(doc, p);
    if comma.kind != ObjectEnd { MembersAreClean(f, scan, doc, comma.end, name, e); }
  }

  // --- Printing what was parsed ---

  lemma {:induction false} CleanIsPrintable(v: Json)
    requires Clean(v)
    ensures Printable(v)
    decreases v
  {
    match v
    case Arr(items) => forall x | x in items ensures Printable(x) { CleanIsPrintable(x); }
    case Obj(members) => forall x | x in members ensures Printable(x.value) { CleanIsPrintable(x.value); }
    case _ =>
  }

  lemma {:induction false} CleanIsNormal(scan: Scanner, v: Json)
    requires Clean(v) && RealFree(v)
    ensures Rescans(scan, v) && Normal(scan, v) == v
    decreases v, 0
  {
    match v
    case Arr(items) => CleanItemsAreNormal(scan, items);
    case Obj(members) => CleanMembersAreNormal(scan, members);
    case _ =>
  }

  lemma {:induction false} CleanItemsAreNormal(scan: Scanner, q: seq<Json>)
    requires forall x | x in q :: Clean(x) && RealFree(x)
    ensures (forall x | x in q :: Rescans(scan, x)) && NormalItems(scan, q) == q
    decreases q, 1
  {
    if q != [] {
      CleanIsNormal(scan, q[0]);
      CleanItemsAreNormal(scan, q[1..]);
      assert q == [q[0]] + q[1..];
    }
  }

  lemma {:induction false} CleanMembersAreNormal(scan: Scanner, q: seq<Member>)
    requires forall x | x in q :: Clean(x.value) && RealFree(x.value)
    ensures (forall x | x in q :: Rescans(scan, x.value)) && NormalMembers(scan, q) == q
    decreases q, 1
  {
    if q != [] {
      CleanIsNormal(scan, q[0].value);
      CleanMembersAreNormal(scan, q[1..]);
      assert q == [q[0]] + q[1..];
    }
  }

  // Whatever parses, printed and parsed again, is the same value, integer types included.
  lemma ReprintIsStable(f: Features, scan: Scanner, doc: Bytes, init: Node, s: Bytes, init': Node)
    requires Parse(f, scan, doc, init).successful
    requires var v := Parse(f, scan, doc, init).root.value;
      RealFree(v) && Interleaved(Tokens(v), s)
    ensures var again := Parse(f, scan, s, init');
      again.successful && again.root.value == Parse(f, scan, doc, init).root.value
  {
    hide ReadValue, Tokens, Interleaved, Clean, RealFree, Printable, Rescans;
    var v := Parse(f, scan, doc, init).root.value;
    ValueIsClean(f, scan, doc, 0, init);
    CleanIsPrintable(v);
    CleanIsNormal(scan, v);
    PrintedReadsBack(v, s);
  }
}
