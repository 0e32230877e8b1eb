/** What Reader::readValue makes of a document: the value, its source spans, where reading stops and
    the error that was recorded. The class Reader is proved to compute exactly this. */
module JsonGrammar {
  import opened Common
  import opened JsonText
  import opened JsonValue
  import opened JsonNumber
  import opened JsonString
  import opened JsonLexer

  datatype Features = Features(allowComments: bool, strictRoot: bool)

  // The number scanner of the C library, of which nothing is assumed.
  type Scanner = Bytes -> Option<real>

  // The offsets of a value, and those of its elements or members in their order.
  datatype Spans = Spans(start: nat, limit: nat, kids: seq<Spans>)

  datatype Node = Node(value: Json, spans: Spans)

  const FRESH: Node := Node(Null, Spans(0, 0, []))

  datatype ErrorKind =
    | ValueExpected | NotANumberError | BadStringError | MissingColon | MissingCommaOrBrace
    | MissingNameOrBrace | MissingCommaOrBracket | RootNotContainer

  datatype Error = Error(kind: ErrorKind, token: Token)

  datatype Outcome = Good(node: Node, pos: nat) | Bad(node: Node, pos: nat, error: Error)

  // The part of a std::string that survives c_str().
  function CString(s: Bytes): Bytes {
    if s == [] || s[0] == 0 then [] else [s[0]] + CString(s[1..])
  }

  // --- Members of an object in the order of their names ---

  // std::map::lower_bound
  function LowerBound(members: seq<Member>, name: Bytes): (i: nat)
    ensures i <= |members|
  {
    if members == [] || !TextLess(members[0].name, name) then 0 else 1 + LowerBound(members[1..], name)
  }

  predicate IsMember(members: seq<Member>, name: Bytes) {
    var i := LowerBound(members, name);
    i < |members| && members[i].name == name
  }

  // Elements or members under construction, with the spans of each.
  datatype Entries = Entries(members: seq<Member>, kids: seq<Spans>)

  ghost predicate Paired(e: Entries) { |e.members| == |e.kids| }

  // value[name], which adds a null member when there is none.
  function Lookup(e: Entries, name: Bytes): Node
    requires Paired(e)
  {
    var i := LowerBound(e.members, name);
    if IsMember(e.members, name) then Node(e.members[i].value, e.kids[i]) else FRESH
  }

  function Store(e: Entries, name: Bytes, n: Node): (r: Entries)
    requires Paired(e)
    ensures Paired(r)
  {
    var i := LowerBound(e.members, name);
    var rest := if IsMember(e.members, name) then i + 1 else i;
    Entries(e.members[..i] + [Member(name, n.value)] + e.members[rest..], e.kids[..i] + [n.spans] + e.kids[rest..])
  }

  // --- The recursive descent ---

  datatype Listed = Listed(items: seq<Json>, kids: seq<Spans>, end: Option<Error>, pos: nat)

  datatype Grouped = Grouped(entries: Entries, end: Option<Error>, pos: nat)

  function Finish(n: Node, pos: nat, end: Option<Error>): (r: Outcome)
    ensures r.node == n && r.pos == pos
  {
    match end
    case None => Good(n, pos)
    case Some(e) => Bad(n, pos, e)
  }

  // Reader::decodeNumber: an integer when it is one and fits, otherwise whatever the scanner makes of it.
  function NumberValue(scan: Scanner, text: Bytes): (r: Option<Json>)
    requires text != []
    ensures r.Some? ==> r.value.Int? || r.value.UInt? || r.value.Real?
  {
    match DecodeText(text)
    case Number(v) => Some(v)
    case NotANumber => None
    case AsDouble =>
      match scan(text)
      case Some(x) => Some(Real(x))
      case None => None
  }

  function ReadValue(f: Features, scan: Scanner, doc: Bytes, p: nat, init: Node): (r: Outcome)
    requires p <= |doc|
    ensures p <= r.pos <= |doc|
    decreases |doc| - p, 0
  {
    var t := ValueToken(f.allowComments, doc, p);
    var span := Spans(t.start, t.end, []);
    match t.kind
    case ObjectBegin =>
      var g := ReadMembers(f, scan, doc, t.end, [], Entries([], []));
      Finish(Node(Obj(g.entries.members), Spans(t.start, g.pos, g.entries.kids)), g.pos, g.end)
    case ArrayBegin =>
      var l := ReadArray(f, scan, doc, t.end);
      Finish(Node(Arr(l.items), Spans(t.start, l.pos, l.kids)), l.pos, l.end)
    case NumberToken =>
      (match NumberValue(scan, doc[t.start..t.end])
       case Some(v) => Good(Node(v, span), t.end)
       case None => Bad(init, t.end, Error(NotANumberError, t)))
    case StringToken =>
      (match Decode(doc, t.start + 1, t.end - 1, [])
       case Chars(s) => Good(Node(Text(CString(s)), span), t.end)
       case BadEscape(_) => Bad(init, t.end, Error(BadStringError, t)))
    case TrueToken => Good(Node(Bool(true), span), t.end)
    case FalseToken => Good(Node(Bool(false), span), t.end)
    case NullToken => Good(Node(Null, span), t.end)
    case _ => Bad(Node(init.value, init.spans.(start := t.start, limit := t.end)), t.end, Error(ValueExpected, t))
  }

  // From behind the opening bracket.
  function ReadArray(f: Features, scan: Scanner, doc: Bytes, p: nat): (r: Listed)
    requires p <= |doc|
    ensures p <= r.pos <= |doc|
    decreases |doc| - p, 2
  {
    var q := SkipSpaces(doc, p);
    if Peek(doc, q) == CLOSE_ARRAY then Listed([], [], None, q + 1)
    else ReadElements(f, scan, doc, q, [], [])
  }

  function ReadElements(f: Features, scan: Scanner, doc: Bytes, p: nat, items: seq<Json>, kids: seq<Spans>): (r: Listed)
    requires p <= |doc|
    ensures p <= r.pos <= |doc|
    decreases |doc| - p, 1
  {
    var v := ReadValue(f, scan, doc, p, FRESH);
    var items1, kids1 := items + [v.node.value], kids + [v.node.spans];
    if v.Bad? then Listed(items1, kids1, Some(v.error), Recover(doc, v.pos, ArrayEnd)) else
    var t := NextToken(doc, v.pos);
    if t.kind == ArrayEnd then Listed(items1, kids1, None, t.end)
    else if t.kind != ArraySeparator then
      Listed(items1, kids1, Some(Error(MissingCommaOrBracket, t)), Recover(doc, t.end, ArrayEnd))
    else ReadElements(f, scan, doc, t.end, items1, kids1)
  }

  // The token behind a member: comments are skipped, and what follows them is not checked again.
  function CommaToken(doc: Bytes, p: nat): (t: Token)
    requires p <= |doc|
    ensures p <= t.start <= t.end <= |doc|
  {
    var t := ReadToken(doc, p);
    if t.kind == CommentToken then NextToken(doc, t.end) else t
  }

  // From behind the opening brace or a separator; name is the last member's, empty at the start.
  function ReadMembers(f: Features, scan: Scanner, doc: Bytes, p: nat, name: Bytes, e: Entries): (r: Grouped)
    requires p <= |doc| && Paired(e)
    ensures p <= r.pos <= |doc| && Paired(r.entries)
    decreases |doc| - p, 1
  {
    var t := NextToken(doc, p);
    if t.kind == ObjectEnd && name == [] then Grouped(e, None, t.end)
    else if t.kind != StringToken then
      Grouped(e, Some(Error(MissingNameOrBrace, t)), Recover(doc, t.end, ObjectEnd))
    else
      match Decode(doc, t.start + 1, t.end - 1, [])
      case BadEscape(_) => Grouped(e, Some(Error(BadStringError, t)), Recover(doc, t.end, ObjectEnd))
      case Chars(decoded) => ReadMember(f, scan, doc, t.end, decoded, e)
  }

  // From behind a member's name.
  function ReadMember(f: Features, scan: Scanner, doc: Bytes, p: nat, name: Bytes, e: Entries): (r: Grouped)
    requires p <= |doc| && Paired(e)
    ensures p <= r.pos <= |doc| && Paired(r.entries)
    decreases |doc| - p, 1
  {
    var colon := ReadToken(doc, p);
    if colon.kind != MemberSeparator then
      Grouped(e, Some(Error(MissingColon, colon)), Recover(doc, colon.end, ObjectEnd))
    else
      var key := CString(name);
      var v := ReadValue(f, scan, doc, colon.end, Lookup(e, key));
      var e1 := Store(e, key, v.node);
      if v.Bad? then Grouped(e1, Some(v.error), Recover(doc, v.pos, ObjectEnd))
      else AfterMember(f, scan, doc, v.pos, name, e1)
  }

  // From behind a member's value.
  function AfterMember(f: Features, scan: Scanner, doc: Bytes, p: nat, name: Bytes, e: Entries): (r: Grouped)
    requires p <= |doc| && Paired(e)
    ensures p <= r.pos <= |doc| && Paired(r.entries)
    decreases |doc| - p, 1
  {
    var first := ReadToken(doc, p);
    if first.kind != ObjectEnd && first.kind != ArraySeparator && first.kind != CommentToken then
      Grouped(e, Some(Error(MissingCommaOrBrace, first)), Recover(doc, first.end, ObjectEnd))
    else
      var comma := CommaToken(doc, p);
      if comma.kind == ObjectEnd then Grouped(e, None, comma.end)
      else ReadMembers(f, scan, doc, comma.end, name, e)
  }

  datatype Parsed = Parsed(successful: bool, root: Node, errors: seq<Error>)

  function Parse(f: Features, scan: Scanner, doc: Bytes, init: Node): (r: Parsed)
    ensures r.successful <==> r.errors == []
    ensures !r.successful && !f.strictRoot ==> |r.errors| == 1
    ensures !r.successful && f.strictRoot ==> 1 <= |r.errors| <= 2
    ensures f.strictRoot && r.successful ==> r.root.value.Arr? || r.root.value.Obj?
  {
    var r := ReadValue(f, scan, doc, 0, init);
    var errors := if r.Good? then [] else [r.error];
    if f.strictRoot && !r.node.value.Arr? && !r.node.value.Obj? then
      Parsed(false, r.node, errors + [Error(RootNotContainer, Token(ErrorToken, 0, |doc|))])
    else Parsed(r.Good?, r.node, errors)
  }
}
