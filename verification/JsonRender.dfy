/** What both writers print of a value: its token texts, and what a reader can make of them. */
module JsonRender {
  import opened Common
  import opened JsonText
  import opened JsonValue
  import opened JsonNumber
  import opened JsonString
  import opened JsonLexer
  import opened JsonGrammar
  import opened JsonMap
  import opened JsonSyntax

  // What snprintf makes of a double for "%.16g": library behaviour, of which nothing is assumed.
  const FORMAT_REAL: real -> Bytes

  // What a Value can hold: 64-bit integers, no NUL inside a string, members in strictly increasing order.
  ghost predicate Printable(v: Json) {
    match v
    case Int(i) => -TWO63 <= i < TWO63
    case UInt(u) => 0 <= u < TWO64
    case Text(s) => NulFree(s)
    case Arr(items) => forall x | x in items :: Printable(x)
    case Obj(members) => Increasing(members) && forall x | x in members :: NulFree(x.name) && Printable(x.value)
    case _ => true
  }

  // Every real is printed as a JSON number that the scanner can read.
  ghost predicate Rescans(scan: Scanner, v: Json) {
    match v
    case Real(x) =>
      FORMAT_REAL(x) != [] && IsNumber(FORMAT_REAL(x)) && NumberValue(scan, FORMAT_REAL(x)).Some?
    case Arr(items) => forall x | x in items :: Rescans(scan, x)
    case Obj(members) => forall x | x in members :: Rescans(scan, x.value)
    case _ => true
  }

  function Rescanned(scan: Scanner, text: Bytes): Json {
    if text == [] then Null
    else match NumberValue(scan, text)
      case Some(v) => v
      case None => Null
  }

  // What comes back: the reader chooses the type of a number by its text alone.
  function Normal(scan: Scanner, v: Json): Json {
    match v
    case Int(i) => Retyped(i)
    case UInt(u) => Retyped(u)
    case Real(x) => Rescanned(scan, FORMAT_REAL(x))
    case Arr(items) => Arr(NormalItems(scan, items))
    case Obj(members) => Obj(NormalMembers(scan, members))
    case _ => v
  }

  function NormalItems(scan: Scanner, q: seq<Json>): (r: seq<Json>)
    ensures |r| == |q|
  {
    if q == [] then [] else [Normal(scan, q[0])] + NormalItems(scan, q[1..])
  }

  function NormalMembers(scan: Scanner, q: seq<Member>): (r: seq<Member>)
    ensures |r| == |q|
  {
    if q == [] then [] else [Member(q[0].name, Normal(scan, q[0].value))] + NormalMembers(scan, q[1..])
  }

  // --- Token texts ---

  function Tokens(v: Json): seq<Bytes> {
    match v
    case Null => [NULL_TEXT]
    case Int(i) => [IntText(i)]
    case UInt(u) => [IntText(u)]
    case Real(x) => [FORMAT_REAL(x)]
    case Text(s) => [Quote(s)]
    case Bool(b) => [if b then TRUE_TEXT else FALSE_TEXT]
    case Arr(items) => [[OPEN_ARRAY]] + ItemTokens(items) + [[CLOSE_ARRAY]]
    case Obj(members) => [[OPEN_OBJECT]] + MemberTokens(members) + [[CLOSE_OBJECT]]
  }

  function ItemTokens(q: seq<Json>): seq<Bytes> {
    if q == [] then []
    else if |q| == 1 then Tokens(q[0])
    else Tokens(q[0]) + [[COMMA]] + ItemTokens(q[1..])
  }

  function MemberTokens(q: seq<Member>): seq<Bytes> {
    if q == [] then []
    else
      var first := [Quote(q[0].name), [COLON]] + Tokens(q[0].value);
      if |q| == 1 then first else first + [[COMMA]] + MemberTokens(q[1..])
  }
}
