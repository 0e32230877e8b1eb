/** JSON texts by RFC 8259 and what they denote, apart from any way of reading them: a grammar over token
    texts, and a relation between token texts and values. Bytes above ASCII stand for themselves. */
module JsonSyntax {
  import opened Common
  import opened JsonText
  import opened JsonValue
  import opened JsonNumber
  import opened JsonString
  import opened JsonLexer
  import opened JsonGrammar
  import opened JsonMap

  // --- Numbers (section 6) ---

  ghost predicate IsInt(s: Bytes) { s != [] && AllDigits(s) && (s[0] == ZERO ==> |s| == 1) }

  ghost predicate IsFrac(s: Bytes) { s != [] ==> |s| > 1 && s[0] == DOT && AllDigits(s[1..]) }

  ghost predicate IsExp(s: Bytes) {
    s != [] ==>
      && |s| > 1 && (s[0] == 101 || s[0] == 69)
      && var k := if s[1] == PLUS || s[1] == MINUS then 2 else 1;
      && |s| > k && AllDigits(s[k..])
  }

  // What follows an optional minus.
  function Unsigned(text: Bytes): Bytes { if text != [] && text[0] == MINUS then text[1..] else text }

  ghost predicate IsInteger(text: Bytes) { IsInt(Unsigned(text)) }

  ghost predicate Splits(u: Bytes, i: nat, j: nat) {
    i <= j <= |u| && IsInt(u[..i]) && IsFrac(u[i..j]) && IsExp(u[j..])
  }

  ghost predicate IsNumber(text: Bytes) { exists i: nat, j: nat :: Splits(Unsigned(text), i, j) }

  ghost function IntegerOf(text: Bytes): int
    requires IsInteger(text)
  {
    Denoted(text[0] == MINUS, Unsigned(text))
  }

  // An integer that fits 64 bits denotes itself; any other number what the scanner makes of it.
  ghost predicate NumberMeans(scan: Scanner, text: Bytes, v: Json) {
    && IsNumber(text)
    && if IsInteger(text) && -TWO63 <= IntegerOf(text) < TWO64 then v == Retyped(IntegerOf(text))
       else scan(text).Some? && v == Real(scan(text).value)
  }

  // --- Strings (section 7) ---

  const ESCAPES: map<Byte, Byte> :=
    map[34 := 34, 92 := 92, 47 := 47, 98 := 8, 102 := 12, 110 := 10, 114 := 13, 116 := 9]

  const HEX_DIGITS: map<Byte, nat> :=
    map[48 := 0, 49 := 1, 50 := 2, 51 := 3, 52 := 4, 53 := 5, 54 := 6, 55 := 7, 56 := 8, 57 := 9,
      97 := 10, 98 := 11, 99 := 12, 100 := 13, 101 := 14, 102 := 15,
      65 := 10, 66 := 11, 67 := 12, 68 := 13, 69 := 14, 70 := 15]

  // A hexadecimal digit in either case.
  function Hex(c: Byte): Option<nat> { if c in HEX_DIGITS then Some(HEX_DIGITS[c]) else None }

  function HexOf(text: Bytes, p: nat): Option<nat>
    requires p + 4 <= |text|
  {
    var a, b, c, d := Hex(text[p]), Hex(text[p + 1]), Hex(text[p + 2]), Hex(text[p + 3]);
    if a == None || b == None || c == None || d == None then None
    else Some(a.value * 0x1000 + b.value * 0x100 + c.value * 0x10 + d.value)
  }

  predicate IsEscape(text: Bytes, p: nat, end: nat)
    requires end <= |text|
  {
    p + 6 <= end && text[p] == BACKSLASH && text[p + 1] == 117 && HexOf(text, p + 2).Some?
  }

  // Characters of a string: any byte but quotes, backslashes and control characters, or an escape.
  predicate IsChars(text: Bytes, p: nat, end: nat)
    requires p <= end <= |text|
    decreases end - p
  {
    p == end ||
    if text[p] != BACKSLASH then text[p] >= SPACE && text[p] != QUOTE && IsChars(text, p + 1, end)
    else if p + 1 < end && text[p + 1] in ESCAPES then IsChars(text, p + 2, end)
    else IsEscape(text, p, end) && IsChars(text, p + 6, end)
  }

  // The same with control characters let through.
  predicate WellEscaped(text: Bytes, p: nat, end: nat)
    requires p <= end <= |text|
    decreases end - p
  {
    p == end ||
    if text[p] != BACKSLASH then text[p] != QUOTE && WellEscaped(text, p + 1, end)
    else if p + 1 < end && text[p + 1] in ESCAPES then WellEscaped(text, p + 2, end)
    else IsEscape(text, p, end) && WellEscaped(text, p + 6, end)
  }

  predicate IsQuoted(text: Bytes) { |text| >= 2 && text[0] == QUOTE && text[|text| - 1] == QUOTE }

  predicate IsString(text: Bytes) { IsQuoted(text) && IsChars(text, 1, |text| - 1) }

  // --- What strings denote (sections 7 and 8.2) ---

  predicate IsHigh(unit: nat) { 0xD800 <= unit <= 0xDBFF }

  predicate IsLow(unit: nat) { 0xDC00 <= unit <= 0xDFFF }

  // From left to right, behind an escaped first half of a surrogate pair stands another escape, which goes
  // with it. Where it is strict that is a second half, and no second half stands alone.
  predicate Coupled(strict: bool, text: Bytes, p: nat, end: nat)
    requires p <= end <= |text|
    decreases end - p
  {
    p == end ||
    if !IsEscape(text, p, end) then
      var width := if text[p] == BACKSLASH && p + 1 < end then 2 else 1;
      Coupled(strict, text, p + width, end)
    else if IsHigh(HexOf(text, p + 2).value) then
      && IsEscape(text, p + 6, end) && (strict ==> IsLow(HexOf(text, p + 8).value))
      && Coupled(strict, text, p + 12, end)
    else (strict ==> !IsLow(HexOf(text, p + 2).value)) && Coupled(strict, text, p + 6, end)
  }

  function Prepend(s: Bytes, rest: Option<Bytes>): Option<Bytes> {
    match rest
    case Some(t) => Some(s + t)
    case None => None
  }

  // The string written between p and end. RFC 8259 says what it is if all surrogates are paired, which is
  // strict; otherwise a first half takes any escape behind it for a second half, and a second half on its
  // own is a code point like others.
  function Meaning(strict: bool, text: Bytes, p: nat, end: nat): Option<Bytes>
    requires p <= end <= |text|
    decreases end - p
  {
    if p == end then Some([])
    else if text[p] != BACKSLASH then
      if text[p] == QUOTE then None else Prepend([text[p]], Meaning(strict, text, p + 1, end))
    else if p + 1 < end && text[p + 1] in ESCAPES then
      Prepend([ESCAPES[text[p + 1]]], Meaning(strict, text, p + 2, end))
    else if !IsEscape(text, p, end) then None
    else
      var unit := HexOf(text, p + 2).value;
      if !IsHigh(unit) then
        if strict && IsLow(unit) then None else Prepend(CodePointToUtf8(unit), Meaning(strict, text, p + 6, end))
      else if !IsEscape(text, p + 6, end) then None
      else
        var low := HexOf(text, p + 8).value;
        if strict && !IsLow(low) then None
        else
          Prepend(CodePointToUtf8(0x10000 + unit % 0x400 * 0x400 + low % 0x400), Meaning(strict, text, p + 12, end))
  }

  // Each half of a surrogate pair stands with the other.
  predicate IsPaired(text: Bytes) { IsQuoted(text) ==> Coupled(true, text, 1, |text| - 1) }

  ghost predicate NoNul(text: Bytes) {
    IsQuoted(text) ==>
      match Meaning(true, text, 1, |text| - 1)
      case Some(s) => NulFree(s)
      case None => true
  }

  // What the syntax leaves open: the value of a number that is no 64-bit integer, and how far strings are
  // taken. In the loose dialect they are taken as above and end at their first NUL.
  datatype Dialect = Rfc(scan: Scanner) | Loose(scan: Scanner)

  predicate StringMeans(d: Dialect, text: Bytes, s: Bytes) {
    && IsString(text)
    && var m := Meaning(d.Rfc?, text, 1, |text| - 1);
    && m.Some? && s == if d.Rfc? then m.value else CString(m.value)
  }

  // --- The grammar (sections 3 to 5) ---

  ghost predicate IsLiteral(text: Bytes) {
    text == NULL_TEXT || text == TRUE_TEXT || text == FALSE_TEXT || IsNumber(text) || IsString(text)
  }

  // The text between the brackets of toks.
  function Inner(toks: seq<Bytes>): seq<Bytes>
    requires |toks| >= 2
  {
    toks[1..|toks| - 1]
  }

  predicate Enclosed(toks: seq<Bytes>, open: Byte, close: Byte) {
    |toks| >= 2 && toks[0] == [open] && toks[|toks| - 1] == [close]
  }

  ghost predicate IsValue(toks: seq<Bytes>)
    decreases |toks|, 0
  {
    || (|toks| == 1 && IsLiteral(toks[0]))
    || (Enclosed(toks, OPEN_ARRAY, CLOSE_ARRAY) && (Inner(toks) == [] || AreItems(Inner(toks))))
    || (Enclosed(toks, OPEN_OBJECT, CLOSE_OBJECT) && (Inner(toks) == [] || AreMembers(Inner(toks))))
  }

  ghost predicate AreItems(toks: seq<Bytes>)
    decreases |toks|, 1
  {
    || IsValue(toks)
    || exists k | 0 <= k < |toks| :: IsValue(toks[..k]) && toks[k] == [COMMA] && AreItems(toks[k + 1..])
  }

  ghost predicate AreMembers(toks: seq<Bytes>)
    decreases |toks|, 1
  {
    || IsPair(toks)
    || exists k | 0 <= k < |toks| :: IsPair(toks[..k]) && toks[k] == [COMMA] && AreMembers(toks[k + 1..])
  }

  ghost predicate IsPair(toks: seq<Bytes>)
    decreases |toks|, 0
  {
    |toks| >= 2 && IsString(toks[0]) && toks[1] == [COLON] && IsValue(toks[2..])
  }

  // --- What values denote ---

  ghost predicate ScalarMeans(d: Dialect, text: Bytes, v: Json) {
    || (text == NULL_TEXT && v == Null)
    || (text == TRUE_TEXT && v == Bool(true))
    || (text == FALSE_TEXT && v == Bool(false))
    || NumberMeans(d.scan, text, v)
    || (v.Text? && StringMeans(d, text, v.s))
  }

  ghost predicate Denotes(d: Dialect, toks: seq<Bytes>, v: Json)
    decreases |toks|, 0
  {
    || (|toks| == 1 && ScalarMeans(d, toks[0], v))
    || (Enclosed(toks, OPEN_ARRAY, CLOSE_ARRAY) && v.Arr? && ItemsDenote(d, Inner(toks), v.items))
    || (Enclosed(toks, OPEN_OBJECT, CLOSE_OBJECT) && v.Obj? && Increasing(v.members) &&
        exists entries :: MembersDenote(d, Inner(toks), entries) && AsMap(entries) == AsMap(v.members))
  }

  ghost predicate ItemsDenote(d: Dialect, toks: seq<Bytes>, items: seq<Json>)
    decreases |toks|, 1
  {
    if items == [] then toks == []
    else if |items| == 1 then Denotes(d, toks, items[0])
    else
      exists k | 0 <= k < |toks| ::
        Denotes(d, toks[..k], items[0]) && toks[k] == [COMMA] && ItemsDenote(d, toks[k + 1..], items[1..])
  }

  // Members in the order of the text; a later one of the same name wins.
  ghost predicate MembersDenote(d: Dialect, toks: seq<Bytes>, entries: seq<Member>)
    decreases |toks|, 1
  {
    if entries == [] then toks == []
    else if |entries| == 1 then MemberDenotes(d, toks, entries[0])
    else
      exists k | 0 <= k < |toks| ::
        MemberDenotes(d, toks[..k], entries[0]) && toks[k] == [COMMA]
          && MembersDenote(d, toks[k + 1..], entries[1..])
  }

  ghost predicate MemberDenotes(d: Dialect, toks: seq<Bytes>, m: Member)
    decreases |toks|, 0
  {
    |toks| >= 2 && StringMeans(d, toks[0], m.name) && toks[1] == [COLON] && Denotes(d, toks[2..], m.value)
  }

  // --- Texts (section 2) ---

  // After k bytes of white space, s goes on with the token.
  ghost predicate Leads(tok: Bytes, s: Bytes, k: nat) { At(s, k, tok) && AllSpace(s[..k]) }

  // s is the given tokens with white space between and around them.
  ghost predicate Interleaved(toks: seq<Bytes>, s: Bytes)
    decreases |toks|
  {
    if toks == [] then AllSpace(s)
    else exists k: nat :: Leads(toks[0], s, k) && Interleaved(toks[1..], s[k + |toks[0]|..])
  }

  // A JSON text: the tokens of one value with white space between and around them.
  ghost predicate IsJson(doc: Bytes) {
    exists toks :: Interleaved(toks, doc) && IsValue(toks)
  }

  // Of which v is the value.
  ghost predicate IsDocument(d: Dialect, doc: Bytes, v: Json) {
    exists toks :: Interleaved(toks, doc) && Denotes(d, toks, v)
  }

  // The characters of the grammar, as section 2 and 3 spell them.
  lemma Spelling()
    ensures NULL_TEXT == Ascii("null") && TRUE_TEXT == Ascii("true") && FALSE_TEXT == Ascii("false")
    ensures [OPEN_ARRAY, CLOSE_ARRAY, OPEN_OBJECT, CLOSE_OBJECT, COLON, COMMA] == Ascii("[]{}:,")
    ensures [QUOTE, BACKSLASH, MINUS, PLUS, DOT, ZERO, NINE] == Ascii("\"\\-+.09")
    ensures forall c :: IsSpace(c) <==> c in {0x20, 0x09, 0x0A, 0x0D}
  {
  }

  // --- Putting token lists together ---

  lemma ArrayDenotes(d: Dialect, toks: seq<Bytes>, items: seq<Json>)
    requires ItemsDenote(d, toks, items)
    ensures Denotes(d, [[OPEN_ARRAY]] + toks + [[CLOSE_ARRAY]], Arr(items))
  {
    assert Inner([[OPEN_ARRAY]] + toks + [[CLOSE_ARRAY]]) == toks;
  }

  lemma ObjectDenotes(d: Dialect, toks: seq<Bytes>, entries: seq<Member>, members: seq<Member>)
    requires MembersDenote(d, toks, entries) && Increasing(members) && AsMap(entries) == AsMap(members)
    ensures Denotes(d, [[OPEN_OBJECT]] + toks + [[CLOSE_OBJECT]], Obj(members))
  {
    assert Inner([[OPEN_OBJECT]] + toks + [[CLOSE_OBJECT]]) == toks;
  }

  lemma ItemsCons(d: Dialect, a: seq<Bytes>, item: Json, b: seq<Bytes>, items: seq<Json>)
    requires Denotes(d, a, item) && ItemsDenote(d, b, items) && items != []
    ensures ItemsDenote(d, a + [[COMMA]] + b, [item] + items)
  {
    var toks := a + [[COMMA]] + b;
    assert toks[..|a|] == a && toks[|a|] == [COMMA] && toks[|a| + 1..] == b && ([item] + items)[1..] == items;
  }

  lemma MembersCons(d: Dialect, a: seq<Bytes>, m: Member, b: seq<Bytes>, entries: seq<Member>)
    requires MemberDenotes(d, a, m) && MembersDenote(d, b, entries) && entries != []
    ensures MembersDenote(d, a + [[COMMA]] + b, [m] + entries)
  {
    var toks := a + [[COMMA]] + b;
    assert toks[..|a|] == a && toks[|a|] == [COMMA] && toks[|a| + 1..] == b && ([m] + entries)[1..] == entries;
  }

  lemma MemberOf(d: Dialect, text: Bytes, name: Bytes, toks: seq<Bytes>, v: Json)
    requires StringMeans(d, text, name) && Denotes(d, toks, v)
    ensures MemberDenotes(d, [text, [COLON]] + toks, Member(name, v))
  {
    assert ([text, [COLON]] + toks)[2..] == toks;
  }

  lemma InterleavedCons(tok: Bytes, rest: seq<Bytes>, s: Bytes, k: nat)
    requires Leads(tok, s, k) && k + |tok| <= |s| && Interleaved(rest, s[k + |tok|..])
    ensures Interleaved([tok] + rest, s)
  {
    assert ([tok] + rest)[0] == tok && ([tok] + rest)[1..] == rest;
  }

  lemma FirstLeads(toks: seq<Bytes>, s: Bytes) returns (k: nat)
    requires toks != [] && Interleaved(toks, s)
    ensures Leads(toks[0], s, k) && k + |toks[0]| <= |s| && Interleaved(toks[1..], s[k + |toks[0]|..])
  {
    k :| Leads(toks[0], s, k) && Interleaved(toks[1..], s[k + |toks[0]|..]);
  }

  lemma LeadsFurther(tok: Bytes, s: Bytes, k: nat, t: Bytes)
    requires Leads(tok, s, k)
    ensures Leads(tok, s + t, k) && (s + t)[k + |tok|..] == s[k + |tok|..] + t
  {
    assert (s + t)[k..k + |tok|] == s[k..k + |tok|] && (s + t)[..k] == s[..k];
  }

  lemma LeadsLater(tok: Bytes, s: Bytes, k: nat, w: Bytes)
    requires Leads(tok, s, k) && AllSpace(w)
    ensures Leads(tok, w + s, |w| + k) && (w + s)[|w| + k + |tok|..] == s[k + |tok|..]
  {
    assert (w + s)[|w| + k..|w| + k + |tok|] == s[k..k + |tok|] && (w + s)[..|w| + k] == w + s[..k];
  }

  lemma AfterSpaces(toks: seq<Bytes>, w: Bytes, s: Bytes)
    requires AllSpace(w) && Interleaved(toks, s)
    ensures Interleaved(toks, w + s)
  {
    if toks != [] {
      var tok := toks[0];
      var k := FirstLeads(toks, s);
      LeadsLater(tok, s, k, w);
      InterleavedCons(tok, toks[1..], w + s, |w| + k);
      assert toks == [tok] + toks[1..];
    }
  }

  // Interleaved texts one after the other.
  lemma {:induction false} InterleavedConcat(a: seq<Bytes>, s: Bytes, b: seq<Bytes>, t: Bytes)
    requires Interleaved(a, s) && Interleaved(b, t)
    ensures Interleaved(a + b, s + t)
    decreases |a|
  {
    if a == [] {
      AfterSpaces(b, s, t);
      assert a + b == b;
    } else {
      hide Interleaved, Leads;
      var tok := a[0];
      var k := FirstLeads(a, s);
      InterleavedConcat(a[1..], s[k + |tok|..], b, t);
      LeadsFurther(tok, s, k, t);
      InterleavedCons(tok, a[1..] + b, s + t, k);
      assert a + b == [tok] + (a[1..] + b);
    }
  }

  lemma InterleavedOne(tok: Bytes)
    ensures Interleaved([tok], tok)
  {
    assert tok[0..|tok|] == tok;
    InterleavedCons(tok, [], tok, 0);
  }
}
