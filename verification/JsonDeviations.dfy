/** Where the reader departs from RFC 8259, with one text for each way: texts that are no JSON and are read
    all the same, and JSON texts that are rejected or read as something else. */
module JsonDeviations {
  import opened Common
  import opened JsonText
  import opened JsonValue
  import opened JsonNumber
  import opened JsonString
  import opened JsonLexer
  import opened JsonGrammar
  import opened JsonTokens
  import opened JsonSyntax
  import opened JsonLiterals
  import opened JsonReading
  import opened JsonComplete
  import opened JsonShape
  import opened JsonSound
  import opened JsonTidy
  import opened JsonConform
  import opened JsonComments
  import opened JsonThrough

  ghost predicate ReadAs(scan: Scanner, doc: Bytes, v: Json) {
    forall f: Features, init: Node ::
      Parse(f, scan, doc, init).successful && Parse(f, scan, doc, init).root.value == v
  }

  // The reader takes doc for v under any features, although it is no JSON text.
  ghost predicate WronglyRead(scan: Scanner, doc: Bytes, v: Json) { ReadAs(scan, doc, v) && !IsJson(doc) }

  // What is read of doc, and what no JSON text has.
  lemma ReadButNoJson(scan: Scanner, doc: Bytes, v: Json, q: nat)
    requires v.Arr? || v.Obj?
    requires forall f: Features, init: Node ::
      var r := ReadValue(f, scan, doc, 0, init);
      r.Good? && r.node.value == v && r.pos == q
    requires q <= |doc| && !(Plain(doc, 0, q) && SkipSpaces(doc, q) == |doc|)
    ensures WronglyRead(scan, doc, v)
  {
    hide Plain, SkipSpaces, ReadValue, Interleaved, IsValue, Regular, Reads, Texts, Denotes;
    if IsJson(doc) {
      var form :| Interleaved(form, doc) && IsValue(form);
      var m := JsonTexts(doc, form);
      RegularIsPlain(doc, q);
      var toks := ValueRead(Features(false, false), Loose(scan), doc, 0, FRESH);
      ValueHasForm(Loose(scan), toks, v);
      NothingBehind(doc, toks, q);
    }
  }

  // --- Tokens of a given text ---

  lemma PunctuationAt(doc: Bytes, p: nat, c: Byte)
    requires p < |doc| && doc[p] == c
    requires c in {OPEN_ARRAY, CLOSE_ARRAY, OPEN_OBJECT, CLOSE_OBJECT, COMMA, COLON}
    ensures ReadToken(doc, p) == Token(KindOf(c), p, p + 1) == NextToken(doc, p) && Lexes(doc, p, [c])
  {
    hide StringEnd, CommentEnd, NumberEnd, Match;
    assert SkipSpaces(doc, p) == p;
    assert doc[p..p + 1] == [c];
  }

  lemma DigitAt(doc: Bytes, p: nat)
    requires p < |doc| && IsDigit(doc[p]) && !IsNumeric(Peek(doc, p + 1))
    ensures ReadToken(doc, p) == Token(NumberToken, p, p + 1) == NextToken(doc, p) && doc[p..p + 1] == [doc[p]]
  {
    hide StringEnd, CommentEnd, Match;
    assert SkipSpaces(doc, p) == p;
    assert NumberEnd(doc, p + 1) == p + 1;
  }

  lemma QuotedAt(doc: Bytes, p: nat, end: nat)
    requires p < |doc| && doc[p] == QUOTE && StringEnd(doc, p + 1) == Span(true, end)
    ensures ReadToken(doc, p) == Token(StringToken, p, end) && Lexes(doc, p, doc[p..end])
  {
    hide StringEnd, CommentEnd, NumberEnd, Match;
    assert SkipSpaces(doc, p) == p;
  }

  // /**/
  lemma CommentAt(doc: Bytes, p: nat)
    requires p + 4 <= |doc| && doc[p] == SLASH && doc[p + 1] == STAR && doc[p + 2] == STAR && doc[p + 3] == SLASH
    ensures ReadToken(doc, p) == Token(CommentToken, p, p + 4)
  {
    hide StringEnd, NumberEnd, Match;
    assert SkipSpaces(doc, p) == p;
    assert StarEnd(doc, p + 2) == p + 3;
  }

  lemma OneIsOne(scan: Scanner)
    ensures NumberValue(scan, [49]) == Some(Int(1)) && NumberValue(scan, [50]) == Some(Int(2))
  {
    assert [49][1..] == [] && Scan([49], 0, Limit(false)) == Exact(1);
    assert [50][1..] == [] && Scan([50], 0, Limit(false)) == Exact(2);
  }

  // --- Arrays of one element ---

  // An opening bracket, one element and, comments apart, the closing bracket.
  lemma OneElement(f: Features, scan: Scanner, doc: Bytes, init: Node, m: nat)
    requires |doc| > 1 && ReadToken(doc, 0) == Token(ArrayBegin, 0, 1) && !IsSpace(doc[1]) && doc[1] != CLOSE_ARRAY
    requires ReadValue(f, scan, doc, 1, FRESH).Good? && ReadValue(f, scan, doc, 1, FRESH).pos == m <= |doc|
    requires NextToken(doc, m).kind == ArrayEnd
    ensures var r := ReadValue(f, scan, doc, 0, init);
      && r.Good? && r.node.value == Arr([ReadValue(f, scan, doc, 1, FRESH).node.value])
      && r.pos == NextToken(doc, m).end
  {
    hide TokenAt, ReadToken, NextToken, ReadValue, Recover, Decode, NumberValue;
    assert SkipSpaces(doc, 1) == 1;
    KindText(doc, 0);
    OpensArray(f, scan, doc, 0, init);
  }

  lemma NumberAt(f: Features, scan: Scanner, doc: Bytes, p: nat, init: Node, v: Json)
    requires p <= |doc| && ReadToken(doc, p).kind == NumberToken
    requires NumberValue(scan, doc[ReadToken(doc, p).start..ReadToken(doc, p).end]) == Some(v)
    ensures var r := ReadValue(f, scan, doc, p, init);
      r.Good? && r.node.value == v && r.pos == ReadToken(doc, p).end
  {
    hide TokenAt, ReadToken, ReadArray, ReadMembers, Decode, NumberValue;
  }

  lemma StringAt(f: Features, scan: Scanner, doc: Bytes, p: nat, init: Node, s: Bytes)
    requires p <= |doc| && ReadToken(doc, p).kind == StringToken
    requires Decode(doc, ReadToken(doc, p).start + 1, ReadToken(doc, p).end - 1, []) == Chars(s)
    ensures var r := ReadValue(f, scan, doc, p, init);
      r.Good? && r.node.value == Text(CString(s)) && r.pos == ReadToken(doc, p).end
  {
    hide TokenAt, ReadToken, ReadArray, ReadMembers, Decode, NumberValue, CString;
  }

  // The literal of such an array.
  lemma BadLiteral(doc: Bytes, q: nat)
    requires |doc| > 1 && q > 1 && ReadToken(doc, 0).end == 1
    requires !LiteralOk(doc[ReadToken(doc, 1).start..ReadToken(doc, 1).end])
    ensures !Plain(doc, 0, q)
  {
    hide ReadToken, LiteralOk;
  }

  lemma ArrayOfNumber(scan: Scanner, doc: Bytes, m: nat, v: Json)
    requires |doc| > 1 && ReadToken(doc, 0) == Token(ArrayBegin, 0, 1) && !IsSpace(doc[1]) && doc[1] != CLOSE_ARRAY
    requires ReadToken(doc, 1).kind == NumberToken && ReadToken(doc, 1).end == m <= |doc|
    requires NumberValue(scan, doc[ReadToken(doc, 1).start..m]) == Some(v) && NextToken(doc, m).kind == ArrayEnd
    ensures forall f: Features, init: Node ::
      var r := ReadValue(f, scan, doc, 0, init);
      r.Good? && r.node.value == Arr([v]) && r.pos == NextToken(doc, m).end
  {
    hide ReadToken, NextToken, NumberValue, ReadValue;
    forall f: Features, init: Node
      ensures var r := ReadValue(f, scan, doc, 0, init);
        r.Good? && r.node.value == Arr([v]) && r.pos == NextToken(doc, m).end
    {
      NumberAt(f, scan, doc, 1, FRESH, v);
      OneElement(f, scan, doc, init, m);
    }
  }

  lemma ArrayOfString(scan: Scanner, doc: Bytes, m: nat, s: Bytes)
    requires |doc| > 1 && ReadToken(doc, 0) == Token(ArrayBegin, 0, 1) && !IsSpace(doc[1]) && doc[1] != CLOSE_ARRAY
    requires ReadToken(doc, 1).kind == StringToken && ReadToken(doc, 1).end == m <= |doc|
    requires Decode(doc, ReadToken(doc, 1).start + 1, m - 1, []) == Chars(s) && NextToken(doc, m).kind == ArrayEnd
    ensures forall f: Features, init: Node ::
      var r := ReadValue(f, scan, doc, 0, init);
      r.Good? && r.node.value == Arr([Text(CString(s))]) && r.pos == NextToken(doc, m).end
  {
    hide ReadToken, NextToken, Decode, ReadValue, CString;
    forall f: Features, init: Node
      ensures var r := ReadValue(f, scan, doc, 0, init);
        r.Good? && r.node.value == Arr([Text(CString(s))]) && r.pos == NextToken(doc, m).end
    {
      StringAt(f, scan, doc, 1, FRESH, s);
      OneElement(f, scan, doc, init, m);
    }
  }

  // --- Numbers outside the grammar ---

  // [-]
  lemma BareMinus(scan: Scanner)
    ensures WronglyRead(scan, [OPEN_ARRAY, MINUS, CLOSE_ARRAY], Arr([Int(0)]))
  {
    var doc: Bytes := [OPEN_ARRAY, MINUS, CLOSE_ARRAY];
    assert ReadToken(doc, 0) == Token(ArrayBegin, 0, 1);
    assert ReadToken(doc, 1) == Token(NumberToken, 1, 2);
    assert NextToken(doc, 2) == Token(ArrayEnd, 2, 3);
    assert doc[1..2] == [MINUS];
    assert NumberValue(scan, [MINUS]) == Some(Int(0));
    assert !LiteralOk([MINUS]);
    hide ReadToken, NextToken, NumberValue, LiteralOk, ReadValue;
    ArrayOfNumber(scan, doc, 2, Int(0));
    BadLiteral(doc, 3);
    ReadButNoJson(scan, doc, Arr([Int(0)]), 3);
  }

  lemma ZerosAreZero(scan: Scanner)
    ensures NumberValue(scan, [ZERO, ZERO]) == Some(Int(0)) && !LiteralOk([ZERO, ZERO])
  {
    var text: Bytes := [ZERO, ZERO];
    assert text[1..] == [ZERO] && [ZERO][1..] == [];
    assert Scan([ZERO], 0, Limit(false)) == Exact(0);
  }

  // [00]
  lemma LeadingZero(scan: Scanner)
    ensures WronglyRead(scan, [OPEN_ARRAY, ZERO, ZERO, CLOSE_ARRAY], Arr([Int(0)]))
  {
    var doc: Bytes := [OPEN_ARRAY, ZERO, ZERO, CLOSE_ARRAY];
    assert ReadToken(doc, 0) == Token(ArrayBegin, 0, 1);
    assert ReadToken(doc, 1) == Token(NumberToken, 1, 3) by { assert NumberEnd(doc, 2) == 3; }
    assert NextToken(doc, 3) == Token(ArrayEnd, 3, 4);
    assert doc[1..3] == [ZERO, ZERO];
    ZerosAreZero(scan);
    hide ReadToken, NextToken, NumberValue, LiteralOk, ReadValue;
    ArrayOfNumber(scan, doc, 3, Int(0));
    BadLiteral(doc, 4);
    ReadButNoJson(scan, doc, Arr([Int(0)]), 4);
  }

  // --- A string outside the grammar ---

  // A tab between quotes, which RFC 8259 wants escaped: ["<tab>"]
  lemma RawControl(scan: Scanner)
    ensures WronglyRead(scan, [OPEN_ARRAY, QUOTE, TAB, QUOTE, CLOSE_ARRAY], Arr([Text([TAB])]))
  {
    var doc: Bytes := [OPEN_ARRAY, QUOTE, TAB, QUOTE, CLOSE_ARRAY];
    assert ReadToken(doc, 0) == Token(ArrayBegin, 0, 1);
    assert ReadToken(doc, 1) == Token(StringToken, 1, 4) by { assert StringEnd(doc, 3) == Span(true, 4); }
    assert NextToken(doc, 4) == Token(ArrayEnd, 4, 5);
    assert Decode(doc, 2, 3, []) == Chars([TAB]) by { assert [] + [doc[2]] == [TAB]; }
    assert doc[1..4] == [QUOTE, TAB, QUOTE];
    assert CString([TAB]) == [TAB];
    assert !LiteralOk([QUOTE, TAB, QUOTE]);
    hide ReadToken, NextToken, Decode, LiteralOk, ReadValue, CString;
    ArrayOfString(scan, doc, 4, [TAB]);
    BadLiteral(doc, 5);
    ReadButNoJson(scan, doc, Arr([Text([TAB])]), 5);
  }

  // --- Strings of the grammar ---

  function InArray(text: Bytes): Bytes { [OPEN_ARRAY] + text + [CLOSE_ARRAY] }

  lemma InArrayIsJson(text: Bytes) returns (toks: seq<Bytes>)
    requires IsString(text)
    ensures toks == [[OPEN_ARRAY], text, [CLOSE_ARRAY]] && Interleaved(toks, InArray(text)) && IsValue(toks)
    ensures IsJson(InArray(text))
  {
    hide Interleaved, IsString;
    toks := [[OPEN_ARRAY]] + [text] + [[CLOSE_ARRAY]];
    InterleavedOne([OPEN_ARRAY]);
    InterleavedOne(text);
    InterleavedOne([CLOSE_ARRAY]);
    InterleavedConcat([[OPEN_ARRAY]], [OPEN_ARRAY], [text], text);
    InterleavedConcat([[OPEN_ARRAY]] + [text], [OPEN_ARRAY] + text, [[CLOSE_ARRAY]], [CLOSE_ARRAY]);
    assert Inner(toks) == [text] && IsValue([text]);
  }

  lemma OneString(d: Dialect, text: Bytes, v: Json)
    requires IsQuoted(text)
    ensures Denotes(d, [text], v) <==> v.Text? && StringMeans(d, text, v.s)
  {
    hide StringMeans;
    assert !IsNumber(text) by { if IsNumber(text) { NumberStarts(text); } }
  }

  lemma OneItem(d: Dialect, text: Bytes, items: seq<Json>)
    requires IsQuoted(text)
    ensures ItemsDenote(d, [text], items) <==> |items| == 1 && items[0].Text? && StringMeans(d, text, items[0].s)
  {
    hide StringMeans, Denotes;
    if |items| == 1 { OneString(d, text, items[0]); }
  }

  // What an array of one string denotes.
  lemma InArrayMeans(d: Dialect, text: Bytes, w: Json)
    requires IsString(text)
    ensures IsDocument(d, InArray(text), w) <==>
      w.Arr? && |w.items| == 1 && w.items[0].Text? && StringMeans(d, text, w.items[0].s)
  {
    assert IsQuoted(text);
    hide Interleaved, IsString, ItemsDenote, StringMeans, IsValue, Texts, InArray, Reads, SkipSpaces, Regular, IsQuoted;
    var doc := InArray(text);
    var toks := InArrayIsJson(text);
    var q := JsonTexts(doc, toks);
    assert Inner(toks) == [text];
    if w.Arr? { OneItem(d, text, w.items); }
    if IsDocument(d, doc, w) {
      var form :| Interleaved(form, doc) && Denotes(d, form, w);
      assert IsValue(form) by { hide Denotes; ValueHasForm(d, form, w); }
      var r := JsonTexts(doc, form);
      assert form == toks;
    }
  }

  // The reader takes a string of the grammar for what it denotes in the loose dialect.
  lemma InArrayReads(scan: Scanner, text: Bytes, s: Bytes)
    requires StringMeans(Loose(scan), text, s)
    ensures IsString(text) && IsJson(InArray(text)) && ReadAs(scan, InArray(text), Arr([Text(s)]))
  {
    hide Parse, IsDocument, IsJson, InArray, Texts, Regular, IsChars, Coupled, Meaning, CString;
    MeaningExists(false, text, 1, |text| - 1);
    var toks := InArrayIsJson(text);
    InArrayMeans(Loose(scan), text, Arr([Text(s)]));
    forall f: Features, init: Node
      ensures Parse(f, scan, InArray(text), init).successful
      ensures Parse(f, scan, InArray(text), init).root.value == Arr([Text(s)])
    {
      DocumentConforms(f, Loose(scan), InArray(text), init, Arr([Text(s)]));
    }
  }

  // The RFC gives it no value when its surrogates are not paired.
  lemma NoRfcValue(scan: Scanner, text: Bytes)
    requires IsString(text) && !IsPaired(text)
    ensures forall w :: !IsDocument(Rfc(scan), InArray(text), w)
  {
    hide IsDocument, IsChars, Coupled, Meaning, InArray;
    MeaningExists(true, text, 1, |text| - 1);
    forall w ensures !IsDocument(Rfc(scan), InArray(text), w) {
      InArrayMeans(Rfc(scan), text, w);
    }
  }

  function Escaped(hex: Bytes): Bytes { [BACKSLASH, 117] + hex }

  function Quoted(chars: Bytes): Bytes { [QUOTE] + chars + [QUOTE] }

  // One escape between quotes.
  lemma OneEscape(hex: Bytes, code: nat)
    requires |hex| == 4 && HexOf(hex, 0) == Some(code)
    ensures var text := Quoted(Escaped(hex));
      && |text| == 8 && IsEscape(text, 1, 7) && HexOf(text, 3) == Some(code)
      && IsString(text) && text[1] == BACKSLASH && text[2] == 117
  {
    var text := Quoted(Escaped(hex));
    assert text[3] == hex[0] && text[4] == hex[1] && text[5] == hex[2] && text[6] == hex[3];
    assert IsChars(text, 7, 7);
  }

  lemma CodeHasNoNul(code: nat)
    requires 0 < code <= 0x10FFFF
    ensures CString(CodePointToUtf8(code)) == CodePointToUtf8(code)
  {
    assert NulFree(CodePointToUtf8(code));
    CStringOfNulFree(CodePointToUtf8(code));
  }

  // A second half of a surrogate pair on its own is read, though the RFC gives it no value.
  lemma SecondHalfAlone(scan: Scanner, hex: Bytes, code: nat)
    requires |hex| == 4 && HexOf(hex, 0) == Some(code) && IsLow(code)
    ensures var doc := InArray(Quoted(Escaped(hex)));
      && IsJson(doc) && ReadAs(scan, doc, Arr([Text(CodePointToUtf8(code))]))
      && forall w :: !IsDocument(Rfc(scan), doc, w)
  {
    var text, s := Quoted(Escaped(hex)), CodePointToUtf8(code);
    OneEscape(hex, code);
    CodeHasNoNul(code);
    hide HexOf, CodePointToUtf8, Quoted, Escaped, NulFree, ReadAs, IsJson, IsDocument, InArray, CString;
    assert Meaning(false, text, 7, 7) == Some([]) && s + [] == s;
    assert StringMeans(Loose(scan), text, s);
    assert !IsPaired(text);
    InArrayReads(scan, text, s);
    NoRfcValue(scan, text);
  }

  // A first half on its own is rejected.
  lemma FirstHalfAlone(scan: Scanner, hex: Bytes, code: nat)
    requires |hex| == 4 && HexOf(hex, 0) == Some(code) && IsHigh(code)
    ensures var doc := InArray(Quoted(Escaped(hex)));
      && IsJson(doc) && (forall f: Features, init: Node :: !Parse(f, scan, doc, init).successful)
      && forall w :: !IsDocument(Rfc(scan), doc, w)
  {
    var text := Quoted(Escaped(hex));
    OneEscape(hex, code);
    hide HexOf, Quoted, Escaped, IsDocument, Parse, Interleaved, IsValue, Texts, InArray, Reads, SkipSpaces, Regular;
    assert !IsPaired(text) && !Readable(Loose(scan), text);
    var toks := InArrayIsJson(text);
    var q := JsonTexts(InArray(text), toks);
    forall f: Features, init: Node ensures !Parse(f, scan, InArray(text), init).successful {
      Rejected(f, Loose(scan), InArray(text), init);
    }
    NoRfcValue(scan, text);
  }

  // Two escapes between quotes.
  lemma TwoEscapes(first: Bytes, high: nat, second: Bytes, other: nat)
    requires |first| == 4 && HexOf(first, 0) == Some(high) && |second| == 4 && HexOf(second, 0) == Some(other)
    ensures var text := Quoted(Escaped(first) + Escaped(second));
      && |text| == 14 && IsQuoted(text) && IsEscape(text, 1, 13) && HexOf(text, 3) == Some(high)
      && IsEscape(text, 7, 13) && HexOf(text, 9) == Some(other)
  {
    var text := Quoted(Escaped(first) + Escaped(second));
    assert text[3] == first[0] && text[4] == first[1] && text[5] == first[2] && text[6] == first[3];
    assert text[9] == second[0] && text[10] == second[1] && text[11] == second[2] && text[12] == second[3];
  }

  function Merged(high: nat, low: nat): nat { 0x10000 + high % 0x400 * 0x400 + low % 0x400 }

  lemma TwoEscapesMean(scan: Scanner, text: Bytes, high: nat, other: nat)
    requires |text| == 14 && IsQuoted(text) && IsEscape(text, 1, 13) && IsEscape(text, 7, 13)
    requires HexOf(text, 3) == Some(high) && HexOf(text, 9) == Some(other) && IsHigh(high) && !IsLow(other)
    ensures StringMeans(Loose(scan), text, CodePointToUtf8(Merged(high, other))) && !IsPaired(text)
  {
    CodeHasNoNul(Merged(high, other));
    hide HexOf, CodePointToUtf8, CString;
    var s := CodePointToUtf8(Merged(high, other));
    assert Meaning(false, text, 13, 13) == Some([]) && s + [] == s;
    assert Meaning(false, text, 1, 13) == Some(s);
  }

  // A first half takes the escape behind it for its second half, whatever it is: one code point is read,
  // though the RFC gives the string no value.
  lemma MergedWithOther(scan: Scanner, first: Bytes, high: nat, second: Bytes, other: nat)
    requires |first| == 4 && HexOf(first, 0) == Some(high) && IsHigh(high)
    requires |second| == 4 && HexOf(second, 0) == Some(other) && !IsLow(other)
    ensures var doc := InArray(Quoted(Escaped(first) + Escaped(second)));
      && IsJson(doc) && (forall w :: !IsDocument(Rfc(scan), doc, w))
      && ReadAs(scan, doc, Arr([Text(CodePointToUtf8(Merged(high, other)))]))
  {
    hide HexOf, CodePointToUtf8, Quoted, Escaped, ReadAs, IsJson, IsDocument, InArray, CString, Merged;
    var text := Quoted(Escaped(first) + Escaped(second));
    TwoEscapes(first, high, second, other);
    TwoEscapesMean(scan, text, high, other);
    InArrayReads(scan, text, CodePointToUtf8(Merged(high, other)));
    NoRfcValue(scan, text);
  }

  lemma MergedBytes()
    ensures CodePointToUtf8(Merged(0xD800, 0x41)) == [0xF0, 0x90, 0x81, 0x81]
  {
    assert Merged(0xD800, 0x41) == 0x10041;
  }

  // ["\uD800\u0041"]
  lemma MergedWithLetter(scan: Scanner)
    ensures var doc := InArray(Quoted(Escaped([68, 56, ZERO, ZERO]) + Escaped([ZERO, ZERO, 52, 49])));
      && IsJson(doc) && ReadAs(scan, doc, Arr([Text([0xF0, 0x90, 0x81, 0x81])]))
      && forall w :: !IsDocument(Rfc(scan), doc, w)
  {
    hide ReadAs, IsJson, IsDocument, InArray, Quoted, Escaped, Merged, CodePointToUtf8;
    MergedBytes();
    MergedWithOther(scan, [68, 56, ZERO, ZERO], 0xD800, [ZERO, ZERO, 52, 49], 0x41);
  }

  // ["\uD800"]
  lemma HalfRejected(scan: Scanner)
    ensures var doc := InArray(Quoted(Escaped([68, 56, ZERO, ZERO])));
      IsJson(doc) && forall f: Features, init: Node :: !Parse(f, scan, doc, init).successful
  {
    hide IsJson, IsDocument, InArray, Quoted, Escaped, Parse;
    FirstHalfAlone(scan, [68, 56, ZERO, ZERO], 0xD800);
  }

  // ["\uDC00"]
  lemma LoneSurrogate(scan: Scanner)
    ensures var doc := InArray(Quoted(Escaped([68, 67, ZERO, ZERO])));
      IsJson(doc) && ReadAs(scan, doc, Arr([Text([0xED, 0xB0, 0x80])])) && forall w :: !IsDocument(Rfc(scan), doc, w)
  {
    hide ReadAs, IsJson, IsDocument, InArray, Quoted, Escaped;
    SecondHalfAlone(scan, [68, 67, ZERO, ZERO], 0xDC00);
    assert CodePointToUtf8(0xDC00) == [0xED, 0xB0, 0x80];
  }

  // A string is cut off at an escaped NUL, which the RFC gives a place in it: ["\u0000"]
  lemma CutAtNul(scan: Scanner)
    ensures var doc := InArray(Quoted(Escaped([ZERO, ZERO, ZERO, ZERO])));
      IsDocument(Rfc(scan), doc, Arr([Text([0])])) && ReadAs(scan, doc, Arr([Text([])]))
  {
    var hex: Bytes, nul: Bytes := [ZERO, ZERO, ZERO, ZERO], [0];
    var text := Quoted(Escaped(hex));
    assert HexOf(hex, 0) == Some(0) && CodePointToUtf8(0) == nul && nul + [] == nul && CString(nul) == [];
    OneEscape(hex, 0);
    hide HexOf, CodePointToUtf8, Quoted, Escaped, ReadAs, IsJson, IsDocument, InArray, CString;
    assert Meaning(true, text, 7, 7) == Some([]) && Meaning(false, text, 7, 7) == Some([]);
    assert StringMeans(Rfc(scan), text, nul) && StringMeans(Loose(scan), text, []);
    InArrayMeans(Rfc(scan), text, Arr([Text(nul)]));
    InArrayReads(scan, text, []);
  }

  // --- Comments and what follows the value ---

  lemma NotPlain(doc: Bytes, p: nat, q: nat)
    requires p <= |doc| && p < q && p < ReadToken(doc, p).end
    requires ReadToken(doc, p).kind == CommentToken || !Plain(doc, ReadToken(doc, p).end, q)
    ensures !Plain(doc, p, q)
  {
    hide ReadToken, LiteralOk;
  }

  // [1/**/], even where comments are not allowed
  lemma CommentPasses(scan: Scanner)
    ensures WronglyRead(scan, [OPEN_ARRAY, 49, SLASH, STAR, STAR, SLASH, CLOSE_ARRAY], Arr([Int(1)]))
  {
    var doc: Bytes := [OPEN_ARRAY, 49, SLASH, STAR, STAR, SLASH, CLOSE_ARRAY];
    PunctuationAt(doc, 0, OPEN_ARRAY);
    DigitAt(doc, 1);
    CommentAt(doc, 2);
    PunctuationAt(doc, 6, CLOSE_ARRAY);
    OneIsOne(scan);
    hide ReadToken, NumberValue, LiteralOk, ReadValue;
    assert NextToken(doc, 2) == ReadToken(doc, 6);
    ArrayOfNumber(scan, doc, 2, Int(1));
    NotPlain(doc, 1, 7);
    NotPlain(doc, 0, 7);
    ReadButNoJson(scan, doc, Arr([Int(1)]), 7);
  }

  // A member whose name is followed by a comment.
  lemma CommentedMember(w: Bytes)
    requires IsComment(w)
    ensures var toks := [[OPEN_OBJECT], [QUOTE, 97, QUOTE], [COLON], [49], [CLOSE_OBJECT]];
      Commented(false, false, toks, [OPEN_OBJECT] + [QUOTE, 97, QUOTE] + w + [COLON] + [49] + [CLOSE_OBJECT])
  {
    hide IsComment, Commented;
    CommentIsGap(w);
    NothingCommented(false, false);
    var a, b, c := [] + [CLOSE_OBJECT] + [], [] + [49] + ([] + [CLOSE_OBJECT] + []), [QUOTE, 97, QUOTE];
    CommentedCons(false, false, [], [CLOSE_OBJECT], [], []);
    CommentedCons(false, false, [], [49], [[CLOSE_OBJECT]] + [], a);
    CommentedCons(false, false, w, [COLON], [[49]] + ([[CLOSE_OBJECT]] + []), b);
    var rest := [[COLON]] + ([[49]] + ([[CLOSE_OBJECT]] + []));
    CommentedCons(false, false, [], c, rest, w + [COLON] + b);
    CommentedCons(false, false, [], [OPEN_OBJECT], [c] + rest, [] + c + (w + [COLON] + b));
    assert [[OPEN_OBJECT]] + ([c] + rest) == [[OPEN_OBJECT], c, [COLON], [49], [CLOSE_OBJECT]];
    assert [] + [OPEN_OBJECT] + ([] + c + (w + [COLON] + b)) == [OPEN_OBJECT] + c + w + [COLON] + [49] + [CLOSE_OBJECT];
  }

  lemma MemberHasForm()
    ensures IsValue([[OPEN_OBJECT], [QUOTE, 97, QUOTE], [COLON], [49], [CLOSE_OBJECT]])
  {
    var toks := [[OPEN_OBJECT], [QUOTE, 97, QUOTE], [COLON], [49], [CLOSE_OBJECT]];
    var one: Bytes := [49];
    assert IsInt(one) && one[..1] == one && one[1..] == [] && one[1..1] == [];
    assert Splits(Unsigned(one), 1, 1);
    assert IsValue([one]);
    var name: Bytes := [QUOTE, 97, QUOTE];
    assert IsChars(name, 2, 2) && IsString(name);
    assert Inner(toks) == [name, [COLON], one] && [name, [COLON], one][2..] == [one];
  }

  lemma MisplacedComment(doc: Bytes, toks: seq<Bytes>)
    requires toks == [[OPEN_OBJECT], [QUOTE, 97, QUOTE], [COLON], [49], [CLOSE_OBJECT]] && |doc| >= 4
    requires NextToken(doc, 0).end == 1 && ReadToken(doc, 1) == Token(StringToken, 1, 4)
    requires ReadToken(doc, 4).kind == CommentToken
    ensures !Placed(doc, 0, false, toks)
  {
    hide ReadToken;
    assert NextToken(doc, 1).end == 4;
    hide NextToken;
    assert toks[1..] == [[QUOTE, 97, QUOTE], [COLON], [49], [CLOSE_OBJECT]];
    assert toks[1..][1..] == [[COLON], [49], [CLOSE_OBJECT]];
    assert Tight(false, [COLON]) && !Placed(doc, 4, false, toks[1..][1..]);
  }

  // {"a"/**/:1} is rejected even where comments are allowed, and so with any other comment.
  lemma CommentBeforeColon(f: Features, scan: Scanner, init: Node, w: Bytes)
    requires f.allowComments && IsComment(w)
    ensures var doc := [OPEN_OBJECT] + [QUOTE, 97, QUOTE] + w + [COLON] + [49] + [CLOSE_OBJECT];
      !Parse(f, scan, doc, init).successful
  {
    var toks := [[OPEN_OBJECT], [QUOTE, 97, QUOTE], [COLON], [49], [CLOSE_OBJECT]];
    var doc := [OPEN_OBJECT] + [QUOTE, 97, QUOTE] + w + [COLON] + [49] + [CLOSE_OBJECT];
    assert doc[0] == OPEN_OBJECT && doc[1] == QUOTE && doc[2] == 97 && doc[3] == QUOTE && doc[4..4 + |w|] == w;
    assert StringEnd(doc, 3) == Span(true, 4);
    hide Parse, IsComment, Commented, IsValue, AllReadable, ReadToken, NextToken, Lexes, TokenAt, StringEnd, Placed,
      Denotes;
    CommentedMember(w);
    MemberHasForm();
    PunctuationAt(doc, 0, OPEN_OBJECT);
    QuotedAt(doc, 1, 4);
    CommentReads(doc, 4, w);
    MisplacedComment(doc, toks);
    CommentsParse(f, Loose(scan), doc, init, toks);
  }

  // [] 2
  lemma RestIsIgnored(scan: Scanner)
    ensures WronglyRead(scan, [OPEN_ARRAY, CLOSE_ARRAY, SPACE, 50], Arr([]))
  {
    var doc: Bytes := [OPEN_ARRAY, CLOSE_ARRAY, SPACE, 50];
    KindText(doc, 0);
    KindText(doc, 1);
    assert SkipSpaces(doc, 2) == 3;
    hide ReadValue, ReadArray;
    forall f: Features, init: Node
      ensures var r := ReadValue(f, scan, doc, 0, init);
        r.Good? && r.node.value == Arr([]) && r.pos == 2
    {
      ClosesArray(f, scan, doc, 1);
      OpensArray(f, scan, doc, 0, init);
    }
    ReadButNoJson(scan, doc, Arr([]), 2);
  }

  // --- Members ---

  // A member whose value is a number, up to what follows it.
  lemma MemberOfNumber(
      f: Features, scan: Scanner, doc: Bytes, p: nat, last: Bytes, e: Entries, name: Bytes, v: Json)
    returns (e1: Entries)
    requires p <= |doc| && Paired(e) && NulFree(name) && ReadToken(doc, p).kind == StringToken
    requires Decode(doc, ReadToken(doc, p).start + 1, ReadToken(doc, p).end - 1, []) == Chars(name)
    requires Lexes(doc, ReadToken(doc, p).end, [COLON])
    requires var t := ReadToken(doc, ReadToken(doc, ReadToken(doc, p).end).end);
      t.kind == NumberToken && NumberValue(scan, doc[t.start..t.end]) == Some(v)
    ensures var m := ReadToken(doc, ReadToken(doc, ReadToken(doc, p).end).end).end;
      Paired(e1) && ReadMembers(f, scan, doc, p, last, e) == AfterMember(f, scan, doc, m, name, e1)
    ensures exists spans :: e1 == Store(e, name, Node(v, spans))
  {
    CStringOfNulFree(name);
    hide ReadToken, Lexes, Decode, CString, NumberValue, ReadMembers, ReadMember, AfterMember, ReadValue, Lookup, Store;
    var from := ReadToken(doc, ReadToken(doc, p).end).end;
    NameDecoded(f, scan, doc, p, name, last, e);
    NumberAt(f, scan, doc, from, Lookup(e, name), v);
    ColonStep(f, scan, doc, ReadToken(doc, p).end, name, v, ReadToken(doc, from).end, e);
    var n := ReadValue(f, scan, doc, from, Lookup(e, name)).node;
    e1 := Store(e, name, n);
    assert e1 == Store(e, name, Node(v, n.spans));
  }

  lemma StoreFirst(name: Bytes, n: Node)
    ensures Store(Entries([], []), name, n) == Entries([Member(name, n.value)], [n.spans])
  {
  }

  lemma TrailingCommaTokens(scan: Scanner, doc: Bytes)
    requires doc == [OPEN_OBJECT, QUOTE, QUOTE, COLON, 49, COMMA, CLOSE_OBJECT]
    ensures Lexes(doc, 0, [OPEN_OBJECT]) && ReadToken(doc, 0).end == 1
    ensures ReadToken(doc, 1) == Token(StringToken, 1, 3) && Decode(doc, 2, 2, []) == Chars([])
    ensures Lexes(doc, 3, [COLON]) && ReadToken(doc, 3).end == 4
    ensures ReadToken(doc, 4) == Token(NumberToken, 4, 5) && NumberValue(scan, doc[4..5]) == Some(Int(1))
    ensures Lexes(doc, 5, [COMMA]) && ReadToken(doc, 5).end == 6
    ensures Lexes(doc, 6, [CLOSE_OBJECT]) && ReadToken(doc, 6).end == 7
  {
    assert StringEnd(doc, 2) == Span(true, 3) && doc[1..3] == [QUOTE, QUOTE];
    hide ReadToken, Lexes, NumberValue, Decode;
    OneIsOne(scan);
    PunctuationAt(doc, 0, OPEN_OBJECT);
    QuotedAt(doc, 1, 3);
    PunctuationAt(doc, 3, COLON);
    DigitAt(doc, 4);
    PunctuationAt(doc, 5, COMMA);
    PunctuationAt(doc, 6, CLOSE_OBJECT);
  }

  lemma CommaBeforeBrace(scan: Scanner, doc: Bytes)
    requires |doc| == 7 && Lexes(doc, 0, [OPEN_OBJECT]) && ReadToken(doc, 0).end == 1
    requires ReadToken(doc, 1) == Token(StringToken, 1, 3) && Decode(doc, 2, 2, []) == Chars([])
    requires Lexes(doc, 3, [COLON]) && ReadToken(doc, 3).end == 4
    requires ReadToken(doc, 4) == Token(NumberToken, 4, 5) && NumberValue(scan, doc[4..5]) == Some(Int(1))
    requires Lexes(doc, 5, [COMMA]) && ReadToken(doc, 5).end == 6
    requires Lexes(doc, 6, [CLOSE_OBJECT]) && ReadToken(doc, 6).end == 7
    ensures WronglyRead(scan, doc, Obj([Member([], Int(1))]))
  {
    LexedKind(doc, 5, [COMMA]);
    LexedKind(doc, 6, [CLOSE_OBJECT]);
    hide TokenAt, ReadToken, Lexes, Decode, NumberValue, ReadValue, ReadMembers, AfterMember, Store, WronglyRead;
    var v := Obj([Member([], Int(1))]);
    forall f: Features, init: Node
      ensures var r := ReadValue(f, scan, doc, 0, init);
        r.Good? && r.node.value == v && r.pos == 7
    {
      var e1 := MemberOfNumber(f, scan, doc, 1, [], Entries([], []), [], Int(1));
      var spans :| e1 == Store(Entries([], []), [], Node(Int(1), spans));
      StoreFirst([], Node(Int(1), spans));
      SeparatorStep(f, scan, doc, 5, [], e1);
      ClosesObject(f, scan, doc, 6, e1);
      OpensObject(f, scan, doc, 0, init);
    }
    assert !Plain(doc, 5, 7);
    NotPlain(doc, 4, 7);
    NotPlain(doc, 3, 7);
    NotPlain(doc, 1, 7);
    NotPlain(doc, 0, 7);
    ReadButNoJson(scan, doc, v, 7);
  }

  // {"":1,}
  lemma TrailingComma(scan: Scanner)
    ensures WronglyRead(scan, [OPEN_OBJECT, QUOTE, QUOTE, COLON, 49, COMMA, CLOSE_OBJECT], Obj([Member([], Int(1))]))
  {
    var doc: Bytes := [OPEN_OBJECT, QUOTE, QUOTE, COLON, 49, COMMA, CLOSE_OBJECT];
    hide ReadToken, Lexes, NumberValue, Decode, WronglyRead;
    TrailingCommaTokens(scan, doc);
    CommaBeforeBrace(scan, doc);
  }

  lemma OneLetter(doc: Bytes, p: nat)
    requires p < |doc| && 97 <= doc[p] <= 98
    ensures Decode(doc, p, p + 1, []) == Chars([doc[p]])
  {
    assert [] + [doc[p]] == [doc[p]];
    assert Decode(doc, p + 1, p + 1, [doc[p]]) == Chars([doc[p]]);
  }

  const FIRST_MEMBER: Bytes := [OPEN_OBJECT, QUOTE, 97, QUOTE, COLON, 49]
  const COMMENT_AND_FIVE: Bytes := [SLASH, STAR, STAR, SLASH, 53]
  const SECOND_MEMBER: Bytes := [QUOTE, 98, QUOTE, COLON, 50, CLOSE_OBJECT]

  lemma StrayTokenHead(scan: Scanner, doc: Bytes)
    requires doc == FIRST_MEMBER + COMMENT_AND_FIVE + SECOND_MEMBER
    ensures Lexes(doc, 0, [OPEN_OBJECT]) && ReadToken(doc, 0).end == 1
    ensures ReadToken(doc, 1) == Token(StringToken, 1, 4) && Decode(doc, 2, 3, []) == Chars([97])
    ensures Lexes(doc, 4, [COLON]) && ReadToken(doc, 4).end == 5
    ensures ReadToken(doc, 5) == Token(NumberToken, 5, 6) && NumberValue(scan, doc[5..6]) == Some(Int(1))
  {
    forall i | 0 <= i < 6 ensures doc[i] == FIRST_MEMBER[i] {}
    assert doc[0] == OPEN_OBJECT && doc[1] == QUOTE && doc[2] == 97 && doc[3] == QUOTE && doc[4] == COLON
      && doc[5] == 49;
    assert doc[6] == COMMENT_AND_FIVE[0];
    assert StringEnd(doc, 3) == StringEnd(doc, 2) == Span(true, 4) && doc[1..4] == [QUOTE, 97, QUOTE];
    OneLetter(doc, 2);
    hide ReadToken, Lexes, NumberValue, Decode;
    OneIsOne(scan);
    PunctuationAt(doc, 0, OPEN_OBJECT);
    QuotedAt(doc, 1, 4);
    PunctuationAt(doc, 4, COLON);
    DigitAt(doc, 5);
  }

  lemma TailBytes(doc: Bytes)
    requires doc == FIRST_MEMBER + COMMENT_AND_FIVE + SECOND_MEMBER
    ensures |doc| == 17 && doc[6] == SLASH && doc[7] == STAR && doc[8] == STAR && doc[9] == SLASH && doc[10] == 53
    ensures doc[11] == QUOTE && doc[12] == 98 && doc[13] == QUOTE && doc[14] == COLON
    ensures doc[15] == 50 && doc[16] == CLOSE_OBJECT
  {
    assert doc[6] == COMMENT_AND_FIVE[0] && doc[7] == COMMENT_AND_FIVE[1] && doc[8] == COMMENT_AND_FIVE[2];
    assert doc[9] == COMMENT_AND_FIVE[3] && doc[10] == COMMENT_AND_FIVE[4] && doc[11] == SECOND_MEMBER[0];
    assert doc[12] == SECOND_MEMBER[1] && doc[13] == SECOND_MEMBER[2] && doc[14] == SECOND_MEMBER[3];
    assert doc[15] == SECOND_MEMBER[4] && doc[16] == SECOND_MEMBER[5];
  }

  lemma StrayTokenTail(scan: Scanner, doc: Bytes)
    requires |doc| == 17 && doc[6] == SLASH && doc[7] == STAR && doc[8] == STAR && doc[9] == SLASH && doc[10] == 53
    requires doc[11] == QUOTE && doc[12] == 98 && doc[13] == QUOTE && doc[14] == COLON
    requires doc[15] == 50 && doc[16] == CLOSE_OBJECT
    ensures ReadToken(doc, 6) == Token(CommentToken, 6, 10) && ReadToken(doc, 10) == Token(NumberToken, 10, 11)
    ensures ReadToken(doc, 11) == Token(StringToken, 11, 14) && Decode(doc, 12, 13, []) == Chars([98])
    ensures Lexes(doc, 14, [COLON]) && ReadToken(doc, 14).end == 15
    ensures ReadToken(doc, 15) == Token(NumberToken, 15, 16) && NumberValue(scan, doc[15..16]) == Some(Int(2))
    ensures Lexes(doc, 16, [CLOSE_OBJECT]) && ReadToken(doc, 16).end == 17
  {
    OneLetter(doc, 12);
    assert StringEnd(doc, 13) == StringEnd(doc, 12) == Span(true, 14);
    hide ReadToken, Lexes, NumberValue, Decode;
    OneIsOne(scan);
    CommentAt(doc, 6);
    DigitAt(doc, 10);
    QuotedAt(doc, 11, 14);
    PunctuationAt(doc, 14, COLON);
    DigitAt(doc, 15);
    PunctuationAt(doc, 16, CLOSE_OBJECT);
  }

  lemma StrayStep(f: Features, scan: Scanner, doc: Bytes, p: nat, name: Bytes, e: Entries)
    requires p <= |doc| && Paired(e) && ReadToken(doc, p).kind == CommentToken
    requires var t := ReadToken(doc, ReadToken(doc, p).end);
      t.kind != CommentToken && t.kind != ObjectEnd
    ensures AfterMember(f, scan, doc, p, name, e) ==
      ReadMembers(f, scan, doc, ReadToken(doc, ReadToken(doc, p).end).end, name, e)
  {
    hide TokenAt, ReadToken, Recover, ReadMembers;
  }

  lemma FirstOfTwo(f: Features, scan: Scanner, doc: Bytes) returns (e1: Entries)
    requires |doc| == 17 && ReadToken(doc, 1) == Token(StringToken, 1, 4) && Decode(doc, 2, 3, []) == Chars([97])
    requires Lexes(doc, 4, [COLON]) && ReadToken(doc, 4).end == 5
    requires ReadToken(doc, 5) == Token(NumberToken, 5, 6) && NumberValue(scan, doc[5..6]) == Some(Int(1))
    requires ReadToken(doc, 6) == Token(CommentToken, 6, 10) && ReadToken(doc, 10) == Token(NumberToken, 10, 11)
    ensures Paired(e1) && e1.members == [Member([97], Int(1))]
    ensures ReadMembers(f, scan, doc, 1, [], Entries([], [])) == ReadMembers(f, scan, doc, 11, [97], e1)
  {
    hide TokenAt, ReadToken, Lexes, Decode, NumberValue, ReadMembers, AfterMember, Store;
    e1 := MemberOfNumber(f, scan, doc, 1, [], Entries([], []), [97], Int(1));
    var first :| e1 == Store(Entries([], []), [97], Node(Int(1), first));
    StoreFirst([97], Node(Int(1), first));
    StrayStep(f, scan, doc, 6, [97], e1);
  }

  lemma StoreSecond(e: Entries, n: Node)
    requires Paired(e) && e.members == [Member([97], Int(1))]
    ensures Store(e, [98], n).members == e.members + [Member([98], n.value)]
  {
    assert LowerBound([], [98]) == 0 && e.members[1..] == [];
  }

  lemma SecondOfTwo(f: Features, scan: Scanner, doc: Bytes, e1: Entries)
    requires |doc| == 17 && Paired(e1) && e1.members == [Member([97], Int(1))]
    requires ReadToken(doc, 11) == Token(StringToken, 11, 14) && Decode(doc, 12, 13, []) == Chars([98])
    requires Lexes(doc, 14, [COLON]) && ReadToken(doc, 14).end == 15
    requires ReadToken(doc, 15) == Token(NumberToken, 15, 16) && NumberValue(scan, doc[15..16]) == Some(Int(2))
    requires Lexes(doc, 16, [CLOSE_OBJECT]) && ReadToken(doc, 16).end == 17
    ensures var g := ReadMembers(f, scan, doc, 11, [97], e1);
      g.entries.members == [Member([97], Int(1)), Member([98], Int(2))] && g.end.None? && g.pos == 17
  {
    hide TokenAt, ReadToken, Lexes, Decode, NumberValue, ReadMembers, AfterMember, Store;
    NotBoth(doc, 16, [CLOSE_OBJECT], [COMMA]);
    var e2 := MemberOfNumber(f, scan, doc, 11, [97], e1, [98], Int(2));
    var second :| e2 == Store(e1, [98], Node(Int(2), second));
    StoreSecond(e1, Node(Int(2), second));
    SeparatorStep(f, scan, doc, 16, [98], e2);
  }

  lemma AnyTokenForComma(scan: Scanner, doc: Bytes)
    requires |doc| == 17 && Lexes(doc, 0, [OPEN_OBJECT]) && ReadToken(doc, 0).end == 1
    requires ReadToken(doc, 1) == Token(StringToken, 1, 4) && Decode(doc, 2, 3, []) == Chars([97])
    requires Lexes(doc, 4, [COLON]) && ReadToken(doc, 4).end == 5
    requires ReadToken(doc, 5) == Token(NumberToken, 5, 6) && NumberValue(scan, doc[5..6]) == Some(Int(1))
    requires ReadToken(doc, 6) == Token(CommentToken, 6, 10) && ReadToken(doc, 10) == Token(NumberToken, 10, 11)
    requires ReadToken(doc, 11) == Token(StringToken, 11, 14) && Decode(doc, 12, 13, []) == Chars([98])
    requires Lexes(doc, 14, [COLON]) && ReadToken(doc, 14).end == 15
    requires ReadToken(doc, 15) == Token(NumberToken, 15, 16) && NumberValue(scan, doc[15..16]) == Some(Int(2))
    requires Lexes(doc, 16, [CLOSE_OBJECT]) && ReadToken(doc, 16).end == 17
    ensures WronglyRead(scan, doc, Obj([Member([97], Int(1)), Member([98], Int(2))]))
  {
    hide TokenAt, ReadToken, Lexes, NumberValue, Decode, ReadValue, ReadMembers, WronglyRead, LiteralOk;
    var v := Obj([Member([97], Int(1)), Member([98], Int(2))]);
    forall f: Features, init: Node
      ensures var r := ReadValue(f, scan, doc, 0, init);
        r.Good? && r.node.value == v && r.pos == 17
    {
      var e1 := FirstOfTwo(f, scan, doc);
      SecondOfTwo(f, scan, doc, e1);
      OpensObject(f, scan, doc, 0, init);
    }
    NotPlain(doc, 6, 17);
    NotPlain(doc, 5, 17);
    NotPlain(doc, 4, 17);
    NotPlain(doc, 1, 17);
    NotPlain(doc, 0, 17);
    ReadButNoJson(scan, doc, v, 17);
  }

  // {"a":1/**/5"b":2}, where the 5 passes for a comma
  lemma StrayToken(scan: Scanner)
    ensures WronglyRead(scan, FIRST_MEMBER + COMMENT_AND_FIVE + SECOND_MEMBER,
      Obj([Member([97], Int(1)), Member([98], Int(2))]))
  {
    hide ReadToken, Lexes, NumberValue, Decode, WronglyRead;
    var doc := FIRST_MEMBER + COMMENT_AND_FIVE + SECOND_MEMBER;
    StrayTokenHead(scan, doc);
    TailBytes(doc);
    StrayTokenTail(scan, doc);
    AnyTokenForComma(scan, doc);
  }
}
