/** Single tokens: the reader's decoding of a number or a string is what its text denotes. */
module JsonLiterals {
  import opened Common
  import opened JsonText
  import opened JsonValue
  import opened JsonNumber
  import opened JsonString
  import opened JsonGrammar
  import opened JsonSyntax

  // --- Numbers ---

  lemma IntegerText(text: Bytes)
    requires IsInteger(text)
    ensures text != [] && AllDigits(Unsigned(text)) && Unsigned(text) != []
    ensures text == (if text[0] == MINUS then [MINUS] else []) + Unsigned(text)
  {
    assert text != [];
    assert text[0] == MINUS ==> text == [MINUS] + text[1..];
  }

  // A fraction or an exponent makes the reader call the scanner.
  lemma FractionLooksDouble(text: Bytes, i: nat, j: nat)
    requires Splits(Unsigned(text), i, j) && i < |Unsigned(text)|
    ensures text != [] && LooksDouble(text) && !IsInteger(text)
  {
    var u := Unsigned(text);
    assert 0 < i;
    var c := u[i];
    assert c == DOT || c == 101 || c == 69 by {
      if i < j { assert u[i..j][0] == c; } else { assert u[j..][0] == c; }
    }
    var k := |text| - |u| + i;
    assert text[k] == c && MarksDouble(text, k);
  }

  lemma IntegerDecodes(text: Bytes)
    requires IsInteger(text)
    ensures text != [] && DecodeText(text) ==
      if -TWO63 <= IntegerOf(text) < TWO64 then Number(Retyped(IntegerOf(text))) else AsDouble
  {
    hide DecodeText, Denoted;
    IntegerText(text);
    DecodingIsExact(text[0] == MINUS, Unsigned(text));
  }

  // A text in the number grammar means what the reader makes of it.
  lemma NumberExact(scan: Scanner, text: Bytes, v: Json)
    requires text != []
    ensures NumberMeans(scan, text, v) <==> IsNumber(text) && NumberValue(scan, text) == Some(v)
  {
    hide LooksDouble, Scan, Typed, Retyped, Denoted, Unsigned, IsInt;
    if IsNumber(text) {
      var i: nat, j: nat :| Splits(Unsigned(text), i, j);
      if i < |Unsigned(text)| {
        FractionLooksDouble(text, i, j);
        assert DecodeText(text) == AsDouble;
      } else {
        assert Unsigned(text)[..i] == Unsigned(text);
        hide DecodeText;
        IntegerDecodes(text);
      }
    }
  }

  lemma IntegerIsNumber(text: Bytes)
    requires IsInteger(text)
    ensures IsNumber(text)
  {
    var u := Unsigned(text);
    assert u[..|u|] == u && u[|u|..|u|] == [] && u[|u|..] == [];
    assert Splits(u, |u|, |u|);
  }

  // --- Strings ---

  // The reader's digits are those of the table.
  lemma HexTable(c: Byte)
    ensures HexValue(c) == if Hex(c).Some? then Hex(c).value else -1
    ensures Hex(c).Some? ==> Hex(c).value < 16
  {
  }

  lemma HexQuadOf(text: Bytes, p: nat, end: nat)
    requires end <= |text| && IsEscape(text, p, end)
    ensures HexQuad(text, p + 2, end) == Code(HexOf(text, p + 2).value, p + 6)
  {
    hide Hex, HexValue;
    HexTable(text[p + 2]);
    HexTable(text[p + 3]);
    HexTable(text[p + 4]);
    HexTable(text[p + 5]);
  }

  // A digit in either case.
  ghost predicate Spells(c: Byte, digit: nat) {
    digit < 16 && (c == Ascii("0123456789abcdef")[digit] || c == Ascii("0123456789ABCDEF")[digit])
  }

  ghost predicate SpellsCode(text: Bytes, p: nat, code: nat)
    requires p + 4 <= |text|
  {
    && Spells(text[p], code / 0x1000) && Spells(text[p + 1], code / 0x100 % 0x10)
    && Spells(text[p + 2], code / 0x10 % 0x10) && Spells(text[p + 3], code % 0x10)
  }

  lemma SpelledDigit(c: Byte, digit: nat)
    requires Spells(c, digit)
    ensures Hex(c) == Some(digit)
  {
  }

  lemma FourDigits(code: nat)
    ensures code == code / 0x1000 * 0x1000 + code / 0x100 % 0x10 * 0x100 + code / 0x10 % 0x10 * 0x10 + code % 0x10
  {
    assert code / 0x100 == code / 0x10 / 0x10 && code / 0x1000 == code / 0x10 / 0x10 / 0x10;
  }

  // Every code below 0x10000 is what its four digits denote, each in either case.
  lemma CodeSpelled(text: Bytes, p: nat, code: nat)
    requires p + 4 <= |text| && SpellsCode(text, p, code)
    ensures HexOf(text, p) == Some(code)
  {
    hide Hex, Spells;
    SpelledDigit(text[p], code / 0x1000);
    SpelledDigit(text[p + 1], code / 0x100 % 0x10);
    SpelledDigit(text[p + 2], code / 0x10 % 0x10);
    SpelledDigit(text[p + 3], code % 0x10);
    FourDigits(code);
  }

  // An escape spelled so, outside the surrogates, is read as the code point.
  lemma EscapeRead(doc: Bytes, p: nat, end: nat, decoded: Bytes, code: nat)
    requires p + 6 <= end <= |doc| && doc[p] == BACKSLASH && doc[p + 1] == 117 && SpellsCode(doc, p + 2, code)
    requires !IsHigh(code) && !IsLow(code)
    ensures Decode(doc, p, end, decoded) == Decode(doc, p + 6, end, decoded + CodePointToUtf8(code))
  {
    hide SpellsCode, HexOf, CodePointToUtf8, HexQuad;
    CodeSpelled(doc, p + 2, code);
    HexQuadOf(doc, p, end);
  }

  lemma EscapeTable(c: Byte)
    ensures c in ESCAPES <==> ShortEscape(c) != []
    ensures c in ESCAPES ==> ShortEscape(c) == [ESCAPES[c]]
  {
  }

  // One escaped code point, in one escape or two.
  lemma CodePointOf(text: Bytes, p: nat, end: nat)
    requires end <= |text| && IsEscape(text, p, end)
    requires IsHigh(HexOf(text, p + 2).value) ==> IsEscape(text, p + 6, end)
    ensures var c, unit := DecodeCodePoint(text, p + 2, end), HexOf(text, p + 2).value;
      c == if IsHigh(unit) then Code(0x10000 + unit % 0x400 * 0x400 + HexOf(text, p + 8).value % 0x400, p + 12)
           else Code(unit, p + 6)
  {
    hide HexOf, HexQuad;
    HexQuadOf(text, p, end);
    if IsHigh(HexOf(text, p + 2).value) { HexQuadOf(text, p + 6, end); }
  }

  lemma NoHexQuad(text: Bytes, p: nat, end: nat)
    requires p <= end <= |text| && (p + 4 <= end ==> HexOf(text, p) == None)
    ensures HexQuad(text, p, end).BadCode?
  {
    hide Hex, HexValue;
    if p + 4 <= end {
      HexTable(text[p]);
      HexTable(text[p + 1]);
      HexTable(text[p + 2]);
      HexTable(text[p + 3]);
    }
  }

  // A first half of a pair without an escape behind it.
  lemma NoCodePoint(text: Bytes, p: nat, end: nat)
    requires end <= |text| && IsEscape(text, p, end) && IsHigh(HexOf(text, p + 2).value) && !IsEscape(text, p + 6, end)
    ensures DecodeCodePoint(text, p + 2, end).BadCode?
  {
    hide HexOf, HexQuad;
    HexQuadOf(text, p, end);
    if p + 8 <= end && text[p + 6] == BACKSLASH && text[p + 7] == 117 { NoHexQuad(text, p + 8, end); }
  }

  lemma Regroup(a: Bytes, b: Bytes, rest: Option<Bytes>)
    ensures rest.Some? ==> a + b + rest.value == a + Prepend(b, rest).value
  {
    if rest.Some? { assert a + b + rest.value == a + (b + rest.value); }
  }

  lemma EscapeSkipped(text: Bytes, p: nat, end: nat)
    requires end < |text| && IsEscape(text, p, end)
    ensures StringEnd(text, p) == StringEnd(text, p + 6)
  {
    EndSkipsPlain(text, p + 2, 4);
  }

  // The closing quote of a string of the grammar is the first quote that is not escaped.
  lemma {:induction false} CharsEnd(text: Bytes, p: nat, end: nat)
    requires p <= end < |text| && text[end] == QUOTE && IsChars(text, p, end)
    ensures StringEnd(text, p) == Span(true, end + 1)
    decreases end - p
  {
    if p < end {
      if text[p] != BACKSLASH {
        CharsEnd(text, p + 1, end);
      } else if p + 1 < end && text[p + 1] in ESCAPES {
        CharsEnd(text, p + 2, end);
      } else {
        EscapeSkipped(text, p, end);
        CharsEnd(text, p + 6, end);
      }
    }
  }

  lemma NoEscape(text: Bytes, p: nat, end: nat)
    requires p <= end <= |text| && p + 2 <= end && HexQuad(text, p + 2, end).BadCode?
    ensures DecodeCodePoint(text, p + 2, end).BadCode?
  {
  }

  // What any string denotes in the loose dialect is what the reader decodes it to; it denotes nothing exactly
  // when decoding fails.
  lemma {:induction false} MeaningDecodes(text: Bytes, p: nat, end: nat, decoded: Bytes)
    requires p <= end < |text| && StringEnd(text, p) == Span(true, end + 1)
    ensures var m, r := Meaning(false, text, p, end), Decode(text, p, end, decoded);
      if m.Some? then r == Chars(decoded + m.value) else r.BadEscape?
    decreases end - p
  {
    hide DecodeCodePoint, CodePointToUtf8, ShortEscape, HexOf;
    if p == end {
      assert decoded + [] == decoded;
    } else if text[p] != BACKSLASH {
      MeaningDecodes(text, p + 1, end, decoded + [text[p]]);
      Regroup(decoded, [text[p]], Meaning(false, text, p + 1, end));
    } else if p + 1 < end {
      EscapeTable(text[p + 1]);
      if text[p + 1] in ESCAPES {
        MeaningDecodes(text, p + 2, end, decoded + ShortEscape(text[p + 1]));
        Regroup(decoded, [ESCAPES[text[p + 1]]], Meaning(false, text, p + 2, end));
      } else if IsEscape(text, p, end) {
        MeaningOfCode(text, p, end, decoded);
      } else if text[p + 1] == 117 {
        NoHexQuad(text, p + 2, end);
        NoEscape(text, p, end);
      }
    }
  }

  lemma {:induction false} MeaningOfCode(text: Bytes, p: nat, end: nat, decoded: Bytes)
    requires end < |text| && IsEscape(text, p, end) && StringEnd(text, p) == Span(true, end + 1)
    requires ShortEscape(text[p + 1]) == [] && text[p + 1] !in ESCAPES
    ensures var m, r := Meaning(false, text, p, end), Decode(text, p, end, decoded);
      if m.Some? then r == Chars(decoded + m.value) else r.BadEscape?
    decreases end - p, 0
  {
    hide DecodeCodePoint, CodePointToUtf8, ShortEscape, HexOf, StringEnd;
    var unit := HexOf(text, p + 2).value;
    EscapeSkipped(text, p, end);
    if IsHigh(unit) && !IsEscape(text, p + 6, end) {
      NoCodePoint(text, p, end);
    } else {
      if IsHigh(unit) { EscapeSkipped(text, p + 6, end); }
      CodePointOf(text, p, end);
      var c := DecodeCodePoint(text, p + 2, end);
      var utf8 := CodePointToUtf8(c.value);
      MeaningDecodes(text, c.next, end, decoded + utf8);
      Regroup(decoded, utf8, Meaning(false, text, c.next, end));
    }
  }

  // A string denotes something exactly when its escapes are well formed and its surrogates coupled as the
  // dialect wants.
  lemma {:induction false} MeaningExists(strict: bool, text: Bytes, p: nat, end: nat)
    requires p <= end <= |text|
    ensures Meaning(strict, text, p, end).Some? <==> WellEscaped(text, p, end) && Coupled(strict, text, p, end)
    decreases end - p
  {
    hide CodePointToUtf8, HexOf;
    if p < end {
      if text[p] != BACKSLASH {
        MeaningExists(strict, text, p + 1, end);
      } else if p + 1 < end && text[p + 1] in ESCAPES {
        MeaningExists(strict, text, p + 2, end);
      } else if IsEscape(text, p, end) {
        MeaningExists(strict, text, p + 6, end);
        if IsEscape(text, p + 6, end) { MeaningExists(strict, text, p + 12, end); }
      }
    }
  }

  lemma {:induction false} CharsEscaped(text: Bytes, p: nat, end: nat)
    requires p <= end <= |text|
    ensures IsChars(text, p, end) ==> WellEscaped(text, p, end)
    decreases end - p
  {
    hide HexOf;
    if p < end {
      if text[p] != BACKSLASH {
        CharsEscaped(text, p + 1, end);
      } else if p + 1 < end && text[p + 1] in ESCAPES {
        CharsEscaped(text, p + 2, end);
      } else if IsEscape(text, p, end) {
        CharsEscaped(text, p + 6, end);
      }
    }
  }

  // What the RFC says a string is, it is in the loose dialect too.
  lemma {:induction false} StrictIsLoose(text: Bytes, p: nat, end: nat)
    requires p <= end <= |text| && Meaning(true, text, p, end).Some?
    ensures Meaning(false, text, p, end) == Meaning(true, text, p, end)
    decreases end - p
  {
    hide CodePointToUtf8, HexOf;
    if p < end {
      if text[p] != BACKSLASH {
        StrictIsLoose(text, p + 1, end);
      } else if p + 1 < end && text[p + 1] in ESCAPES {
        StrictIsLoose(text, p + 2, end);
      } else if !IsHigh(HexOf(text, p + 2).value) {
        StrictIsLoose(text, p + 6, end);
      } else {
        StrictIsLoose(text, p + 12, end);
      }
    }
  }

  // A string is rejected exactly when an escape is not well formed, or an escaped first half of a surrogate
  // pair, counted from the left, has no escape behind it to go with.
  lemma StringAccepted(doc: Bytes, p: nat, end: nat)
    requires p <= end < |doc| && StringEnd(doc, p) == Span(true, end + 1)
    ensures Decode(doc, p, end, []).Chars? <==> WellEscaped(doc, p, end) && Coupled(false, doc, p, end)
  {
    hide Meaning, Decode, Coupled, WellEscaped, StringEnd;
    MeaningDecodes(doc, p, end, []);
    MeaningExists(false, doc, p, end);
  }
}
