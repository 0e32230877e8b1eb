/** String literals: what the writers escape, and what the reader makes of the result. */
module JsonString {
  import opened Common
  import opened JsonText

  // --- Writing ---

  predicate IsControl(c: Byte) { 0 < c <= 0x1F }

  predicate IsEscaped(c: Byte) {
    c == QUOTE || c == BACKSLASH || c == 8 || c == 12 || c == NEWLINE || c == RETURN || c == TAB
  }

  function HexDigit(d: nat): Byte
    requires d < 16
  {
    if d < 10 then ZERO + d else 65 + d - 10
  }

  // A backslash and one character; or \u00XX for the other control characters.
  function Escape(c: Byte): Bytes {
    if c == QUOTE then [BACKSLASH, QUOTE]
    else if c == BACKSLASH then [BACKSLASH, BACKSLASH]
    else if c == 8 then [BACKSLASH, 98]
    else if c == 12 then [BACKSLASH, 102]
    else if c == NEWLINE then [BACKSLASH, 110]
    else if c == RETURN then [BACKSLASH, 114]
    else if c == TAB then [BACKSLASH, 116]
    else if IsControl(c) then [BACKSLASH, 117, ZERO, ZERO, HexDigit(c / 16), HexDigit(c % 16)]
    else [c]
  }

  function EscapeAll(s: Bytes): Bytes {
    if s == [] then [] else Escape(s[0]) + EscapeAll(s[1..])
  }

  function Quote(s: Bytes): Bytes {
    [QUOTE] + EscapeAll(s) + [QUOTE]
  }

  lemma {:induction false} PlainText(s: Bytes)
    requires forall i | 0 <= i < |s| :: !IsEscaped(s[i]) && !IsControl(s[i])
    ensures EscapeAll(s) == s
  {
    if s != [] {
      PlainText(s[1..]);
      assert s == [s[0]] + s[1..];
    }
  }

  method ContainsControlCharacter(str: Bytes) returns (b: bool)
    ensures b <==> exists i | 0 <= i < |str| :: IsControl(str[i])
  {
    for i := 0 to |str|
      invariant forall j | 0 <= j < i :: !IsControl(str[j])
    {
      if IsControl(str[i]) {
        return true;
      }
    }
    return false;
  }

  // strpbrk with the characters that have a short escape
  predicate HasEscaped(value: Bytes) {
    exists i | 0 <= i < |value| :: IsEscaped(value[i])
  }

  method ValueToQuotedString(value: Bytes) returns (result: Bytes)
    requires NulFree(value)
    ensures result == Quote(value)
  {
    var control := ContainsControlCharacter(value);
    if !HasEscaped(value) && !control {
      PlainText(value);
      return [QUOTE] + value + [QUOTE];
    }
    result := [QUOTE];
    for c := 0 to |value|
      invariant result + EscapeAll(value[c..]) == [QUOTE] + EscapeAll(value)
    {
      assert value[c..][0] == value[c] && value[c..][1..] == value[c + 1..];
      assert result + (Escape(value[c]) + EscapeAll(value[c + 1..]))
        == result + Escape(value[c]) + EscapeAll(value[c + 1..]);
      result := result + Escape(value[c]);
    }
    assert result + [] == result;
    result := result + [QUOTE];
  }

  // --- Finding the end of a literal ---

  datatype Span = Span(ok: bool, end: nat)

  // From behind the opening quote: whether a closing quote was met, and where reading stopped.
  function StringEnd(doc: Bytes, p: nat): (r: Span)
    requires p <= |doc|
    ensures p <= r.end <= |doc| && (r.ok ==> p < r.end && doc[r.end - 1] == QUOTE)
    decreases |doc| - p
  {
    if p == |doc| then Span(false, p)
    else if doc[p] == BACKSLASH then StringEnd(doc, if p + 2 <= |doc| then p + 2 else p + 1)
    else if doc[p] == QUOTE then Span(true, p + 1)
    else StringEnd(doc, p + 1)
  }

  // --- Decoding ---

  function HexValue(c: Byte): int {
    if ZERO <= c <= NINE then c - ZERO
    else if 97 <= c <= 102 then c - 97 + 10
    else if 65 <= c <= 70 then c - 65 + 10
    else -1
  }

  datatype CodePoint = Code(value: nat, next: nat) | BadCode(at: nat)

  // Four hexadecimal digits; on failure, the position the error refers to.
  function HexQuad(doc: Bytes, p: nat, end: nat): (r: CodePoint)
    requires p <= end <= |doc|
    ensures r.Code? ==> r.next == p + 4 <= end && r.value < 0x10000
    ensures r.BadCode? ==> p <= r.at <= end
  {
    if end - p < 4 then BadCode(p)
    else if HexValue(doc[p]) < 0 then BadCode(p + 1)
    else if HexValue(doc[p + 1]) < 0 then BadCode(p + 2)
    else if HexValue(doc[p + 2]) < 0 then BadCode(p + 3)
    else if HexValue(doc[p + 3]) < 0 then BadCode(p + 4)
    else
      Code(((HexValue(doc[p]) * 16 + HexValue(doc[p + 1])) * 16 + HexValue(doc[p + 2])) * 16 + HexValue(doc[p + 3]),
        p + 4)
  }

  // A code point, or a surrogate pair written as two escapes; the second half is not range-checked.
  function DecodeCodePoint(doc: Bytes, p: nat, end: nat): (r: CodePoint)
    requires p <= end <= |doc|
    ensures r.Code? ==> p < r.next <= end && r.value <= 0x10FFFF
  {
    var first := HexQuad(doc, p, end);
    if first.BadCode? || !(0xD800 <= first.value <= 0xDBFF) then first
    else if end - first.next < 6 then BadCode(first.next)
    else if doc[first.next] != BACKSLASH then BadCode(first.next + 1)
    else if doc[first.next + 1] != 117 then BadCode(first.next + 2)
    else
      var second := HexQuad(doc, first.next + 2, end);
      if second.BadCode? then second
      else Code(0x10000 + (first.value % 0x400) * 0x400 + second.value % 0x400, second.next)
  }

  // The bit operations of the original, as arithmetic: each mask keeps the low bits of a shifted code.
  function CodePointToUtf8(cp: nat): Bytes {
    if cp <= 0x7F then [cp]
    else if cp <= 0x7FF then [0xC0 + cp / 0x40, 0x80 + cp % 0x40]
    else if cp <= 0xFFFF then [0xE0 + cp / 0x1000, 0x80 + cp / 0x40 % 0x40, 0x80 + cp % 0x40]
    else if cp <= 0x10FFFF then
      [0xF0 + cp / 0x40000, 0x80 + cp / 0x1000 % 0x40, 0x80 + cp / 0x40 % 0x40, 0x80 + cp % 0x40]
    else []
  }

  datatype Decoded = Chars(s: Bytes) | BadEscape(at: nat)

  // Whether c stands for itself, or for a control character, behind a backslash.
  function ShortEscape(c: Byte): Bytes {
    if c == QUOTE || c == SLASH || c == BACKSLASH then [c]
    else if c == 98 then [8]
    else if c == 102 then [12]
    else if c == 110 then [NEWLINE]
    else if c == 114 then [RETURN]
    else if c == 116 then [TAB]
    else []
  }

  function Decode(doc: Bytes, p: nat, end: nat, decoded: Bytes): Decoded
    requires p <= end <= |doc|
    decreases end - p
  {
    if p == end || doc[p] == QUOTE then Chars(decoded)
    else if doc[p] != BACKSLASH then Decode(doc, p + 1, end, decoded + [doc[p]])
    else if p + 1 == end then BadEscape(p + 1)
    else if ShortEscape(doc[p + 1]) != [] then Decode(doc, p + 2, end, decoded + ShortEscape(doc[p + 1]))
    else if doc[p + 1] == 117 then
      match DecodeCodePoint(doc, p + 2, end)
      case Code(value, next) => Decode(doc, next, end, decoded + CodePointToUtf8(value))
      case BadCode(at) => BadEscape(at)
    else BadEscape(p + 2)
  }

  // --- Round trip ---

  lemma HexDigitDenotes(d: nat)
    requires d < 16
    ensures HexValue(HexDigit(d)) == d
  {
  }

  lemma DecodeOne(doc: Bytes, p: nat, end: nat, c: Byte, decoded: Bytes)
    requires c != 0 && At(doc, p, Escape(c)) && p + |Escape(c)| <= end <= |doc|
    ensures Decode(doc, p, end, decoded) == Decode(doc, p + |Escape(c)|, end, decoded + [c])
  {
    var e := Escape(c);
    forall i | 0 <= i < |e| ensures doc[p + i] == e[i] { AtIndex(doc, p, e, i); }
    assert doc[p + 0] == e[0];
    if |e| == 6 {
      assert doc[p + 1] == 117 && doc[p + 2] == doc[p + 3] == ZERO;
      HexDigitDenotes(c / 16);
      HexDigitDenotes(c % 16);
      assert doc[p + 4] == HexDigit(c / 16) && doc[p + 5] == HexDigit(c % 16);
      assert HexQuad(doc, p + 2, end) == Code(c, p + 6);
    } else if |e| == 2 {
      assert doc[p + 1] == e[1];
    }
  }

  lemma {:induction false} DecodeEscaped(doc: Bytes, p: nat, end: nat, s: Bytes, decoded: Bytes)
    requires NulFree(s) && At(doc, p, EscapeAll(s)) && p + |EscapeAll(s)| == end
    ensures Decode(doc, p, end, decoded) == Chars(decoded + s)
    decreases |s|
  {
    hide Escape;
    if s == [] {
      assert decoded + s == decoded;
    } else {
      var e, rest, m := Escape(s[0]), EscapeAll(s[1..]), p + |Escape(s[0])|;
      assert EscapeAll(s) == e + rest && m + |rest| == end;
      hide EscapeAll, Decode, At;
      AtConcat(doc, p, e, rest);
      DecodeOne(doc, p, end, s[0], decoded);
      DecodeEscaped(doc, m, end, s[1..], decoded + [s[0]]);
      assert decoded + [s[0]] + s[1..] == decoded + s;
    }
  }

  lemma {:induction false} EndSkipsPlain(doc: Bytes, p: nat, k: nat)
    requires p + k <= |doc| && forall i | p <= i < p + k :: doc[i] != QUOTE && doc[i] != BACKSLASH
    ensures StringEnd(doc, p) == StringEnd(doc, p + k)
    decreases k
  {
    if k > 0 {
      EndSkipsPlain(doc, p + 1, k - 1);
    }
  }

  lemma EndSkipsEscape(doc: Bytes, p: nat, c: Byte)
    requires At(doc, p, Escape(c))
    ensures StringEnd(doc, p) == StringEnd(doc, p + |Escape(c)|)
  {
    var e := Escape(c);
    forall i | 0 <= i < |e| ensures doc[p + i] == e[i] { AtIndex(doc, p, e, i); }
    assert doc[p + 0] == e[0];
    if |e| == 6 {
      forall i | p + 2 <= i < p + 6 ensures doc[i] != QUOTE && doc[i] != BACKSLASH {
        assert doc[i] == e[i - p];
      }
      EndSkipsPlain(doc, p + 2, 4);
    }
  }

  lemma {:induction false} EscapedEnd(doc: Bytes, p: nat, s: Bytes)
    requires At(doc, p, EscapeAll(s)) && At(doc, p + |EscapeAll(s)|, [QUOTE])
    ensures StringEnd(doc, p) == Span(true, p + |EscapeAll(s)| + 1)
    decreases |s|
  {
    hide Escape;
    if s == [] {
      AtIndex(doc, p, [QUOTE], 0);
    } else {
      var e, rest, m := Escape(s[0]), EscapeAll(s[1..]), p + |Escape(s[0])|;
      assert EscapeAll(s) == e + rest && m + |rest| == p + |EscapeAll(s)|;
      hide EscapeAll, StringEnd, At;
      AtConcat(doc, p, e, rest);
      EndSkipsEscape(doc, p, s[0]);
      assert At(doc, m, rest);
      EscapedEnd(doc, m, s[1..]);
    }
  }

  // Reading a quoted string back: the scan stops at its closing quote, and decoding undoes the escapes.
  lemma StringRoundTrip(doc: Bytes, p: nat, s: Bytes)
    requires NulFree(s) && At(doc, p, Quote(s))
    ensures doc[p] == QUOTE && StringEnd(doc, p + 1) == Span(true, p + |Quote(s)|)
    ensures Decode(doc, p + 1, p + |Quote(s)| - 1, []) == Chars(s)
  {
    hide StringEnd, Decode, EscapeAll, At;
    assert Quote(s) == [QUOTE] + (EscapeAll(s) + [QUOTE]);
    AtConcat(doc, p, [QUOTE], EscapeAll(s) + [QUOTE]);
    AtConcat(doc, p + 1, EscapeAll(s), [QUOTE]);
    AtIndex(doc, p, [QUOTE], 0);
    EscapedEnd(doc, p + 1, s);
    DecodeEscaped(doc, p + 1, p + 1 + |EscapeAll(s)|, s, []);
    assert [] + s == s;
  }

  // --- Code points ---

  // The code point a UTF-8 sequence encodes.
  function Utf8ToCodePoint(s: Bytes): int
    requires 1 <= |s| <= 4
  {
    var c := seq(|s|, i requires 0 <= i < |s| => s[i] as int);
    if |s| == 1 then c[0]
    else if |s| == 2 then (c[0] - 0xC0) * 0x40 + (c[1] - 0x80)
    else if |s| == 3 then ((c[0] - 0xE0) * 0x40 + (c[1] - 0x80)) * 0x40 + (c[2] - 0x80)
    else (((c[0] - 0xF0) * 0x40 + (c[1] - 0x80)) * 0x40 + (c[2] - 0x80)) * 0x40 + (c[3] - 0x80)
  }

  predicate Tail(c: Byte) { 0x80 <= c < 0xC0 }

  // Well-formed UTF-8 of one code point (RFC 3629, section 4): no overlong form, nothing above 0x10FFFF.
  // Surrogates, which that section leaves out, have code points of their own here.
  predicate IsUtf8(s: Bytes) {
    if |s| == 1 then s[0] < 0x80
    else if |s| == 2 then 0xC2 <= s[0] < 0xE0 && Tail(s[1])
    else if |s| == 3 then 0xE0 <= s[0] < 0xF0 && Tail(s[1]) && Tail(s[2]) && (s[0] == 0xE0 ==> s[1] >= 0xA0)
    else
      && |s| == 4 && 0xF0 <= s[0] < 0xF5 && Tail(s[1]) && Tail(s[2]) && Tail(s[3])
      && (s[0] == 0xF0 ==> s[1] >= 0x90) && (s[0] == 0xF4 ==> s[1] < 0x90)
  }

  predicate IsSurrogate(cp: nat) { 0xD800 <= cp <= 0xDFFF }

  lemma Utf8RoundTrip(cp: nat)
    requires cp <= 0x10FFFF
    ensures var s := CodePointToUtf8(cp);
      && IsUtf8(s) && Utf8ToCodePoint(s) == cp
      && (IsSurrogate(cp) <==> |s| == 3 && s[0] == 0xED && s[1] >= 0xA0)
  {
    var s := CodePointToUtf8(cp);
    assert cp == cp / 0x40 * 0x40 + cp % 0x40;
    assert cp / 0x1000 == cp / 0x40 / 0x40 && cp / 0x40000 == cp / 0x40 / 0x40 / 0x40;
  }
}
