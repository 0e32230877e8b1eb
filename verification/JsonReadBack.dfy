/** The writers print JSON: the tokens of a value denote it, up to the types a reader gives numbers, so the
    reader undoes the writers wherever the tokens stand and whatever white space is around them. */
module JsonReadBack {
  import opened Common
  import opened JsonText
  import opened JsonValue
  import opened JsonNumber
  import opened JsonString
  import opened JsonGrammar
  import opened JsonMap
  import opened JsonTokens
  import opened JsonSyntax
  import opened JsonLiterals
  import opened JsonReading
  import opened JsonShape
  import opened JsonComplete
  import opened JsonConform
  import opened JsonRender

  // --- Literals ---

  lemma {:induction false} NoLeadingZero(n: nat)
    requires n > 0
    ensures Digits(n)[0] != ZERO
  {
    if n >= 10 { NoLeadingZero(n / 10); }
  }

  lemma IntTextMeans(d: Dialect, i: int)
    requires -TWO63 <= i < TWO64
    ensures ScalarMeans(d, IntText(i), Retyped(i))
  {
    var n := if i < 0 then -i else i;
    DigitsDenote(n);
    if n > 0 { NoLeadingZero(n); }
    hide IsNumber;
    assert Unsigned(IntText(i)) == Digits(n);
    IntegerIsNumber(IntText(i));
  }

  lemma ControlEscape(text: Bytes, p: nat, c: Byte)
    requires IsControl(c) && !IsEscaped(c) && At(text, p, Escape(c)) && p + 6 <= |text|
    ensures HexOf(text, p + 2) == Some(c)
  {
    var e := Escape(c);
    AtIndex(text, p, e, 2);
    AtIndex(text, p, e, 3);
    AtIndex(text, p, e, 4);
    AtIndex(text, p, e, 5);
    HexDigitDenotes(c / 16);
    HexDigitDenotes(c % 16);
  }

  // The characters with an escape of two, and the second of these.
  const SHORT: map<Byte, Byte> := map[34 := 34, 92 := 92, 8 := 98, 12 := 102, 10 := 110, 13 := 114, 9 := 116]

  // How each character is written: the other control characters with four digits, in upper case.
  lemma EscapeSpelled(c: Byte)
    requires c != 0
    ensures Escape(c) ==
      if c in SHORT then [BACKSLASH, SHORT[c]]
      else if c < 0x20 then Ascii("\\u00") + [Ascii("01")[c / 16], Ascii("0123456789ABCDEF")[c % 16]]
      else [c]
  {
  }

  // What one written character looks like.
  lemma EscapeShape(c: Byte)
    requires c != 0
    ensures var e := Escape(c);
      || (|e| == 1 && e[0] == c && c >= SPACE && c != QUOTE && c != BACKSLASH)
      || (|e| == 2 && e[0] == BACKSLASH && e[1] in ESCAPES && ESCAPES[e[1]] == c)
      || (|e| == 6 && e[0] == BACKSLASH && e[1] == 117 && IsControl(c) && !IsEscaped(c))
  {
  }

  lemma MeaningOfEscape(strict: bool, text: Bytes, p: nat, end: nat, c: Byte)
    requires p + 6 <= end <= |text| && text[p] == BACKSLASH && text[p + 1] == 117 && HexOf(text, p + 2) == Some(c)
    requires IsControl(c)
    ensures Meaning(strict, text, p, end) == Prepend([c], Meaning(strict, text, p + 6, end))
    ensures IsChars(text, p, end) <==> IsChars(text, p + 6, end)
  {
    hide HexOf;
  }

  lemma MeaningOne(strict: bool, text: Bytes, p: nat, end: nat, c: Byte)
    requires c != 0 && At(text, p, Escape(c)) && p + |Escape(c)| <= end <= |text|
    ensures Meaning(strict, text, p, end) == Prepend([c], Meaning(strict, text, p + |Escape(c)|, end))
    ensures IsChars(text, p, end) <==> IsChars(text, p + |Escape(c)|, end)
  {
    hide At, Escape, HexOf, Prepend;
    EscapeShape(c);
    var e := Escape(c);
    AtIndex(text, p, e, 0);
    if |e| == 2 {
      AtIndex(text, p, e, 1);
    } else if |e| == 6 {
      AtIndex(text, p, e, 1);
      ControlEscape(text, p, c);
      MeaningOfEscape(strict, text, p, end, c);
    }
  }

  lemma NothingMeans(strict: bool, text: Bytes, p: nat)
    requires p <= |text|
    ensures |EscapeAll([])| == 0 && Meaning(strict, text, p, p) == Some([]) && IsChars(text, p, p)
  {
  }

  lemma EscapeFirst(s: Bytes)
    requires NulFree(s) && s != []
    ensures EscapeAll(s) == Escape(s[0]) + EscapeAll(s[1..]) && s[0] != 0 && NulFree(s[1..]) && [s[0]] + s[1..] == s
  {
  }

  lemma {:induction false} EscapedMeans(strict: bool, text: Bytes, p: nat, end: nat, s: Bytes)
    requires NulFree(s) && At(text, p, EscapeAll(s)) && p + |EscapeAll(s)| == end
    ensures Meaning(strict, text, p, end) == Some(s) && IsChars(text, p, end)
    decreases |s|
  {
    hide Escape, EscapeAll, Meaning, IsChars, NulFree;
    assert end <= |text|;
    hide At;
    if s == [] {
      NothingMeans(strict, text, p);
    } else {
      EscapeFirst(s);
      var e, m := Escape(s[0]), p + |Escape(s[0])|;
      AtConcat(text, p, e, EscapeAll(s[1..]));
      EscapedMeans(strict, text, m, end, s[1..]);
      MeaningOne(strict, text, p, end, s[0]);
    }
  }

  // In either dialect a quoted string denotes the string.
  lemma QuoteMeans(d: Dialect, s: Bytes)
    requires NulFree(s)
    ensures StringMeans(d, Quote(s), s)
  {
    hide EscapeAll;
    assert Quote(s)[1..1 + |EscapeAll(s)|] == EscapeAll(s);
    EscapedMeans(d.Rfc?, Quote(s), 1, |Quote(s)| - 1, s);
    CStringOfNulFree(s);
  }

  // --- Values ---

  lemma {:induction false} NormalNames(scan: Scanner, q: seq<Member>, i: nat)
    requires i < |q|
    ensures NormalMembers(scan, q)[i].name == q[i].name
  {
    if i > 0 { NormalNames(scan, q[1..], i - 1); }
  }

  lemma NormalKeepsOrder(scan: Scanner, q: seq<Member>)
    requires Increasing(q)
    ensures Increasing(NormalMembers(scan, q))
  {
    hide Normal, TextLess;
    var r := NormalMembers(scan, q);
    forall i, j | 0 <= i < j < |r| ensures TextLess(r[i].name, r[j].name) {
      NormalNames(scan, q, i);
      NormalNames(scan, q, j);
    }
  }

  lemma ScalarDenotes(d: Dialect, v: Json)
    requires Printable(v) && Rescans(d.scan, v) && !v.Arr? && !v.Obj?
    ensures |Tokens(v)| == 1 && ScalarMeans(d, Tokens(v)[0], Normal(d.scan, v))
  {
    hide NumberMeans, StringMeans, IsNumber, NumberValue;
    match v
    case Int(i) => IntTextMeans(d, i);
    case UInt(u) => IntTextMeans(d, u);
    case Real(x) => NumberExact(d.scan, FORMAT_REAL(x), Normal(d.scan, v));
    case Text(s) => QuoteMeans(d, s);
    case _ =>
  }

  // The tokens of a value denote the value.
  lemma {:induction false} TokensDenote(d: Dialect, v: Json)
    requires Printable(v) && Rescans(d.scan, v)
    ensures Denotes(d, Tokens(v), Normal(d.scan, v))
    decreases v, 0
  {
    hide ScalarMeans, ItemsDenote, MembersDenote, AsMap, Increasing;
    if v.Arr? {
      ItemTokensDenote(d, v.items);
      ArrayDenotes(d, ItemTokens(v.items), NormalItems(d.scan, v.items));
    } else if v.Obj? {
      MemberTokensDenote(d, v.members);
      NormalKeepsOrder(d.scan, v.members);
      var members := NormalMembers(d.scan, v.members);
      ObjectDenotes(d, MemberTokens(v.members), members, members);
    } else {
      ScalarDenotes(d, v);
    }
  }

  lemma {:induction false} ItemTokensDenote(d: Dialect, q: seq<Json>)
    requires forall x | x in q :: Printable(x) && Rescans(d.scan, x)
    ensures ItemsDenote(d, ItemTokens(q), NormalItems(d.scan, q))
    decreases q, 1
  {
    hide Denotes, Tokens, Normal, Printable, Rescans;
    if q != [] {
      TokensDenote(d, q[0]);
      if |q| > 1 {
        ItemTokensDenote(d, q[1..]);
        ItemsCons(d, Tokens(q[0]), Normal(d.scan, q[0]), ItemTokens(q[1..]), NormalItems(d.scan, q[1..]));
      } else {
        assert NormalItems(d.scan, q) == [Normal(d.scan, q[0])];
      }
    }
  }

  lemma {:induction false} MemberTokensDenote(d: Dialect, q: seq<Member>)
    requires forall x | x in q :: NulFree(x.name) && Printable(x.value) && Rescans(d.scan, x.value)
    ensures MembersDenote(d, MemberTokens(q), NormalMembers(d.scan, q))
    decreases q, 1
  {
    hide Denotes, MemberDenotes, StringMeans, Tokens, Normal, Printable, Rescans, Quote;
    if q != [] {
      var m := Member(q[0].name, Normal(d.scan, q[0].value));
      var first := [Quote(m.name), [COLON]] + Tokens(q[0].value);
      QuoteMeans(d, m.name);
      TokensDenote(d, q[0].value);
      MemberOf(d, Quote(m.name), m.name, Tokens(q[0].value), m.value);
      if |q| > 1 {
        MemberTokensDenote(d, q[1..]);
        MembersCons(d, first, m, MemberTokens(q[1..]), NormalMembers(d.scan, q[1..]));
      } else {
        assert NormalMembers(d.scan, q) == [m];
      }
    }
  }

  // The tokens of a value, wherever they stand, are read as that value and no further.
  lemma ReadBack(f: Features, scan: Scanner, doc: Bytes, p: nat, v: Json, q: nat, init: Node)
    requires p <= |doc| && Printable(v) && Rescans(scan, v) && Reads(doc, p, Tokens(v), q)
    ensures var r := ReadValue(f, scan, doc, p, init);
      r.Good? && r.node.value == Normal(scan, v) && r.pos == q
  {
    TokensDenote(Loose(scan), v);
    ReadsValue(f, Loose(scan), doc, p, Tokens(v), Normal(scan, v), q, init);
  }

  // Any text of white space and the tokens of a value is a JSON text for it, in either dialect.
  lemma PrintsDocument(d: Dialect, v: Json, s: Bytes)
    requires Printable(v) && Rescans(d.scan, v) && Interleaved(Tokens(v), s)
    ensures IsJson(s) && IsDocument(d, s, Normal(d.scan, v))
  {
    hide Denotes, IsValue, Interleaved;
    TokensDenote(d, v);
    ValueHasForm(d, Tokens(v), Normal(d.scan, v));
  }

  // It parses, under any features that admit the root, to the value up to the types of its numbers.
  ghost predicate ReadsBackAs(s: Bytes, v: Json) {
    forall f: Features, scan: Scanner, init: Node | Rescans(scan, v) && (f.strictRoot ==> v.Arr? || v.Obj?) ::
      var r := Parse(f, scan, s, init);
      r.successful && r.errors == [] && r.root.value == Normal(scan, v)
  }

  lemma PrintedReadsBack(v: Json, s: Bytes)
    requires Printable(v) && Interleaved(Tokens(v), s)
    ensures ReadsBackAs(s, v)
  {
    hide Parse, Interleaved, Printable, Rescans, Tokens, IsDocument;
    forall f: Features, scan: Scanner, init: Node | Rescans(scan, v) && (f.strictRoot ==> v.Arr? || v.Obj?)
      ensures var r := Parse(f, scan, s, init);
        r.successful && r.errors == [] && r.root.value == Normal(scan, v)
    {
      PrintsDocument(Loose(scan), v, s);
      DocumentConforms(f, Loose(scan), s, init, Normal(scan, v));
    }
  }
}
