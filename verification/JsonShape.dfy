/** Which texts of the grammar denote a value: those whose literals can be read. */
module JsonShape {
  import opened Common
  import opened JsonText
  import opened JsonValue
  import opened JsonNumber
  import opened JsonLexer
  import opened JsonGrammar
  import opened JsonMap
  import opened JsonTokens
  import opened JsonSyntax
  import opened JsonLiterals

  // A number fits 64 bits or can be scanned; the surrogates of a string are coupled as the dialect wants.
  ghost predicate Readable(d: Dialect, text: Bytes) {
    && (NumberText(text) ==> (IsInteger(text) && -TWO63 <= IntegerOf(text) < TWO64) || d.scan(text).Some?)
    && (IsQuoted(text) ==> Coupled(d.Rfc?, text, 1, |text| - 1))
  }

  ghost predicate AllReadable(d: Dialect, toks: seq<Bytes>) {
    forall t | t in toks :: Readable(d, t)
  }

  // --- Literals ---

  lemma NumberStarts(text: Bytes)
    requires IsNumber(text)
    ensures NumberText(text)
  {
    var i: nat, j: nat :| Splits(Unsigned(text), i, j);
    assert Unsigned(text)[..i][0] == Unsigned(text)[0];
  }

  lemma NumberExists(scan: Scanner, text: Bytes)
    requires IsNumber(text)
    ensures (exists v :: NumberMeans(scan, text, v)) <==> Readable(Loose(scan), text)
  {
    NumberStarts(text);
    hide IsNumber, IsInteger, Coupled, Denoted;
    if IsInteger(text) && -TWO63 <= IntegerOf(text) < TWO64 {
      assert NumberMeans(scan, text, Retyped(IntegerOf(text)));
    } else if scan(text).Some? {
      assert NumberMeans(scan, text, Real(scan(text).value));
    }
  }

  lemma StringExists(d: Dialect, text: Bytes)
    ensures (exists s :: StringMeans(d, text, s)) <==> IsString(text) && Readable(d, text)
  {
    hide IsChars, WellEscaped, Coupled, Meaning, CString;
    if IsQuoted(text) {
      MeaningExists(d.Rfc?, text, 1, |text| - 1);
      CharsEscaped(text, 1, |text| - 1);
      var m := Meaning(d.Rfc?, text, 1, |text| - 1);
      if IsString(text) && m.Some? { assert StringMeans(d, text, if d.Rfc? then m.value else CString(m.value)); }
    }
  }

  lemma WordReadable(d: Dialect, text: Bytes)
    requires text in {NULL_TEXT, TRUE_TEXT, FALSE_TEXT} || (|text| == 1 && !NumberText(text))
    ensures Readable(d, text)
  {
  }

  lemma NumberReadable(d: Dialect, text: Bytes)
    ensures (exists v :: NumberMeans(d.scan, text, v)) <==> IsNumber(text) && Readable(d, text)
  {
    if IsNumber(text) {
      NumberStarts(text);
      hide IsNumber;
      NumberExists(d.scan, text);
    }
  }

  // A literal of the grammar denotes something exactly when it can be read.
  lemma LiteralExists(d: Dialect, text: Bytes)
    ensures (exists v :: ScalarMeans(d, text, v)) <==> IsLiteral(text) && Readable(d, text)
  {
    hide IsNumber, NumberMeans, StringMeans, Readable, IsString;
    if text == NULL_TEXT || text == TRUE_TEXT || text == FALSE_TEXT {
      var v := if text == NULL_TEXT then Null else Bool(text == TRUE_TEXT);
      assert ScalarMeans(d, text, v);
      WordReadable(d, text);
    } else {
      StringExists(d, text);
      if s: Bytes :| StringMeans(d, text, s) { assert ScalarMeans(d, text, Text(s)); }
      if v: Json :| NumberMeans(d.scan, text, v) { assert ScalarMeans(d, text, v); }
      NumberReadable(d, text);
    }
  }

  // --- What denotes a value keeps to the grammar ---

  lemma {:induction false} ValueHasForm(d: Dialect, toks: seq<Bytes>, v: Json)
    requires Denotes(d, toks, v)
    ensures IsValue(toks) && AllReadable(d, toks)
    decreases |toks|, 0
  {
    hide ScalarMeans, ItemsDenote, MembersDenote, AreItems, AreMembers, Readable, IsLiteral, AsMap, Increasing;
    if |toks| == 1 && ScalarMeans(d, toks[0], v) {
      LiteralExists(d, toks[0]);
    } else {
      var inner := Inner(toks);
      assert toks == [toks[0]] + inner + [toks[|toks| - 1]];
      WordReadable(d, toks[0]);
      WordReadable(d, toks[|toks| - 1]);
      if v.Arr? {
        ItemsHaveForm(d, inner, v.items);
      } else {
        var entries :| MembersDenote(d, inner, entries) && AsMap(entries) == AsMap(v.members);
        MembersHaveForm(d, inner, entries);
      }
    }
  }

  lemma ItemsAreSome(d: Dialect, toks: seq<Bytes>, items: seq<Json>)
    requires ItemsDenote(d, toks, items) && items != []
    ensures toks != []
  {
  }

  lemma {:induction false} ItemsHaveForm(d: Dialect, toks: seq<Bytes>, items: seq<Json>)
    requires ItemsDenote(d, toks, items)
    ensures (toks == [] || AreItems(toks)) && AllReadable(d, toks)
    decreases |toks|, 1
  {
    hide Denotes, IsValue, Readable;
    if |items| == 1 {
      ValueHasForm(d, toks, items[0]);
    } else if items != [] {
      var k :| 0 <= k < |toks| && Denotes(d, toks[..k], items[0]) && toks[k] == [COMMA] &&
        ItemsDenote(d, toks[k + 1..], items[1..]);
      ValueHasForm(d, toks[..k], items[0]);
      ItemsHaveForm(d, toks[k + 1..], items[1..]);
      ItemsAreSome(d, toks[k + 1..], items[1..]);
      WordReadable(d, [COMMA]);
      assert toks == toks[..k] + [[COMMA]] + toks[k + 1..];
    }
  }

  lemma {:induction false} MembersHaveForm(d: Dialect, toks: seq<Bytes>, entries: seq<Member>)
    requires MembersDenote(d, toks, entries)
    ensures (toks == [] || AreMembers(toks)) && AllReadable(d, toks)
    ensures entries != [] ==> toks != []
    decreases |toks|, 1
  {
    hide MemberDenotes, IsPair, Readable;
    if |entries| == 1 {
      MemberHasForm(d, toks, entries[0]);
    } else if entries != [] {
      var k :| 0 <= k < |toks| && MemberDenotes(d, toks[..k], entries[0]) && toks[k] == [COMMA] &&
        MembersDenote(d, toks[k + 1..], entries[1..]);
      MemberHasForm(d, toks[..k], entries[0]);
      MembersHaveForm(d, toks[k + 1..], entries[1..]);
      WordReadable(d, [COMMA]);
      assert toks == toks[..k] + [[COMMA]] + toks[k + 1..];
    }
  }

  lemma {:induction false} MemberHasForm(d: Dialect, toks: seq<Bytes>, m: Member)
    requires MemberDenotes(d, toks, m)
    ensures toks != [] && IsPair(toks) && AllReadable(d, toks)
    decreases |toks|, 0
  {
    hide Denotes, IsValue, Readable, StringMeans, IsString;
    StringExists(d, toks[0]);
    ValueHasForm(d, toks[2..], m.value);
    WordReadable(d, [COLON]);
    assert toks == [toks[0], [COLON]] + toks[2..];
  }

  // --- What keeps to the grammar and can be read denotes a value ---

  lemma {:induction false} SortedMembers(entries: seq<Member>) returns (e: Entries)
    ensures Paired(e) && Increasing(e.members) && AsMap(e.members) == AsMap(entries)
    decreases |entries|
  {
    if entries == [] {
      e := Entries([], []);
    } else {
      var n := |entries| - 1;
      var e0 := SortedMembers(entries[..n]);
      var node := Node(entries[n].value, FRESH.spans);
      e := Store(e0, entries[n].name, node);
      StoreKeepsOrder(e0, entries[n].name, node);
      StoreUpdates(e0, entries[n].name, node);
    }
  }

  lemma NothingDenotes(d: Dialect)
    ensures ItemsDenote(d, [], []) && MembersDenote(d, [], [])
  {
  }

  lemma OneDenotes(d: Dialect, toks: seq<Bytes>)
    ensures forall v | Denotes(d, toks, v) :: ItemsDenote(d, toks, [v])
    ensures forall m | MemberDenotes(d, toks, m) :: MembersDenote(d, toks, [m])
  {
    hide Denotes, MemberDenotes;
  }

  lemma {:induction false} FormDenotes(d: Dialect, toks: seq<Bytes>) returns (v: Json)
    requires IsValue(toks) && AllReadable(d, toks)
    ensures Denotes(d, toks, v)
    decreases |toks|, 0
  {
    hide ScalarMeans, ItemsDenote, MembersDenote, AreItems, AreMembers, Readable, IsLiteral, AsMap, Increasing;
    if |toks| == 1 && IsLiteral(toks[0]) {
      LiteralExists(d, toks[0]);
      v :| ScalarMeans(d, toks[0], v);
    } else {
      var inner := Inner(toks);
      if Enclosed(toks, OPEN_ARRAY, CLOSE_ARRAY) {
        var items := [];
        if inner == [] { NothingDenotes(d); } else { items := FormItems(d, inner); }
        v := Arr(items);
      } else {
        var entries := [];
        if inner == [] { NothingDenotes(d); } else { entries := FormMembers(d, inner); }
        var e := SortedMembers(entries);
        v := Obj(e.members);
      }
    }
  }

  lemma {:induction false} FormItems(d: Dialect, toks: seq<Bytes>) returns (items: seq<Json>)
    requires AreItems(toks) && AllReadable(d, toks)
    ensures ItemsDenote(d, toks, items) && items != []
    decreases |toks|, 1
  {
    hide Denotes, ItemsDenote, IsValue, Readable;
    if IsValue(toks) {
      var v := FormDenotes(d, toks);
      OneDenotes(d, toks);
      items := [v];
    } else {
      var k :| 0 <= k < |toks| && IsValue(toks[..k]) && toks[k] == [COMMA] && AreItems(toks[k + 1..]);
      var a, b := toks[..k], toks[k + 1..];
      assert toks == a + [[COMMA]] + b;
      var v := FormDenotes(d, a);
      var others := FormItems(d, b);
      items := [v] + others;
      ItemsCons(d, a, v, b, others);
    }
  }

  lemma {:induction false} FormMembers(d: Dialect, toks: seq<Bytes>) returns (entries: seq<Member>)
    requires AreMembers(toks) && AllReadable(d, toks)
    ensures MembersDenote(d, toks, entries) && entries != []
    decreases |toks|, 1
  {
    hide MemberDenotes, MembersDenote, IsPair, Readable;
    if IsPair(toks) {
      var m := FormMember(d, toks);
      OneDenotes(d, toks);
      entries := [m];
    } else {
      var k :| 0 <= k < |toks| && IsPair(toks[..k]) && toks[k] == [COMMA] && AreMembers(toks[k + 1..]);
      var a, b := toks[..k], toks[k + 1..];
      assert toks == a + [[COMMA]] + b;
      var m := FormMember(d, a);
      var others := FormMembers(d, b);
      entries := [m] + others;
      MembersCons(d, a, m, b, others);
    }
  }

  lemma {:induction false} FormMember(d: Dialect, toks: seq<Bytes>) returns (m: Member)
    requires IsPair(toks) && AllReadable(d, toks)
    ensures MemberDenotes(d, toks, m)
    decreases |toks|, 0
  {
    hide Denotes, IsValue, Readable, StringMeans, IsString;
    StringExists(d, toks[0]);
    var name :| StringMeans(d, toks[0], name);
    var v := FormDenotes(d, toks[2..]);
    m := Member(name, v);
  }

  // --- From one dialect to another ---

  // Each string denotes in the other dialect what it denotes in this one.
  ghost predicate Carries(d: Dialect, other: Dialect, toks: seq<Bytes>) {
    other.scan == d.scan && forall t, s | t in toks && StringMeans(d, t, s) :: StringMeans(other, t, s)
  }

  lemma {:induction false} ValueCarries(d: Dialect, other: Dialect, toks: seq<Bytes>, v: Json)
    requires Denotes(d, toks, v) && Carries(d, other, toks)
    ensures Denotes(other, toks, v)
    decreases |toks|, 0
  {
    hide ItemsDenote, MembersDenote, StringMeans, NumberMeans, AsMap, Increasing;
    if !(|toks| == 1 && ScalarMeans(d, toks[0], v)) {
      if v.Arr? {
        ItemsCarry(d, other, Inner(toks), v.items);
      } else {
        var entries :| MembersDenote(d, Inner(toks), entries) && AsMap(entries) == AsMap(v.members);
        MembersCarry(d, other, Inner(toks), entries);
      }
    }
  }

  lemma {:induction false} ItemsCarry(d: Dialect, other: Dialect, toks: seq<Bytes>, items: seq<Json>)
    requires ItemsDenote(d, toks, items) && Carries(d, other, toks)
    ensures ItemsDenote(other, toks, items)
    decreases |toks|, 1
  {
    hide Denotes, StringMeans;
    if |items| == 1 {
      ValueCarries(d, other, toks, items[0]);
    } else if items != [] {
      var k :| 0 <= k < |toks| && Denotes(d, toks[..k], items[0]) && toks[k] == [COMMA] &&
        ItemsDenote(d, toks[k + 1..], items[1..]);
      ValueCarries(d, other, toks[..k], items[0]);
      ItemsCarry(d, other, toks[k + 1..], items[1..]);
    }
  }

  lemma {:induction false} MembersCarry(d: Dialect, other: Dialect, toks: seq<Bytes>, entries: seq<Member>)
    requires MembersDenote(d, toks, entries) && Carries(d, other, toks)
    ensures MembersDenote(other, toks, entries)
    decreases |toks|, 1
  {
    hide Denotes, StringMeans;
    if |entries| == 1 {
      ValueCarries(d, other, toks[2..], entries[0].value);
    } else if entries != [] {
      var k :| 0 <= k < |toks| && MemberDenotes(d, toks[..k], entries[0]) && toks[k] == [COMMA] &&
        MembersDenote(d, toks[k + 1..], entries[1..]);
      var m := toks[..k];
      ValueCarries(d, other, m[2..], entries[0].value);
      assert MemberDenotes(other, m, entries[0]);
      MembersCarry(d, other, toks[k + 1..], entries[1..]);
    }
  }
}
