/** StyledWriter: a line of its own for each element of a large array and each member of an object. */
module JsonStyled {
  import opened Common
  import opened JsonText
  import opened JsonValue
  import opened JsonString
  import opened JsonSyntax
  import opened JsonRender
  import opened JsonReadBack
  import opened JsonPrint
  import opened JsonLayout
  import opened JsonWriter

  lemma Regroup(start: Bytes, t: Bytes, w: Bytes, name: Bytes, colon: Bytes, v: Bytes)
    ensures start + t + w + name + colon + v == start + (t + w + name + colon + v)
  {
  }

  // One text per element, in order.
  ghost predicate Collected(texts: seq<Bytes>, items: seq<Json>) {
    |texts| == |items| && forall i | 0 <= i < |items| :: texts[i] == Compact(items[i])
  }

  // --- The tokens written so far ---

  ghost predicate ItemsDone(items: seq<Json>, i: nat, s: Bytes) {
    i <= |items| && Interleaved([[OPEN_ARRAY]] + ItemTokens(items[..i]), s)
  }

  ghost predicate ItemsNext(items: seq<Json>, i: nat, s: Bytes) {
    i <= |items| && Interleaved([[OPEN_ARRAY]] + ItemTokens(items[..i]) + Comma(i), s)
  }

  ghost predicate MembersDone(members: seq<Member>, i: nat, s: Bytes) {
    i <= |members| && Interleaved([[OPEN_OBJECT]] + MemberTokens(members[..i]), s)
  }

  ghost predicate MembersNext(members: seq<Member>, i: nat, s: Bytes) {
    i <= |members| && Interleaved([[OPEN_OBJECT]] + MemberTokens(members[..i]) + Comma(i), s)
  }

  ghost predicate LineDone(items: seq<Json>, i: nat, s: Bytes) {
    ItemsDone(items, i, s) && |s| == 2 + Joined(items[..i])
  }

  lemma AddPunctuation(a: seq<Bytes>, s: Bytes, w: Bytes, c: Byte)
    requires Interleaved(a, s) && AllSpace(w)
    ensures Interleaved(a + [[c]], s + w + [c])
  {
    InterleavedOne([c]);
    AddTokens(a, s, w, [[c]], [c]);
  }

  lemma Opened(w: Bytes, c: Byte)
    requires AllSpace(w)
    ensures Interleaved([[c]], w + [c])
  {
    AddPunctuation([], [], w, c);
    assert [] + [[c]] == [[c]] && [] + w + [c] == w + [c];
  }

  lemma OpenItems(items: seq<Json>, w: Bytes)
    requires AllSpace(w)
    ensures ItemsNext(items, 0, w + [OPEN_ARRAY])
  {
    Opened(w, OPEN_ARRAY);
    assert [[OPEN_ARRAY]] + ItemTokens(items[..0]) + Comma(0) == [[OPEN_ARRAY]];
  }

  lemma CommaItems(items: seq<Json>, i: nat, s: Bytes)
    requires i > 0 && ItemsDone(items, i, s)
    ensures ItemsNext(items, i, s + [COMMA])
  {
    hide Interleaved;
    assert s + [] + [COMMA] == s + [COMMA];
    AddPunctuation([[OPEN_ARRAY]] + ItemTokens(items[..i]), s, [], COMMA);
  }

  lemma ItemWoven(items: seq<Json>, i: nat, s: Bytes, w: Bytes, v: Bytes)
    requires i < |items| && ItemsNext(items, i, s) && AllSpace(w) && Interleaved(Tokens(items[i]), v)
    ensures ItemsDone(items, i + 1, s + w + v)
  {
    hide Interleaved, AllSpace, Tokens;
    var a := [[OPEN_ARRAY]] + ItemTokens(items[..i]) + Comma(i);
    AddTokens(a, s, w, Tokens(items[i]), v);
    ItemTokensStep(items, i);
    assert a + Tokens(items[i]) == [[OPEN_ARRAY]] + (ItemTokens(items[..i]) + Comma(i) + Tokens(items[i]));
  }

  lemma CloseItems(items: seq<Json>, s: Bytes, w: Bytes)
    requires ItemsDone(items, |items|, s) && AllSpace(w)
    ensures Interleaved(Tokens(Arr(items)), s + w + [CLOSE_ARRAY])
  {
    assert items[..|items|] == items;
    AddPunctuation([[OPEN_ARRAY]] + ItemTokens(items), s, w, CLOSE_ARRAY);
  }

  lemma OpenMembers(members: seq<Member>, w: Bytes)
    requires AllSpace(w)
    ensures MembersNext(members, 0, w + [OPEN_OBJECT])
  {
    Opened(w, OPEN_OBJECT);
    assert [[OPEN_OBJECT]] + MemberTokens(members[..0]) + Comma(0) == [[OPEN_OBJECT]];
  }

  lemma CommaMembers(members: seq<Member>, i: nat, s: Bytes)
    requires i > 0 && MembersDone(members, i, s)
    ensures MembersNext(members, i, s + [COMMA])
  {
    hide Interleaved;
    assert s + [] + [COMMA] == s + [COMMA];
    AddPunctuation([[OPEN_OBJECT]] + MemberTokens(members[..i]), s, [], COMMA);
  }

  lemma ColonWoven(a: seq<Bytes>, s: Bytes, w: Bytes, name: Bytes, value: seq<Bytes>, v: Bytes)
    requires Interleaved(a, s) && AllSpace(w) && Interleaved(value, v)
    ensures Interleaved(a + [name, [COLON]] + value, s + w + name + [SPACE, COLON, SPACE] + v)
  {
    hide Interleaved;
    InterleavedOne(name);
    AddTokens(a, s, w, [name], name);
    AddPunctuation(a + [name], s + w + name, [SPACE], COLON);
    AddTokens(a + [name] + [[COLON]], s + w + name + [SPACE] + [COLON], [SPACE], value, v);
    assert a + [name] + [[COLON]] + value == a + [name, [COLON]] + value;
    assert s + w + name + [SPACE] + [COLON] + [SPACE] + v == s + w + name + [SPACE, COLON, SPACE] + v;
  }

  lemma MemberWoven(members: seq<Member>, i: nat, s: Bytes, w: Bytes, v: Bytes)
    requires i < |members| && MembersNext(members, i, s) && AllSpace(w)
    requires Interleaved(Tokens(members[i].value), v)
    ensures MembersDone(members, i + 1, s + w + Quote(members[i].name) + [SPACE, COLON, SPACE] + v)
  {
    hide Interleaved, Quote, Tokens, AllSpace;
    var name, value := Quote(members[i].name), Tokens(members[i].value);
    var a := [[OPEN_OBJECT]] + MemberTokens(members[..i]) + Comma(i);
    ColonWoven(a, s, w, name, value, v);
    MemberTokensStep(members, i);
    assert a + [name, [COLON]] + value ==
      [[OPEN_OBJECT]] + (MemberTokens(members[..i]) + Comma(i) + [name, [COLON]] + value);
  }

  lemma CloseMembers(members: seq<Member>, s: Bytes, w: Bytes)
    requires MembersDone(members, |members|, s) && AllSpace(w)
    ensures Interleaved(Tokens(Obj(members)), s + w + [CLOSE_OBJECT])
  {
    assert members[..|members|] == members;
    AddPunctuation([[OPEN_OBJECT]] + MemberTokens(members), s, w, CLOSE_OBJECT);
  }

  lemma OpenLine(items: seq<Json>)
    ensures LineDone(items, 0, [OPEN_ARRAY, SPACE])
  {
    var a := [[OPEN_ARRAY]];
    Opened([], OPEN_ARRAY);
    assert [] + [OPEN_ARRAY] == [OPEN_ARRAY];
    AddSpaces(a, [OPEN_ARRAY], [SPACE]);
    assert a + ItemTokens(items[..0]) == a && [OPEN_ARRAY] + [SPACE] == [OPEN_ARRAY, SPACE];
  }

  lemma LineStep(items: seq<Json>, i: nat, s: Bytes)
    requires i < |items| && LineDone(items, i, s)
    ensures LineDone(items, i + 1, s + (if i > 0 then [COMMA, SPACE] else []) + Compact(items[i]))
  {
    hide Interleaved, Tokens;
    CompactInterleaves(items[i]);
    LengthsStep(items, i);
    if i == 0 {
      assert [[OPEN_ARRAY]] + ItemTokens(items[..0]) + Comma(0) == [[OPEN_ARRAY]] + ItemTokens(items[..0])
        && s + [] == s;
      ItemWoven(items, i, s, [], Compact(items[i]));
    } else {
      CommaItems(items, i, s);
      ItemWoven(items, i, s + [COMMA], [SPACE], Compact(items[i]));
      assert s + [COMMA] + [SPACE] == s + [COMMA, SPACE];
    }
  }

  lemma CloseLine(items: seq<Json>, s: Bytes)
    requires LineDone(items, |items|, s)
    ensures Interleaved(Tokens(Arr(items)), s + [SPACE, CLOSE_ARRAY])
    ensures |s + [SPACE, CLOSE_ARRAY]| == LineLength(items)
  {
    hide Interleaved, Tokens;
    CloseItems(items, s, [SPACE]);
    assert s + [SPACE] + [CLOSE_ARRAY] == s + [SPACE, CLOSE_ARRAY];
    assert items[..|items|] == items;
  }

  // --- White space before a text ---

  // What writeIndent appends: nothing behind a blank; no second line feed.
  function Indentation(document: Bytes, indentString: Bytes): Bytes {
    if document == [] then indentString
    else if document[|document| - 1] == SPACE then []
    else if document[|document| - 1] == NEWLINE then indentString
    else [NEWLINE] + indentString
  }

  lemma IndentationIsSpace(document: Bytes, n: nat)
    ensures AllSpace(Indentation(document, Blanks(n)))
  {
    BlanksAreSpace(n);
  }

  lemma BreakIsSpace(n: nat)
    ensures AllSpace(Break(n))
  {
    BlanksAreSpace(n);
  }

  // Where a value may begin: at the start of the document, or behind a blank.
  ghost predicate Starts(document: Bytes, n: nat) {
    if document == [] then n == 0 else document[|document| - 1] == SPACE
  }

  lemma BeginsLine(document: Bytes, n: nat)
    requires EndsSolid(document)
    ensures Indentation(document, Blanks(n)) == Break(n)
  {
  }

  lemma LastOf(a: Bytes, b: Bytes)
    requires EndsSolid(b)
    ensures EndsSolid(a + b)
  {
  }

  lemma LineStarts(document: Bytes, n: nat)
    requires n > 0
    ensures Starts(document + Break(n), n)
  {
    BlanksAreSpace(n);
    var b := Blanks(n);
    assert (document + Break(n))[|document + Break(n)| - 1] == b[|b| - 1];
  }

  lemma FlatLayout(v: Json, n: nat)
    requires IsFlat(v)
    ensures Layout(v, n) == Compact(v)
  {
  }

  lemma NoLines(items: seq<Json>, members: seq<Member>, n: nat)
    ensures ItemLines(items[..0], n) == [] && MemberLines(members[..0], n) == [] && LineItems(items[..0]) == []
  {
  }

  lemma MemberLaid(members: seq<Member>, i: nat, n: nat, t: Bytes, v: Bytes)
    requires i < |members| && t == [OPEN_OBJECT] + MemberLines(members[..i], n) + Separator(i)
    requires v == Layout(members[i].value, n)
    ensures t + Break(n) + Quote(members[i].name) + [SPACE, COLON, SPACE] + v ==
      [OPEN_OBJECT] + MemberLines(members[..i + 1], n)
  {
    hide Layout, MemberLines, Quote, Break, Separator;
    MemberLinesStep(members, i, n);
    Regroup([OPEN_OBJECT], MemberLines(members[..i], n) + Separator(i), Break(n), Quote(members[i].name),
      [SPACE, COLON, SPACE], v);
    assert t == [OPEN_OBJECT] + (MemberLines(members[..i], n) + Separator(i));
  }

  lemma LineLaid(items: seq<Json>, i: nat)
    requires i < |items|
    ensures [OPEN_ARRAY, SPACE] + LineItems(items[..i]) +
      ((if i > 0 then [COMMA, SPACE] else []) + Compact(items[i])) == [OPEN_ARRAY, SPACE] + LineItems(items[..i + 1])
    ensures [OPEN_ARRAY, SPACE] + LineItems(items[..i]) + (if i > 0 then [COMMA, SPACE] else []) + Compact(items[i]) ==
      [OPEN_ARRAY, SPACE] + LineItems(items[..i + 1])
  {
    hide LineItems, Compact;
    LineItemsStep(items, i);
    var a, b, d := [OPEN_ARRAY, SPACE], LineItems(items[..i]), Compact(items[i]);
    var c := if i > 0 then [COMMA, SPACE] else [];
    assert a + b + (c + d) == a + (b + c + d) && a + b + c + d == a + (b + c + d);
  }

  lemma ItemLaid(items: seq<Json>, i: nat, n: nat, t: Bytes, v: Bytes)
    requires i < |items| && t == [OPEN_ARRAY] + ItemLines(items[..i], n) + Separator(i) && v == Layout(items[i], n)
    ensures t + Break(n) + v == [OPEN_ARRAY] + ItemLines(items[..i + 1], n)
  {
    hide Layout, ItemLines, Break, Separator;
    ItemLinesStep(items, i, n);
    var done := ItemLines(items[..i], n) + Separator(i);
    assert [OPEN_ARRAY] + done + Break(n) + v == [OPEN_ARRAY] + (done + Break(n) + v);
    assert t == [OPEN_ARRAY] + done;
  }

  class StyledWriter {
    var document: Bytes
    var childValues: seq<Bytes>
    var indentString: Bytes
    var addChildValues: bool

    constructor ()
      ensures document == [] && childValues == [] && indentString == [] && !addChildValues
    {
      document, childValues, indentString, addChildValues := [], [], [], false;
    }

    method PushValue(text: Bytes, ghost value: Json) returns (ghost t: Bytes)
      requires Printable(value) && IsFlat(value) && text == Compact(value)
      modifies this`document, this`childValues
      ensures addChildValues ==> document == old(document) && childValues == old(childValues) + [text]
      ensures !addChildValues ==> childValues == old(childValues) && document == old(document) + text
      ensures t == text && Interleaved(Tokens(value), t)
    {
      t := text;
      CompactInterleaves(value);
      if addChildValues {
        childValues := childValues + [text];
      } else {
        document := document + text;
      }
    }

    // In collecting mode the value becomes one more child text; otherwise its tokens are woven on, and its
    // text is the layout of the value with n containers around it.
    method WriteValue(value: Json, ghost n: nat) returns (ghost t: Bytes)
      requires Printable(value) && (addChildValues ==> IsFlat(value)) && indentString == Blanks(n)
      modifies this`document, this`childValues, this`indentString, this`addChildValues
      ensures indentString == old(indentString) && addChildValues == old(addChildValues)
      ensures addChildValues ==> document == old(document) && childValues == old(childValues) + [Compact(value)]
      ensures !addChildValues ==> document == old(document) + t && Interleaved(Tokens(value), t)
      ensures !addChildValues && RealsSolid(value) && Starts(old(document), n) ==> t == Layout(value, n)
      decreases value, 4
    {
      hide Tokens, Compact, Interleaved, Layout, Blanks, Starts;
      if IsFlat(value) { FlatLayout(value, n); }
      if value.Arr? {
        t := WriteArrayValue(value.items, n);
      } else if value.Obj? {
        if value.members == [] {
          CompactEmpty();
          t := PushValue([OPEN_OBJECT, CLOSE_OBJECT], value);
        } else {
          t := WriteObject(value.members, n);
        }
      } else {
        var text := ScalarText(value);
        t := PushValue(text, value);
      }
    }

    method Write(root: Json) returns (s: Bytes)
      requires Printable(root)
      modifies this
      ensures s == document && Interleaved(Tokens(root), s)
      ensures ReadsBackAs(s, root)
      ensures RealsSolid(root) ==> s == Layout(root, 0) + [NEWLINE]
    {
      document := [];
      addChildValues := false;
      indentString := [];
      ghost var t := WriteValue(root, 0);
      document := document + [NEWLINE];
      s := document;
      assert document == t + [NEWLINE];
      AddSpaces(Tokens(root), t, [NEWLINE]);
      PrintedReadsBack(root, s);
    }

    // A new line up to the indentation, unless the document ends in a blank.
    method WriteIndent()
      modifies this`document
      ensures document == old(document) + Indentation(old(document), indentString)
    {
      if document != [] {
        var last := document[|document| - 1];
        if last == SPACE {
          return;
        }
        if last != NEWLINE {
          document := document + [NEWLINE];
        }
      }
      document := document + indentString;
    }

    method WriteWithIndent(text: Bytes)
      modifies this`document
      ensures document == old(document) + Indentation(old(document), indentString) + text
    {
      WriteIndent();
      document := document + text;
    }

    method Indent(ghost n: nat)
      requires indentString == Blanks(n)
      modifies this`indentString
      ensures indentString == Blanks(n + 1)
    {
      indentString := indentString + INDENT;
    }

    method Unindent(ghost n: nat)
      requires indentString == Blanks(n + 1)
      modifies this`indentString
      ensures indentString == Blanks(n)
    {
      assert |indentString| >= INDENT_SIZE;
      indentString := indentString[..|indentString| - INDENT_SIZE];
    }

    // An opening bracket, behind which lines are further in.
    method OpenBracket(c: Byte, ghost n: nat) returns (ghost w: Bytes)
      requires indentString == Blanks(n)
      modifies this`document, this`indentString
      ensures indentString == Blanks(n + 1) && document == old(document) + w + [c] && AllSpace(w)
      ensures Starts(old(document), n) ==> w == []
    {
      IndentationIsSpace(document, n);
      w := Indentation(document, indentString);
      WriteWithIndent([c]);
      Indent(n);
    }

    // A closing bracket on a line of its own, as far in as the opening one's.
    method CloseBracket(c: Byte, ghost n: nat) returns (ghost w: Bytes)
      requires indentString == Blanks(n + 1)
      modifies this`document, this`indentString
      ensures indentString == Blanks(n) && document == old(document) + w + [c] && AllSpace(w)
      ensures EndsSolid(old(document)) ==> w == Break(n)
    {
      Unindent(n);
      IndentationIsSpace(document, n);
      w := Indentation(document, indentString);
      WriteWithIndent([c]);
    }

    // One member on a line of its own.
    method WriteMember(members: seq<Member>, index: nat, ghost n: nat) returns (ghost v: Bytes)
      requires Printable(Obj(members)) && index < |members| && !addChildValues
      requires n > 0 && indentString == Blanks(n) && EndsSolid(document)
      modifies this`document, this`childValues, this`indentString, this`addChildValues
      ensures indentString == Blanks(n) && !addChildValues && Interleaved(Tokens(members[index].value), v)
      ensures document == old(document) + Break(n) + Quote(members[index].name) + [SPACE, COLON, SPACE] + v
      ensures RealsSolid(members[index].value) ==> v == Layout(members[index].value, n)
      decreases members, 4
    {
      hide Interleaved, Tokens, Quote, Layout, Blanks, NulFree;
      BeginsLine(document, n);
      var name := ValueToQuotedString(members[index].name);
      WriteWithIndent(name);
      document := document + [SPACE, COLON, SPACE];
      v := WriteValue(members[index].value, n);
    }

    method WriteObject(members: seq<Member>, ghost n: nat) returns (ghost t: Bytes)
      requires Printable(Obj(members)) && members != [] && !addChildValues && indentString == Blanks(n)
      modifies this`document, this`childValues, this`indentString, this`addChildValues
      ensures indentString == old(indentString) && !addChildValues
      ensures document == old(document) + t && Interleaved(Tokens(Obj(members)), t)
      ensures RealsSolid(Obj(members)) && Starts(old(document), n) ==> t == Layout(Obj(members), n)
      decreases members, 5
    {
      hide MembersNext, MembersDone, Interleaved, Tokens, AllSpace, Quote, NulFree, Layout, MemberLines, Blanks,
        Indentation, Starts, Break, Comma;
      ghost var start, solid := document, RealsSolid(Obj(members)) && Starts(document, n);
      ghost var w := OpenBracket(OPEN_OBJECT, n);
      t := w + [OPEN_OBJECT];
      OpenMembers(members, w);
      NoLines([], members, n + 1);
      BreakIsSpace(n + 1);
      var index := 0;
      while true
        invariant 0 <= index < |members| && !addChildValues && indentString == Blanks(n + 1)
        invariant document == start + t && MembersNext(members, index, t) && EndsSolid(t)
        invariant solid ==> t == [OPEN_OBJECT] + MemberLines(members[..index], n + 1) + Separator(index)
        decreases |members| - index
      {
        ghost var name, colon := Quote(members[index].name), [SPACE, COLON, SPACE];
        ghost var v := WriteMember(members, index, n + 1);
        MemberWoven(members, index, t, Break(n + 1), v);
        MemberLinesStep(members, index, n + 1);
        Regroup(start, t, Break(n + 1), name, colon, v);
        if solid {
          MemberLaid(members, index, n + 1, t, v);
          LayoutEnds(members[index].value, n + 1);
          LastOf(start + (t + Break(n + 1) + name + colon), v);
        }
        t := t + Break(n + 1) + name + colon + v;
        index := index + 1;
        if index == |members| {
          break;
        }
        document := document + [COMMA];
        CommaMembers(members, index, t);
        t := t + [COMMA];
      }
      if solid {
        assert members[..|members|] == members;
        ObjectLines(members, n);
      }
      w := CloseBracket(CLOSE_OBJECT, n);
      CloseMembers(members, t, w);
      t := t + w + [CLOSE_OBJECT];
    }

    // All elements on one line, from the collected texts.
    method WriteLine(items: seq<Json>) returns (ghost t: Bytes)
      requires Printable(Arr(items)) && items != [] && Collected(childValues, items)
      modifies this`document
      ensures document == old(document) + t && Interleaved(Tokens(Arr(items)), t)
      ensures |t| == LineLength(items) && t == OneLine(items)
    {
      hide ItemsDone, Interleaved, Tokens, Joined, LineItems;
      NoLines(items, [], 0);
      ghost var start := document;
      document := document + [OPEN_ARRAY, SPACE];
      t := [OPEN_ARRAY, SPACE];
      OpenLine(items);
      for index := 0 to |items|
        invariant Collected(childValues, items) && document == start + t
        invariant LineDone(items, index, t) && t == [OPEN_ARRAY, SPACE] + LineItems(items[..index])
      {
        if index > 0 {
          document := document + [COMMA, SPACE];
        }
        document := document + childValues[index];
        LineStep(items, index, t);
        LineLaid(items, index);
        t := t + (if index > 0 then [COMMA, SPACE] else []) + childValues[index];
      }
      document := document + [SPACE, CLOSE_ARRAY];
      CloseLine(items, t);
      assert items[..|items|] == items;
      t := t + [SPACE, CLOSE_ARRAY];
    }

    method WriteArrayValue(items: seq<Json>, ghost n: nat) returns (ghost t: Bytes)
      requires Printable(Arr(items)) && (addChildValues ==> items == []) && indentString == Blanks(n)
      modifies this`document, this`childValues, this`indentString, this`addChildValues
      ensures indentString == old(indentString) && addChildValues == old(addChildValues)
      ensures addChildValues ==> document == old(document) && childValues == old(childValues) + [Compact(Arr(items))]
      ensures !addChildValues ==> document == old(document) + t && Interleaved(Tokens(Arr(items)), t)
      ensures !addChildValues && RealsSolid(Arr(items)) && Starts(old(document), n) ==> t == Layout(Arr(items), n)
      decreases items, 5
    {
      hide Interleaved, LineLength, Blanks, IsMultiline, Starts, OneLine, RealsSolid;
      if items == [] {
        CompactEmpty();
        t := PushValue([OPEN_ARRAY, CLOSE_ARRAY], Arr(items));
        return;
      }
      var isArrayMultiLine := IsMultilineArray(items, n);
      if isArrayMultiLine {
        t := WriteLines(items, n);
      } else {
        assert |childValues| == |items|;
        t := WriteLine(items);
      }
    }

    // One element on a line of its own, from the text already collected or from the value.
    method WriteElement(items: seq<Json>, index: nat, hasChildValue: bool, ghost n: nat) returns (ghost v: Bytes)
      requires Printable(Arr(items)) && index < |items| && !addChildValues
      requires n > 0 && indentString == Blanks(n) && EndsSolid(document)
      requires hasChildValue ==> Collected(childValues, items) && forall x | x in items :: IsFlat(x)
      modifies this`document, this`childValues, this`indentString, this`addChildValues
      ensures indentString == old(indentString) && !addChildValues
      ensures hasChildValue ==> childValues == old(childValues)
      ensures document == old(document) + Break(n) + v && Interleaved(Tokens(items[index]), v)
      ensures RealsSolid(items[index]) ==> v == Layout(items[index], n)
      decreases items, 3
    {
      hide Interleaved, Tokens, Compact, Layout, Blanks, Starts;
      BeginsLine(document, n);
      if hasChildValue {
        v := childValues[index];
        WriteWithIndent(childValues[index]);
        CompactInterleaves(items[index]);
        FlatLayout(items[index], n);
      } else {
        LineStarts(document, n);
        WriteIndent();
        v := WriteValue(items[index], n);
      }
    }

    // One element a line, from the texts already collected or from the values.
    method WriteLines(items: seq<Json>, ghost n: nat) returns (ghost t: Bytes)
      requires Printable(Arr(items)) && items != [] && !addChildValues && indentString == Blanks(n)
      requires childValues == [] || (Collected(childValues, items) && forall x | x in items :: IsFlat(x))
      requires IsMultiline(items)
      modifies this`document, this`childValues, this`indentString, this`addChildValues
      ensures indentString == old(indentString) && !addChildValues
      ensures document == old(document) + t && Interleaved(Tokens(Arr(items)), t)
      ensures RealsSolid(Arr(items)) && Starts(old(document), n) ==> t == Layout(Arr(items), n)
      decreases items, 4
    {
      hide ItemsNext, ItemsDone, Interleaved, Tokens, AllSpace, Compact, Collected, Layout, ItemLines, Blanks,
        Indentation, Starts, IsMultiline, Break, Comma;
      ghost var start, solid := document, RealsSolid(Arr(items)) && Starts(document, n);
      ghost var w := OpenBracket(OPEN_ARRAY, n);
      t := w + [OPEN_ARRAY];
      OpenItems(items, w);
      NoLines(items, [], n + 1);
      BreakIsSpace(n + 1);
      var hasChildValue := childValues != [];
      var index := 0;
      while true
        invariant 0 <= index < |items| && !addChildValues && indentString == Blanks(n + 1)
        invariant hasChildValue ==> Collected(childValues, items) && forall x | x in items :: IsFlat(x)
        invariant document == start + t && ItemsNext(items, index, t) && EndsSolid(t)
        invariant solid ==> t == [OPEN_ARRAY] + ItemLines(items[..index], n + 1) + Separator(index)
        decreases |items| - index
      {
        ghost var v := WriteElement(items, index, hasChildValue, n + 1);
        ItemWoven(items, index, t, Break(n + 1), v);
        assert start + t + Break(n + 1) + v == start + (t + Break(n + 1) + v);
        if solid {
          ItemLaid(items, index, n + 1, t, v);
          LayoutEnds(items[index], n + 1);
          LastOf(start + (t + Break(n + 1)), v);
        }
        t := t + Break(n + 1) + v;
        index := index + 1;
        if index == |items| {
          break;
        }
        document := document + [COMMA];
        CommaItems(items, index, t);
        t := t + [COMMA];
      }
      if solid {
        assert items[..|items|] == items;
        ArrayLines(items, n);
      }
      w := CloseBracket(CLOSE_ARRAY, n);
      CloseItems(items, t, w);
      t := t + w + [CLOSE_ARRAY];
    }

    // Whether the elements need a line each; on the way to the answer their texts may be collected.
    method IsMultilineArray(items: seq<Json>, ghost n: nat) returns (isMultiLine: bool)
      requires Printable(Arr(items)) && items != [] && !addChildValues && indentString == Blanks(n)
      modifies this`document, this`childValues, this`indentString, this`addChildValues
      ensures document == old(document) && indentString == old(indentString) && !addChildValues
      ensures (childValues == [] && isMultiLine) ||
        (Collected(childValues, items) && forall x | x in items :: IsFlat(x))
      ensures isMultiLine <==> IsMultiline(items)
      decreases items, 4
    {
      hide Tokens, Interleaved, Compact, Blanks, OneLine, Layout;
      var size := |items|;
      isMultiLine := size * 3 >= RIGHT_MARGIN;
      childValues := [];
      var index := 0;
      while index < size && !isMultiLine
        invariant 0 <= index <= size
        invariant isMultiLine <==> |items| * 3 >= RIGHT_MARGIN || exists i | 0 <= i < index :: !IsFlat(items[i])
      {
        isMultiLine := isMultiLine || !IsFlat(items[index]);
        index := index + 1;
      }
      if !isMultiLine {
        addChildValues := true;
        var lineLength := 4 + (size - 1) * 2;
        for index := 0 to size
          invariant addChildValues && document == old(document) && indentString == old(indentString)
          invariant Collected(childValues, items[..index])
          invariant lineLength == 4 + (size - 1) * 2 + Lengths(items[..index])
        {
          ghost var t := WriteValue(items[index], n);
          LengthsStep(items, index);
          lineLength := lineLength + |childValues[index]|;
        }
        addChildValues := false;
        assert items[..size] == items;
        isMultiLine := isMultiLine || lineLength >= RIGHT_MARGIN;
        LineLengthIs(items);
        OneLineLength(items);
      }
    }
  }
}
