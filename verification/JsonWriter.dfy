/** FastWriter and StyledWriter, appending to their document. Comments, YAML spacing and dropped
    nulls are not part of this model. */
module JsonWriter {
  import opened Common
  import opened JsonText
  import opened JsonValue
  import opened JsonNumber
  import opened JsonString
  import opened JsonLexer
  import opened JsonRender
  import opened JsonReadBack
  import opened JsonPrint

  method ScalarText(value: Json) returns (s: Bytes)
    requires Printable(value) && !value.Arr? && !value.Obj?
    ensures Tokens(value) == [s] && Compact(value) == s
  {
    match value {
      case Null => s := NULL_TEXT;
      case Int(i) => s := ValueToString(i);
      case UInt(u) => s := ValueToStringUnsigned(u);
      case Text(text) => s := ValueToQuotedString(text);
      case Real(x) => s := FORMAT_REAL(x);
      case Bool(b) => s := if b then TRUE_TEXT else FALSE_TEXT;
    }
    FlatOne(s);
  }

  lemma Rejoin(prefix: Bytes, done: Bytes, i: nat, last: Bytes)
    ensures (if i > 0 then prefix + done + [COMMA] else prefix + done) + last ==
      prefix + (done + (Flat(Comma(i)) + last))
  {
    FlatOne([COMMA]);
    if i > 0 {
      assert prefix + done + [COMMA] + last == prefix + (done + ([COMMA] + last));
    } else {
      assert [] + last == last;
      assert prefix + done + last == prefix + (done + last);
    }
  }

  lemma FlatStep(done: seq<Bytes>, index: nat, toks: seq<Bytes>)
    ensures Flat(done + Comma(index) + toks) == Flat(done) + (Flat(Comma(index)) + Flat(toks))
  {
    FlatConcat(done, Comma(index));
    FlatConcat(done + Comma(index), toks);
  }

  lemma ItemWritten(prefix: Bytes, items: seq<Json>, i: nat)
    requires i < |items|
    ensures var done := prefix + Flat(ItemTokens(items[..i]));
      (if i > 0 then done + [COMMA] else done) + Compact(items[i]) == prefix + Flat(ItemTokens(items[..i + 1]))
  {
    ItemTokensStep(items, i);
    FlatStep(ItemTokens(items[..i]), i, Tokens(items[i]));
    Rejoin(prefix, Flat(ItemTokens(items[..i])), i, Compact(items[i]));
  }

  lemma FlatMember(name: Bytes, toks: seq<Bytes>)
    ensures Flat([name, [COLON]] + toks) == name + [COLON] + Flat(toks)
  {
    FlatOne(name);
    FlatOne([COLON]);
    assert [name, [COLON]] == [name] + [[COLON]];
    FlatConcat([name], [[COLON]]);
    FlatConcat([name, [COLON]], toks);
  }

  lemma MemberWritten(prefix: Bytes, members: seq<Member>, i: nat)
    requires i < |members|
    ensures var done := prefix + Flat(MemberTokens(members[..i]));
      (if i > 0 then done + [COMMA] else done) + Quote(members[i].name) + [COLON] + Compact(members[i].value) ==
      prefix + Flat(MemberTokens(members[..i + 1]))
  {
    hide Quote, Tokens, MemberTokens;
    var name, value := Quote(members[i].name), members[i].value;
    var done := MemberTokens(members[..i]);
    var tail := [name, [COLON]] + Tokens(value);
    MemberTokensStep(members, i);
    assert done + Comma(i) + [name, [COLON]] + Tokens(value) == done + Comma(i) + tail;
    FlatStep(done, i, tail);
    FlatMember(name, Tokens(value));
    Rejoin(prefix, Flat(done), i, Flat(tail));
    var head := if i > 0 then prefix + Flat(done) + [COMMA] else prefix + Flat(done);
    assert head + name + [COLON] + Compact(value) == head + (name + [COLON] + Compact(value));
  }

  lemma FlatBracketed(open: Bytes, toks: seq<Bytes>, close: Bytes)
    ensures Flat([open] + toks + [close]) == open + Flat(toks) + close
  {
    FlatOne(open);
    FlatOne(close);
    FlatConcat([open], toks);
    FlatConcat([open] + toks, [close]);
  }

  lemma ArrayWritten(start: Bytes, items: seq<Json>)
    ensures start + [OPEN_ARRAY] + Flat(ItemTokens(items[..|items|])) + [CLOSE_ARRAY] == start + Compact(Arr(items))
  {
    assert items[..|items|] == items;
    FlatBracketed([OPEN_ARRAY], ItemTokens(items), [CLOSE_ARRAY]);
    assert start + [OPEN_ARRAY] + Flat(ItemTokens(items)) + [CLOSE_ARRAY] ==
      start + ([OPEN_ARRAY] + Flat(ItemTokens(items)) + [CLOSE_ARRAY]);
  }

  lemma ObjectWritten(start: Bytes, members: seq<Member>)
    ensures start + [OPEN_OBJECT] + Flat(MemberTokens(members[..|members|])) + [CLOSE_OBJECT] ==
      start + Compact(Obj(members))
  {
    assert members[..|members|] == members;
    FlatBracketed([OPEN_OBJECT], MemberTokens(members), [CLOSE_OBJECT]);
    assert start + [OPEN_OBJECT] + Flat(MemberTokens(members)) + [CLOSE_OBJECT] ==
      start + ([OPEN_OBJECT] + Flat(MemberTokens(members)) + [CLOSE_OBJECT]);
  }

  class FastWriter {
    var document: Bytes
    var omitEndingLineFeed: bool

    constructor ()
      ensures document == [] && !omitEndingLineFeed
    {
      document := [];
      omitEndingLineFeed := false;
    }

    method WriteValue(value: Json)
      requires Printable(value)
      modifies this`document
      ensures document == old(document) + Compact(value)
      decreases value, 0
    {
      if value.Arr? {
        WriteArray(value.items);
      } else if value.Obj? {
        WriteObject(value.members);
      } else {
        var text := ScalarText(value);
        document := document + text;
      }
    }

    method Write(root: Json) returns (s: Bytes)
      requires Printable(root)
      modifies this`document
      ensures s == document == Compact(root) + if omitEndingLineFeed then [] else [NEWLINE]
      ensures ReadsBackAs(s, root)
    {
      document := [];
      WriteValue(root);
      if !omitEndingLineFeed {
        document := document + [NEWLINE];
      }
      s := document;
      CompactReadsBack(root, if omitEndingLineFeed then [] else [NEWLINE]);
    }

    method WriteArray(items: seq<Json>)
      requires Printable(Arr(items))
      modifies this`document
      ensures document == old(document) + Compact(Arr(items))
      decreases items, 1
    {
      ghost var start := document;
      document := document + [OPEN_ARRAY];
      ghost var prefix := document;
      for index := 0 to |items|
        invariant document == prefix + Flat(ItemTokens(items[..index]))
      {
        if index > 0 {
          document := document + [COMMA];
        }
        WriteValue(items[index]);
        ItemWritten(prefix, items, index);
      }
      document := document + [CLOSE_ARRAY];
      ArrayWritten(start, items);
    }

    method WriteObject(members: seq<Member>)
      requires Printable(Obj(members))
      modifies this`document
      ensures document == old(document) + Compact(Obj(members))
      decreases members, 1
    {
      ghost var start := document;
      document := document + [OPEN_OBJECT];
      ghost var prefix := document;
      for index := 0 to |members|
        invariant document == prefix + Flat(MemberTokens(members[..index]))
      {
        var member := members[index];
        if index > 0 {
          document := document + [COMMA];
        }
        var name := ValueToQuotedString(member.name);
        document := document + name;
        document := document + [COLON];
        WriteValue(member.value);
        MemberWritten(prefix, members, index);
      }
      document := document + [CLOSE_OBJECT];
      ObjectWritten(start, members);
    }
  }
}
