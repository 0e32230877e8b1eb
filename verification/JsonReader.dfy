/** The class Reader: a position that moves over the document, the stack of values under construction
    and the errors met. Every method computes what JsonLexer and JsonGrammar say. */
module JsonReader {
  import opened Common
  import opened JsonText
  import opened JsonValue
  import opened JsonNumber
  import S = JsonString
  import L = JsonLexer
  import G = JsonGrammar

  type Token = L.Token

  lemma ClosingBracket(doc: Bytes, p: nat)
    requires p <= |doc| && L.Peek(doc, p) == CLOSE_ARRAY
    ensures L.ReadToken(doc, p).end == p + 1
  {
  }

  ghost function HexSum(doc: Bytes, p: nat, k: nat): int
    requires p + k <= |doc|
  {
    if k == 0 then 0 else HexSum(doc, p, k - 1) * 16 + S.HexValue(doc[p + k - 1])
  }

  lemma HexSumIs(doc: Bytes, p: nat)
    requires p + 4 <= |doc|
    ensures HexSum(doc, p, 4) ==
      ((S.HexValue(doc[p]) * 16 + S.HexValue(doc[p + 1])) * 16 + S.HexValue(doc[p + 2])) * 16 + S.HexValue(doc[p + 3])
  {
    assert HexSum(doc, p, 1) == S.HexValue(doc[p]);
    assert HexSum(doc, p, 2) == S.HexValue(doc[p]) * 16 + S.HexValue(doc[p + 1]);
  }

  class Reader {
    const features: G.Features
    const scan: G.Scanner
    var document: Bytes
    var current: nat
    var errors: seq<G.Error>
    var nodes: seq<G.Node>

    constructor (features: G.Features, scan: G.Scanner)
      ensures this.features == features && this.scan == scan
    {
      this.features, this.scan := features, scan;
      document, current, errors, nodes := [], 0, [], [];
    }

    // --- Characters and tokens ---

    method GetNextChar() returns (c: Byte)
      requires current <= |document|
      modifies this`current
      ensures c == L.Peek(document, old(current)) && current == L.Advance(document, old(current))
    {
      if current == |document| {
        return 0;
      }
      c := document[current];
      current := current + 1;
    }

    method SkipSpaces()
      requires current <= |document|
      modifies this`current
      ensures current == L.SkipSpaces(document, old(current))
    {
      while current != |document|
        invariant current <= |document|
        invariant L.SkipSpaces(document, current) == L.SkipSpaces(document, old(current))
      {
        if IsSpace(document[current]) {
          current := current + 1;
        } else {
          break;
        }
      }
    }

    // Compares from the last character to the first.
    method Match(pattern: Bytes) returns (ok: bool)
      requires current <= |document|
      modifies this`current
      ensures S.Span(ok, current) == L.Match(document, old(current), pattern)
    {
      if |document| - current < |pattern| {
        return false;
      }
      var index := |pattern|;
      while index > 0
        invariant 0 <= index <= |pattern|
        invariant document[current + index..current + |pattern|] == pattern[index..]
      {
        index := index - 1;
        if document[current + index] != pattern[index] {
          assert document[current..current + |pattern|][index] != pattern[index];
          return false;
        }
        assert document[current + index..current + |pattern|] ==
          [document[current + index]] + document[current + index + 1..current + |pattern|];
        assert pattern[index..] == [pattern[index]] + pattern[index + 1..];
      }
      assert pattern[0..] == pattern && document[current + 0..current + |pattern|] == pattern;
      current := current + |pattern|;
      return true;
    }

    method ReadCStyleComment() returns (ok: bool)
      requires current <= |document|
      modifies this`current
      ensures var star := L.StarEnd(document, old(current));
        ok == (L.Peek(document, star) == SLASH) && current == L.Advance(document, star)
    {
      ghost var start := current;
      while current != |document|
        invariant current <= |document|
        invariant L.StarEnd(document, current) == L.StarEnd(document, start)
      {
        var c := GetNextChar();
        if c == STAR && L.Peek(document, current) == SLASH {
          assert L.StarEnd(document, current - 1) == current;
          var d := GetNextChar();
          return d == SLASH;
        }
      }
      var d := GetNextChar();
      ok := d == SLASH;
    }

    method ReadCppStyleComment()
      requires current <= |document|
      modifies this`current
      ensures current == L.LineEnd(document, old(current))
    {
      while current != |document|
        invariant current <= |document|
        invariant L.LineEnd(document, current) == L.LineEnd(document, old(current))
      {
        var c := GetNextChar();
        if c == RETURN || c == NEWLINE {
          break;
        }
      }
    }

    method ReadComment() returns (ok: bool)
      requires current <= |document|
      modifies this`current
      ensures S.Span(ok, current) == L.CommentEnd(document, old(current))
    {
      var c := GetNextChar();
      ok := false;
      if c == STAR {
        ok := ReadCStyleComment();
      } else if c == SLASH {
        ReadCppStyleComment();
        ok := true;
      }
    }

    method ReadNumber()
      requires current <= |document|
      modifies this`current
      ensures current == L.NumberEnd(document, old(current))
    {
      while current != |document|
        invariant current <= |document|
        invariant L.NumberEnd(document, current) == L.NumberEnd(document, old(current))
      {
        if !IsNumeric(document[current]) {
          break;
        }
        current := current + 1;
      }
    }

    method ReadString() returns (ok: bool)
      requires current <= |document|
      modifies this`current
      ensures S.Span(ok, current) == S.StringEnd(document, old(current))
    {
      var c: Byte := 0;
      while current != |document|
        invariant current <= |document| && c != QUOTE
        invariant S.StringEnd(document, current) == S.StringEnd(document, old(current))
      {
        c := GetNextChar();
        if c == BACKSLASH {
          var skipped := GetNextChar();
        } else if c == QUOTE {
          break;
        }
      }
      ok := c == QUOTE;
    }

    method ReadToken() returns (token: Token)
      requires current <= |document|
      modifies this`current
      ensures token == L.ReadToken(document, old(current)) && current == token.end
    {
      SkipSpaces();
      var start := current;
      var kind := L.ErrorToken;
      var c := GetNextChar();
      var ok := true;
      if c == OPEN_OBJECT {
        kind := L.ObjectBegin;
      } else if c == CLOSE_OBJECT {
        kind := L.ObjectEnd;
      } else if c == OPEN_ARRAY {
        kind := L.ArrayBegin;
      } else if c == CLOSE_ARRAY {
        kind := L.ArrayEnd;
      } else if c == QUOTE {
        kind := L.StringToken;
        ok := ReadString();
      } else if c == SLASH {
        kind := L.CommentToken;
        ok := ReadComment();
      } else if IsDigit(c) || c == MINUS {
        kind := L.NumberToken;
        ReadNumber();
      } else if c == 116 {
        kind := L.TrueToken;
        ok := Match(L.RUE);
      } else if c == 102 {
        kind := L.FalseToken;
        ok := Match(L.ALSE);
      } else if c == 110 {
        kind := L.NullToken;
        ok := Match(L.ULL);
      } else if c == COMMA {
        kind := L.ArraySeparator;
      } else if c == COLON {
        kind := L.MemberSeparator;
      } else if c == 0 {
        kind := L.EndOfStream;
      } else {
        ok := false;
      }
      if !ok {
        kind := L.ErrorToken;
      }
      token := L.Token(kind, start, current);
    }

    // Reads on while the token just read is a comment.
    method PastComments(token0: Token) returns (token: Token)
      requires current <= |document| && token0.end == current
      modifies this`current
      ensures token == (if token0.kind == L.CommentToken then L.NextToken(document, old(current)) else token0)
      ensures current == token.end
    {
      token := token0;
      ghost var goal := if token.kind == L.CommentToken then L.NextToken(document, current) else token;
      while token.kind == L.CommentToken
        invariant current <= |document| && token.end == current
        invariant goal == if token.kind == L.CommentToken then L.NextToken(document, current) else token
        decreases |document| - current, token.kind == L.CommentToken
      {
        token := ReadToken();
      }
    }

    // The next token that is no comment.
    method SkipCommentTokens() returns (token: Token)
      requires current <= |document|
      modifies this`current
      ensures token == L.ValueToken(features.allowComments, document, old(current)) && current == token.end
    {
      token := ReadToken();
      if features.allowComments {
        token := PastComments(token);
      }
    }

    // The next token that is no comment, whatever the features.
    method ReadPastComments() returns (token: Token)
      requires current <= |document|
      modifies this`current
      ensures token == L.NextToken(document, old(current)) && current == token.end
    {
      token := ReadToken();
      token := PastComments(token);
    }

    // --- Errors ---

    method AddError(kind: G.ErrorKind, token: Token) returns (ok: bool)
      modifies this`errors
      ensures !ok && errors == old(errors) + [G.Error(kind, token)]
    {
      errors := errors + [G.Error(kind, token)];
      return false;
    }

    method RecoverFromError(skipUntilToken: L.TokenType) returns (ok: bool)
      requires current <= |document|
      modifies this`current
      ensures !ok && current == L.Recover(document, old(current), skipUntilToken)
    {
      while true
        invariant current <= |document|
        invariant L.Recover(document, current, skipUntilToken) == L.Recover(document, old(current), skipUntilToken)
        decreases |document| - current
      {
        var skip := ReadToken();
        if skip.kind == skipUntilToken || skip.kind == L.EndOfStream {
          return false;
        }
      }
    }

    method AddErrorAndRecover(kind: G.ErrorKind, token: Token, skipUntilToken: L.TokenType) returns (ok: bool)
      requires current <= |document|
      modifies this`current, this`errors
      ensures !ok && errors == old(errors) + [G.Error(kind, token)]
      ensures current == L.Recover(document, old(current), skipUntilToken)
    {
      ok := AddError(kind, token);
      ok := RecoverFromError(skipUntilToken);
    }

    // --- Strings and numbers ---

    // Four hexadecimal digits from current0 on.
    method DecodeUnicodeEscapeSequence(token: Token, current0: nat, end: nat)
      returns (ok: bool, unicode: nat, current: nat)
      requires current0 <= end <= |document|
      modifies this`errors
      ensures var r := S.HexQuad(document, current0, end);
        ok == r.Code? && (ok ==> unicode == r.value && current == r.next)
      ensures errors == old(errors) + if ok then [] else [G.Error(G.BadStringError, token)]
    {
      unicode, current := 0, current0;
      if end - current < 4 {
        ok := AddError(G.BadStringError, token);
        return;
      }
      for index := 0 to 4
        invariant current == current0 + index && errors == old(errors)
        invariant forall j | current0 <= j < current :: S.HexValue(document[j]) >= 0
        invariant unicode == HexSum(document, current0, index)
      {
        var c := document[current];
        current := current + 1;
        unicode := unicode * 16;
        if ZERO <= c <= NINE {
          unicode := unicode + (c - ZERO);
        } else if 97 <= c <= 102 {
          unicode := unicode + (c - 97 + 10);
        } else if 65 <= c <= 70 {
          unicode := unicode + (c - 65 + 10);
        } else {
          ok := AddError(G.BadStringError, token);
          return;
        }
      }
      HexSumIs(document, current0);
      ok := true;
    }

    method DecodeUnicodeCodePoint(token: Token, current0: nat, end: nat) returns (ok: bool, unicode: nat, current: nat)
      requires current0 <= end <= |document|
      modifies this`errors
      ensures var r := S.DecodeCodePoint(document, current0, end);
        ok == r.Code? && (ok ==> unicode == r.value && current == r.next)
      ensures errors == old(errors) + if ok then [] else [G.Error(G.BadStringError, token)]
    {
      ok, unicode, current := DecodeUnicodeEscapeSequence(token, current0, end);
      if !ok {
        return;
      }
      if 0xD800 <= unicode <= 0xDBFF {
        if end - current < 6 {
          ok := AddError(G.BadStringError, token);
          return;
        }
        if document[current] == BACKSLASH && document[current + 1] == 117 {
          var surrogatePair;
          ok, surrogatePair, current := DecodeUnicodeEscapeSequence(token, current + 2, end);
          if ok {
            unicode := 0x10000 + (unicode % 0x400) * 0x400 + surrogatePair % 0x400;
          }
        } else {
          ok := AddError(G.BadStringError, token);
        }
      }
    }

    // Decodes between the quotes of a string token.
    method DecodeText(token: Token) returns (ok: bool, decoded: Bytes)
      requires token.start + 2 <= token.end <= |document|
      modifies this`errors
      ensures var r := S.Decode(document, token.start + 1, token.end - 1, []);
        ok == r.Chars? && (ok ==> decoded == r.s)
      ensures errors == old(errors) + if ok then [] else [G.Error(G.BadStringError, token)]
    {
      decoded := [];
      var at := token.start + 1;
      var end := token.end - 1;
      ghost var r := S.Decode(document, at, end, []);
      while at != end
        invariant at <= end && errors == old(errors)
        invariant S.Decode(document, at, end, decoded) == r
        decreases end - at
      {
        var c := document[at];
        at := at + 1;
        if c == QUOTE {
          break;
        } else if c == BACKSLASH {
          if at == end {
            ok := AddError(G.BadStringError, token);
            return;
          }
          var escape := document[at];
          at := at + 1;
          if escape == 117 {
            var unicode;
            ok, unicode, at := DecodeUnicodeCodePoint(token, at, end);
            if !ok {
              return;
            }
            decoded := decoded + S.CodePointToUtf8(unicode);
          } else if S.ShortEscape(escape) != [] {
            decoded := decoded + S.ShortEscape(escape);
          } else {
            ok := AddError(G.BadStringError, token);
            return;
          }
        } else {
          decoded := decoded + [c];
        }
      }
      ok := true;
    }

    method DecodeDouble(token: Token) returns (ok: bool, decoded: Json)
      requires token.start <= token.end <= |document|
      modifies this`errors
      ensures var r := scan(document[token.start..token.end]);
        ok == r.Some? && (ok ==> decoded == Real(r.value))
      ensures errors == old(errors) + if ok then [] else [G.Error(G.NotANumberError, token)]
    {
      var r := scan(document[token.start..token.end]);
      match r
      case Some(value) =>
        ok, decoded := true, Real(value);
      case None =>
        decoded := Null;
        ok := AddError(G.NotANumberError, token);
    }

    // A token's number, an integer or a double.
    method DecodeNumber(token: Token) returns (ok: bool, decoded: Json)
      requires token.start < token.end <= |document|
      modifies this`errors
      ensures var r := G.NumberValue(scan, document[token.start..token.end]);
        ok == r.Some? && (ok ==> decoded == r.value)
      ensures errors == old(errors) + if ok then [] else [G.Error(G.NotANumberError, token)]
    {
      decoded := Null;
      var r := DecodeInteger(document, token.start, token.end);
      match r
      case Number(v) =>
        ok, decoded := true, v;
      case NotANumber =>
        ok := AddError(G.NotANumberError, token);
      case AsDouble =>
        ok, decoded := DecodeDouble(token);
    }

    // --- Values ---

    ghost function Top(): G.Node
      requires nodes != []
      reads this
    {
      nodes[|nodes| - 1]
    }

    // currentValue() = n
    method SetCurrent(n: G.Node)
      requires nodes != []
      modifies this`nodes
      ensures nodes == old(nodes)[..|old(nodes)| - 1] + [n]
    {
      nodes := nodes[..|nodes| - 1] + [n];
    }

    method Push(n: G.Node)
      modifies this`nodes
      ensures nodes == old(nodes) + [n]
    {
      nodes := nodes + [n];
    }

    method Pop() returns (n: G.Node)
      requires nodes != []
      modifies this`nodes
      ensures nodes == old(nodes)[..|old(nodes)| - 1] && n == old(Top())
    {
      n := nodes[|nodes| - 1];
      nodes := nodes[..|nodes| - 1];
    }

    // Puts the value just read at the end of the current array.
    method AddElement(v: G.Node)
      requires nodes != [] && Top().value.Arr?
      modifies this`nodes
      ensures var a := old(Top());
        nodes == old(nodes)[..|old(nodes)| - 1] +
          [G.Node(Arr(a.value.items + [v.value]), G.Spans(a.spans.start, a.spans.limit, a.spans.kids + [v.spans]))]
    {
      var a := nodes[|nodes| - 1];
      SetCurrent(G.Node(Arr(a.value.items + [v.value]),
        G.Spans(a.spans.start, a.spans.limit, a.spans.kids + [v.spans])));
    }

    // The member of the current object with this name, a fresh null if there is none.
    method GetMember(name: Bytes) returns (n: G.Node)
      requires nodes != [] && Top().value.Obj? && |Top().value.members| == |Top().spans.kids|
      ensures n == G.Lookup(G.Entries(Top().value.members, Top().spans.kids), name)
    {
      var o := nodes[|nodes| - 1];
      n := G.Lookup(G.Entries(o.value.members, o.spans.kids), name);
    }

    method SetMember(name: Bytes, v: G.Node)
      requires nodes != [] && Top().value.Obj? && |Top().value.members| == |Top().spans.kids|
      modifies this`nodes
      ensures var o := old(Top());
        var e := G.Store(G.Entries(o.value.members, o.spans.kids), name, v);
        nodes == old(nodes)[..|old(nodes)| - 1] +
          [G.Node(Obj(e.members), G.Spans(o.spans.start, o.spans.limit, e.kids))]
    {
      var o := nodes[|nodes| - 1];
      var e := G.Store(G.Entries(o.value.members, o.spans.kids), name, v);
      SetCurrent(G.Node(Obj(e.members), G.Spans(o.spans.start, o.spans.limit, e.kids)));
    }

    method SetOffsetLimit(limit: nat)
      requires nodes != []
      modifies this`nodes
      ensures var n := old(Top());
        nodes == old(nodes)[..|old(nodes)| - 1] + [G.Node(n.value, G.Spans(n.spans.start, limit, n.spans.kids))]
    {
      var n := nodes[|nodes| - 1];
      SetCurrent(G.Node(n.value, G.Spans(n.spans.start, limit, n.spans.kids)));
    }

    // One element, added to the array on top of the stack.
    method ReadElement(ghost below: seq<G.Node>, ghost start: nat, ghost items: seq<Json>, ghost kids: seq<G.Spans>)
      returns (ok: bool, ghost v: G.Node)
      requires nodes == below + [G.Node(Arr(items), G.Spans(start, 0, kids))] && current <= |document|
      modifies this`current, this`nodes, this`errors
      ensures var r := G.ReadValue(features, scan, document, old(current), G.FRESH);
        && ok == r.Good? && current == r.pos && v == r.node
        && nodes == below + [G.Node(Arr(items + [v.value]), G.Spans(start, 0, kids + [v.spans]))]
        && errors == old(errors) + if ok then [] else [r.error]
      decreases |document| - current, 4
    {
      hide G.ReadValue;
      Push(G.FRESH);
      ok := ReadValue();
      var element := Pop();
      AddElement(element);
      v := element;
    }

    method ReadArray(tokenStart: Token) returns (ok: bool)
      requires nodes != [] && tokenStart.end == current <= |document|
      modifies this`current, this`nodes, this`errors
      ensures var l := G.ReadArray(features, scan, document, old(current));
        && ok == l.end.None? && current == l.pos
        && nodes == old(nodes)[..|old(nodes)| - 1] + [G.Node(Arr(l.items), G.Spans(tokenStart.start, 0, l.kids))]
        && errors == old(errors) + if ok then [] else [l.end.value]
      decreases |document| - current, 5
    {
      hide L.TokenAt, L.ReadToken, L.Recover, L.NextToken, G.ReadValue;
      ghost var l := G.ReadArray(features, scan, document, current);
      ghost var below := nodes[..|nodes| - 1];
      ghost var items: seq<Json>, kids: seq<G.Spans> := [], [];
      SetCurrent(G.Node(Arr([]), G.Spans(tokenStart.start, 0, [])));
      SkipSpaces();
      if L.Peek(document, current) == CLOSE_ARRAY {
        ClosingBracket(document, current);
        var endArray := ReadToken();
        return true;
      }
      while true
        invariant old(current) <= current <= |document| && errors == old(errors)
        invariant nodes == below + [G.Node(Arr(items), G.Spans(tokenStart.start, 0, kids))]
        invariant l == G.ReadElements(features, scan, document, current, items, kids)
        decreases |document| - current
      {
        ghost var v;
        ok, v := ReadElement(below, tokenStart.start, items, kids);
        items, kids := items + [v.value], kids + [v.spans];
        if !ok {
          ok := RecoverFromError(L.ArrayEnd);
          return;
        }
        var token := ReadPastComments();
        if token.kind != L.ArraySeparator && token.kind != L.ArrayEnd {
          ok := AddErrorAndRecover(G.MissingCommaOrBracket, token, L.ArrayEnd);
          return;
        }
        if token.kind == L.ArrayEnd {
          return true;
        }
      }
    }

    // The colon and the value of a member of the current object, whose content is e.
    method ReadMember(name: Bytes, start: nat, ghost e: G.Entries) returns (ok: bool, ghost e1: G.Entries)
      requires nodes != [] && current <= |document| && G.Paired(e)
      requires Top() == G.Node(Obj(e.members), G.Spans(start, 0, e.kids))
      modifies this`current, this`nodes, this`errors
      ensures G.Paired(e1) && old(current) <= current <= |document| && (ok ==> old(current) < current)
      ensures nodes == old(nodes)[..|old(nodes)| - 1] + [G.Node(Obj(e1.members), G.Spans(start, 0, e1.kids))]
      ensures var g := G.ReadMember(features, scan, document, old(current), name, e);
        if ok then g == G.AfterMember(features, scan, document, current, name, e1) && errors == old(errors)
        else g.entries == e1 && g.pos == current && g.end.Some? && errors == old(errors) + [g.end.value]
      decreases |document| - current, 4
    {
      hide L.TokenAt, L.ReadToken, L.Recover, G.CString, G.Store, G.Lookup, G.ReadValue, G.AfterMember;
      e1 := e;
      var colon := ReadToken();
      if colon.kind != L.MemberSeparator {
        ok := AddErrorAndRecover(G.MissingColon, colon, L.ObjectEnd);
        return;
      }
      var key := G.CString(name);
      var member := GetMember(key);
      Push(member);
      ok := ReadValue();
      var v := Pop();
      SetMember(key, v);
      e1 := G.Store(e, key, v);
      if !ok {
        ok := RecoverFromError(L.ObjectEnd);
      }
    }

    // The comma behind a member, or the brace after which there are no more.
    method ReadSeparator(name: Bytes, ghost e: G.Entries) returns (ok: bool, more: bool)
      requires current <= |document| && G.Paired(e)
      modifies this`current, this`errors
      ensures old(current) <= current <= |document|
      ensures var g := G.AfterMember(features, scan, document, old(current), name, e);
        if more then ok && g == G.ReadMembers(features, scan, document, current, name, e) && errors == old(errors)
        else
          g.entries == e && g.pos == current && ok == g.end.None?
            && errors == old(errors) + if ok then [] else [g.end.value]
    {
      hide L.TokenAt, L.ReadToken, L.NextToken, L.Recover, G.ReadMembers;
      more := false;
      var comma := ReadToken();
      if comma.kind != L.ObjectEnd && comma.kind != L.ArraySeparator && comma.kind != L.CommentToken {
        ok := AddErrorAndRecover(G.MissingCommaOrBrace, comma, L.ObjectEnd);
        return;
      }
      comma := PastComments(comma);
      ok, more := true, comma.kind != L.ObjectEnd;
    }

    // One turn of the loop over the members: the end of the object, an error, or one more member.
    method ReadEntry(name0: Bytes, start: nat, ghost e: G.Entries)
      returns (ok: bool, more: bool, name: Bytes, ghost e1: G.Entries)
      requires nodes != [] && current <= |document| && G.Paired(e)
      requires Top() == G.Node(Obj(e.members), G.Spans(start, 0, e.kids))
      modifies this`current, this`nodes, this`errors
      ensures G.Paired(e1) && old(current) <= current <= |document| && (more ==> ok && old(current) < current)
      ensures nodes == old(nodes)[..|old(nodes)| - 1] + [G.Node(Obj(e1.members), G.Spans(start, 0, e1.kids))]
      ensures var g := G.ReadMembers(features, scan, document, old(current), name0, e);
        if more then g == G.ReadMembers(features, scan, document, current, name, e1) && errors == old(errors)
        else
          && g.entries == e1 && g.pos == current && ok == g.end.None?
          && errors == old(errors) + if ok then [] else [g.end.value]
      decreases |document| - current, 5
    {
      hide L.NextToken, L.Recover, S.Decode, G.ReadMember, G.AfterMember;
      e1, name, more := e, name0, false;
      var tokenName := ReadPastComments();
      if tokenName.kind == L.ObjectEnd && name == [] {
        ok := true;
        return;
      }
      if tokenName.kind != L.StringToken {
        ok := AddErrorAndRecover(G.MissingNameOrBrace, tokenName, L.ObjectEnd);
        return;
      }
      ok, name := DecodeText(tokenName);
      if !ok {
        ok := RecoverFromError(L.ObjectEnd);
        return;
      }
      ok, e1 := ReadMember(name, start, e);
      if ok {
        ok, more := ReadSeparator(name, e1);
      }
    }

    method ReadObject(tokenStart: Token) returns (ok: bool)
      requires nodes != [] && tokenStart.end == current <= |document|
      modifies this`current, this`nodes, this`errors
      ensures var g := G.ReadMembers(features, scan, document, old(current), [], G.Entries([], []));
        && ok == g.end.None? && current == g.pos
        && nodes == old(nodes)[..|old(nodes)| - 1] +
             [G.Node(Obj(g.entries.members), G.Spans(tokenStart.start, 0, g.entries.kids))]
        && errors == old(errors) + if ok then [] else [g.end.value]
      decreases |document| - current, 6
    {
      hide G.ReadMembers;
      ghost var g := G.ReadMembers(features, scan, document, current, [], G.Entries([], []));
      ghost var below := nodes[..|nodes| - 1];
      ghost var e := G.Entries([], []);
      var name: Bytes := [];
      SetCurrent(G.Node(Obj([]), G.Spans(tokenStart.start, 0, [])));
      ok := true;
      var more := true;
      while more
        invariant old(current) <= current <= |document| && G.Paired(e)
        invariant nodes == below + [G.Node(Obj(e.members), G.Spans(tokenStart.start, 0, e.kids))]
        invariant if more then g == G.ReadMembers(features, scan, document, current, name, e) && errors == old(errors)
          else
            && g.entries == e && g.pos == current && ok == g.end.None?
            && errors == old(errors) + if ok then [] else [g.end.value]
        decreases more, |document| - current
      {
        ok, more, name, e := ReadEntry(name, tokenStart.start, e);
      }
    }

    // A value of one token, or none at all.
    method ReadScalar(token: Token, ghost p: nat) returns (ok: bool)
      requires nodes != [] && p <= |document| && token == L.ValueToken(features.allowComments, document, p)
      requires current == token.end && token.kind != L.ObjectBegin && token.kind != L.ArrayBegin
      modifies this`current, this`nodes, this`errors
      ensures var r := G.ReadValue(features, scan, document, p, old(Top()));
        && ok == r.Good? && current == r.pos
        && nodes == old(nodes)[..|old(nodes)| - 1] + [r.node]
        && errors == old(errors) + if ok then [] else [r.error]
    {
      hide L.ValueToken, G.CString, S.Decode, G.NumberValue, G.ReadArray, G.ReadMembers;
      var span := G.Spans(token.start, token.end, []);
      if token.kind == L.NumberToken {
        var decoded;
        ok, decoded := DecodeNumber(token);
        if ok { SetCurrent(G.Node(decoded, span)); }
      } else if token.kind == L.StringToken {
        var decoded;
        ok, decoded := DecodeText(token);
        if ok { SetCurrent(G.Node(Text(G.CString(decoded)), span)); }
      } else if token.kind == L.TrueToken {
        ok := true;
        SetCurrent(G.Node(Bool(true), span));
      } else if token.kind == L.FalseToken {
        ok := true;
        SetCurrent(G.Node(Bool(false), span));
      } else if token.kind == L.NullToken {
        ok := true;
        SetCurrent(G.Node(Null, span));
      } else {
        var n := nodes[|nodes| - 1];
        SetCurrent(G.Node(n.value, G.Spans(token.start, token.end, n.spans.kids)));
        ok := AddError(G.ValueExpected, token);
      }
    }

    method ReadValue() returns (ok: bool)
      requires nodes != [] && current <= |document|
      modifies this`current, this`nodes, this`errors
      ensures var r := G.ReadValue(features, scan, document, old(current), old(Top()));
        && ok == r.Good? && current == r.pos
        && nodes == old(nodes)[..|old(nodes)| - 1] + [r.node]
        && errors == old(errors) + if ok then [] else [r.error]
      decreases |document| - current, 3
    {
      hide L.ValueToken, G.CString, S.Decode, G.NumberValue, G.ReadArray, G.ReadMembers;
      ghost var p := current;
      var token := SkipCommentTokens();
      match token.kind {
        case ObjectBegin =>
          ok := ReadObject(token);
          SetOffsetLimit(current);
        case ArrayBegin =>
          ok := ReadArray(token);
          SetOffsetLimit(current);
        case _ =>
          ok := ReadScalar(token, p);
      }
    }

    // Reads one value into root and checks nothing behind it but comments.
    method Parse(doc: Bytes, root0: G.Node) returns (successful: bool, root: G.Node)
      modifies this`document, this`current, this`nodes, this`errors
      ensures G.Parsed(successful, root, errors) == G.Parse(features, scan, doc, root0)
      ensures nodes == [root] && document == doc
    {
      hide G.ReadValue;
      document, current, errors := doc, 0, [];
      nodes := [root0];
      successful := ReadValue();
      root := nodes[|nodes| - 1];
      var token := SkipCommentTokens();
      if features.strictRoot {
        if !root.value.Arr? && !root.value.Obj? {
          successful := AddError(G.RootNotContainer, L.Token(L.ErrorToken, 0, |doc|));
        }
      }
    }
  }
}
