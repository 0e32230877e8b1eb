/** What the recorded errors say: each is at a token of the document, not before the text that was being read,
    and the token has the fault the error names. */
module JsonErrors {
  import opened Common
  import opened JsonValue
  import opened JsonString
  import opened JsonLexer
  import opened JsonGrammar

  predicate PointsBehind(e: Error, doc: Bytes, p: nat) { p <= e.token.start <= e.token.end <= |doc| }

  predicate BeginsValue(kind: TokenType) {
    kind in {ObjectBegin, ArrayBegin, NumberToken, StringToken, TrueToken, FalseToken, NullToken}
  }

  // The token is in the document and has the fault of the error's kind.
  predicate IsFault(scan: Scanner, doc: Bytes, e: Error) {
    var t := e.token;
    && t.start <= t.end <= |doc|
    && (e.kind != RootNotContainer ==> TokenAt(doc, t.start) == t)
    && match e.kind
       case ValueExpected => !BeginsValue(t.kind)
       case NotANumberError => t.kind == NumberToken && NumberValue(scan, doc[t.start..t.end]) == None
       case BadStringError => t.kind == StringToken && Decode(doc, t.start + 1, t.end - 1, []).BadEscape?
       case MissingColon => t.kind != MemberSeparator
       case MissingCommaOrBrace => t.kind !in {ObjectEnd, ArraySeparator, CommentToken}
       case MissingNameOrBrace => t.kind !in {StringToken, CommentToken}
       case MissingCommaOrBracket => t.kind !in {ArrayEnd, ArraySeparator, CommentToken}
       case RootNotContainer => t == Token(ErrorToken, 0, |doc|)
  }

  ghost predicate Reported(scan: Scanner, e: Error, doc: Bytes, p: nat) {
    PointsBehind(e, doc, p) && IsFault(scan, doc, e)
  }

  lemma ReadTokenIsAt(doc: Bytes, p: nat)
    requires p <= |doc|
    ensures TokenAt(doc, ReadToken(doc, p).start) == ReadToken(doc, p)
  {
    hide TokenAt;
  }

  lemma {:induction false} NextTokenIsAt(doc: Bytes, p: nat)
    requires p <= |doc|
    ensures TokenAt(doc, NextToken(doc, p).start) == NextToken(doc, p)
    decreases |doc| - p
  {
    hide TokenAt, ReadToken;
    ReadTokenIsAt(doc, p);
    if ReadToken(doc, p).kind == CommentToken { NextTokenIsAt(doc, ReadToken(doc, p).end); }
  }

  // Steps over tokens that are neither wanted nor the end marker.
  ghost predicate Passes(doc: Bytes, p: nat, until: TokenType, q: nat)
    requires p <= |doc|
    decreases |doc| - p
  {
    p == q || (ReadToken(doc, p).kind !in {until, EndOfStream} && Passes(doc, ReadToken(doc, p).end, until, q))
  }

  // Skipping stops behind the first token that is wanted or the end marker.
  lemma {:induction false} RecoverMeans(doc: Bytes, p: nat, until: TokenType) returns (q: nat)
    requires p <= |doc|
    ensures q <= |doc| && Passes(doc, p, until, q)
    ensures ReadToken(doc, q).kind in {until, EndOfStream} && Recover(doc, p, until) == ReadToken(doc, q).end
    decreases |doc| - p
  {
    hide TokenAt;
    var t := ReadToken(doc, p);
    if t.kind == until || t.kind == EndOfStream { q := p; } else { q := RecoverMeans(doc, t.end, until); }
  }

  lemma {:induction false} ValueErrors(f: Features, scan: Scanner, doc: Bytes, p: nat, init: Node)
    requires p <= |doc| && ReadValue(f, scan, doc, p, init).Bad?
    ensures Reported(scan, ReadValue(f, scan, doc, p, init).error, doc, p)
    decreases |doc| - p, 0
  {
    hide TokenAt, ReadToken, NextToken, Decode, NumberValue, ReadMembers, ReadArray;
    var t := ValueToken(f.allowComments, doc, p);
    ReadTokenIsAt(doc, p);
    NextTokenIsAt(doc, p);
    if t.kind == ObjectBegin {
      MembersErrors(f, scan, doc, t.end, [], Entries([], []));
    } else if t.kind == ArrayBegin {
      ArrayErrors(f, scan, doc, t.end);
    }
  }

  lemma {:induction false} ArrayErrors(f: Features, scan: Scanner, doc: Bytes, p: nat)
    requires p <= |doc| && ReadArray(f, scan, doc, p).end.Some?
    ensures Reported(scan, ReadArray(f, scan, doc, p).end.value, doc, p)
    decreases |doc| - p, 2
  {
    hide ReadElements;
    ElementsErrors(f, scan, doc, SkipSpaces(doc, p), [], []);
  }

  lemma {:induction false} ElementsErrors(
      f: Features, scan: Scanner, doc: Bytes, p: nat, items: seq<Json>, kids: seq<Spans>)
    requires p <= |doc| && ReadElements(f, scan, doc, p, items, kids).end.Some?
    ensures Reported(scan, ReadElements(f, scan, doc, p, items, kids).end.value, doc, p)
    decreases |doc| - p, 1
  {
    hide TokenAt, ReadToken, NextToken, Recover, ReadValue;
    var v := ReadValue(f, scan, doc, p, FRESH);
    if v.Bad? {
      ValueErrors(f, scan, doc, p, FRESH);
    } else {
      NextTokenIsAt(doc, v.pos);
    }
    if v.Good? && NextToken(doc, v.pos).kind == ArraySeparator {
      ElementsErrors(f, scan, doc, NextToken(doc, v.pos).end, items + [v.node.value], kids + [v.node.spans]);
    }
  }

  lemma {:induction false} MembersErrors(f: Features, scan: Scanner, doc: Bytes, p: nat, name: Bytes, e: Entries)
    requires p <= |doc| && Paired(e) && ReadMembers(f, scan, doc, p, name, e).end.Some?
    ensures Reported(scan, ReadMembers(f, scan, doc, p, name, e).end.value, doc, p)
    decreases |doc| - p, 1
  {
    hide TokenAt, ReadToken, NextToken, Recover, ReadMember, Decode;
    var t := NextToken(doc, p);
    NextTokenIsAt(doc, p);
    if t.kind == StringToken && Decode(doc, t.start + 1, t.end - 1, []).Chars? {
      MemberErrors(f, scan, doc, t.end, Decode(doc, t.start + 1, t.end - 1, []).s, e);
    }
  }

  lemma {:induction false} MemberErrors(f: Features, scan: Scanner, doc: Bytes, p: nat, name: Bytes, e: Entries)
    requires p <= |doc| && Paired(e) && ReadMember(f, scan, doc, p, name, e).end.Some?
    ensures Reported(scan, ReadMember(f, scan, doc, p, name, e).end.value, doc, p)
    decreases |doc| - p, 1
  {
    hide TokenAt, ReadToken, Recover, ReadValue, AfterMember, CString, Lookup, Store;
    var colon, key := ReadToken(doc, p), CString(name);
    ReadTokenIsAt(doc, p);
    if colon.kind == MemberSeparator {
      var v := ReadValue(f, scan, doc, colon.end, Lookup(e, key));
      if v.Bad? {
        ValueErrors(f, scan, doc, colon.end, Lookup(e, key));
      } else {
        AfterErrors(f, scan, doc, v.pos, name, Store(e, key, v.node));
      }
    }
  }

  lemma {:induction false} AfterErrors(f: Features, scan: Scanner, doc: Bytes, p: nat, name: Bytes, e: Entries)
    requires p <= |doc| && Paired(e) && AfterMember(f, scan, doc, p, name, e).end.Some?
    ensures Reported(scan, AfterMember(f, scan, doc, p, name, e).end.value, doc, p)
    decreases |doc| - p, 1
  {
    hide TokenAt, ReadToken, NextToken, Recover, ReadMembers;
    var first, comma := ReadToken(doc, p), CommaToken(doc, p);
    ReadTokenIsAt(doc, p);
    if (first.kind == ObjectEnd || first.kind == ArraySeparator || first.kind == CommentToken)
      && comma.kind != ObjectEnd {
      MembersErrors(f, scan, doc, comma.end, name, e);
    }
  }

  // Every error of a parse is at a place of the document that has the fault.
  lemma ParseErrors(f: Features, scan: Scanner, doc: Bytes, init: Node, i: nat)
    requires i < |Parse(f, scan, doc, init).errors|
    ensures Reported(scan, Parse(f, scan, doc, init).errors[i], doc, 0)
  {
    hide ReadValue;
    if ReadValue(f, scan, doc, 0, init).Bad? { ValueErrors(f, scan, doc, 0, init); }
  }
}
