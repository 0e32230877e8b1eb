/** Printing: the token texts of a value run together, and how both writers build them up. */
module JsonPrint {
  import opened Common
  import opened JsonText
  import opened JsonValue
  import opened JsonString
  import opened JsonSyntax
  import opened JsonRender
  import opened JsonReadBack

  // The tokens with nothing between them.
  function Flat(toks: seq<Bytes>): Bytes {
    if toks == [] then [] else toks[0] + Flat(toks[1..])
  }

  function Compact(v: Json): Bytes { Flat(Tokens(v)) }

  lemma Associate(a: Bytes, b: Bytes, c: Bytes)
    ensures a + (b + c) == a + b + c
  {
  }

  lemma {:induction false} FlatConcat(a: seq<Bytes>, b: seq<Bytes>)
    ensures Flat(a + b) == Flat(a) + Flat(b)
  {
    if a == [] {
      assert a + b == b;
    } else {
      FlatConcat(a[1..], b);
      assert (a + b)[0] == a[0] && (a + b)[1..] == a[1..] + b;
      Associate(a[0], Flat(a[1..]), Flat(b));
    }
  }

  lemma FlatOne(tok: Bytes)
    ensures Flat([tok]) == tok
  {
    assert [tok][1..] == [] && tok + [] == tok;
  }

  // --- Tokens of the first elements ---

  lemma {:induction false} ItemTokensJoin(a: seq<Json>, b: seq<Json>)
    requires a != [] && b != []
    ensures ItemTokens(a + b) == ItemTokens(a) + [[COMMA]] + ItemTokens(b)
    decreases |a|
  {
    assert (a + b)[0] == a[0] && (a + b)[1..] == a[1..] + b;
    if |a| == 1 {
      assert a[1..] + b == b;
    } else {
      ItemTokensJoin(a[1..], b);
    }
  }

  lemma {:induction false} MemberTokensJoin(a: seq<Member>, b: seq<Member>)
    requires a != [] && b != []
    ensures MemberTokens(a + b) == MemberTokens(a) + [[COMMA]] + MemberTokens(b)
    decreases |a|
  {
    assert (a + b)[0] == a[0] && (a + b)[1..] == a[1..] + b;
    if |a| == 1 {
      assert a[1..] + b == b;
    } else {
      MemberTokensJoin(a[1..], b);
    }
  }

  function Comma(i: nat): seq<Bytes> { if i == 0 then [] else [[COMMA]] }

  lemma ItemTokensStep(q: seq<Json>, i: nat)
    requires i < |q|
    ensures ItemTokens(q[..i + 1]) == ItemTokens(q[..i]) + Comma(i) + Tokens(q[i])
  {
    assert q[..i + 1] == q[..i] + [q[i]];
    if i > 0 { ItemTokensJoin(q[..i], [q[i]]); }
  }

  lemma MemberTokensStep(q: seq<Member>, i: nat)
    requires i < |q|
    ensures MemberTokens(q[..i + 1])
      == MemberTokens(q[..i]) + Comma(i) + [Quote(q[i].name), [COLON]] + Tokens(q[i].value)
  {
    assert q[..i + 1] == q[..i] + [q[i]];
    if i > 0 { MemberTokensJoin(q[..i], [q[i]]); }
  }

  // --- Texts of tokens and white space ---

  lemma {:induction false} FlatInterleaves(toks: seq<Bytes>)
    ensures Interleaved(toks, Flat(toks))
  {
    if toks != [] {
      FlatInterleaves(toks[1..]);
      InterleavedOne(toks[0]);
      InterleavedConcat([toks[0]], toks[0], toks[1..], Flat(toks[1..]));
      assert [toks[0]] + toks[1..] == toks;
    }
  }

  lemma CompactInterleaves(v: Json)
    ensures Interleaved(Tokens(v), Compact(v))
  {
    FlatInterleaves(Tokens(v));
  }

  lemma FlatPair(a: Bytes, b: Bytes)
    ensures Flat([a, b]) == a + b
  {
    FlatOne(b);
    assert [a, b][1..] == [b];
  }

  lemma CompactEmpty()
    ensures Compact(Arr([])) == [OPEN_ARRAY, CLOSE_ARRAY] && Compact(Obj([])) == [OPEN_OBJECT, CLOSE_OBJECT]
  {
    FlatPair([OPEN_ARRAY], [CLOSE_ARRAY]);
    FlatPair([OPEN_OBJECT], [CLOSE_OBJECT]);
    assert Tokens(Arr([])) == [[OPEN_ARRAY], [CLOSE_ARRAY]] && Tokens(Obj([])) == [[OPEN_OBJECT], [CLOSE_OBJECT]];
  }

  lemma AddSpaces(toks: seq<Bytes>, s: Bytes, w: Bytes)
    requires Interleaved(toks, s) && AllSpace(w)
    ensures Interleaved(toks, s + w)
  {
    InterleavedConcat(toks, s, [], w);
    assert toks + [] == toks;
  }

  lemma AddTokens(a: seq<Bytes>, s: Bytes, w: Bytes, b: seq<Bytes>, t: Bytes)
    requires Interleaved(a, s) && AllSpace(w) && Interleaved(b, t)
    ensures Interleaved(a + b, s + w + t)
  {
    AddSpaces(a, s, w);
    InterleavedConcat(a, s + w, b, t);
  }

  lemma CompactReadsBack(v: Json, end: Bytes)
    requires Printable(v) && AllSpace(end)
    ensures ReadsBackAs(Compact(v) + end, v)
  {
    hide Printable, ReadsBackAs, AllSpace, Tokens, Interleaved;
    CompactInterleaves(v);
    AddSpaces(Tokens(v), Compact(v), end);
    PrintedReadsBack(v, Compact(v) + end);
  }
}
