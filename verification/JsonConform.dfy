/** The reader against RFC 8259: which texts it accepts, and what it makes of them. */
module JsonConform {
  import opened Common
  import opened JsonValue
  import opened JsonLexer
  import opened JsonGrammar
  import opened JsonTokens
  import opened JsonSyntax
  import opened JsonLiterals
  import opened JsonReading
  import opened JsonShape
  import opened JsonComplete
  import opened JsonSound
  import opened JsonTidy

  // --- Values anywhere in a document ---

  // From p to q stand tokens that denote v.
  ghost predicate Stands(d: Dialect, doc: Bytes, p: nat, q: nat, v: Json)
    requires p <= |doc|
  {
    exists toks :: Reads(doc, p, toks, q) && Denotes(d, toks, v)
  }

  // The reader succeeds on exactly the texts that denote a value in the loose dialect, and on texts with a
  // comment, a brace behind a comma or a literal outside the grammar.
  lemma ReaderConforms(f: Features, d: Dialect, doc: Bytes, p: nat, init: Node, v: Json, q: nat)
    requires d.Loose? && p <= |doc|
    ensures var r := ReadValue(f, d.scan, doc, p, init);
      Stands(d, doc, p, q, v) <==> r.Good? && r.node.value == v && r.pos == q && Plain(doc, p, q)
  {
    hide ReadValue, Reads, Denotes, Plain, IsValue;
    if Stands(d, doc, p, q, v) {
      var toks :| Reads(doc, p, toks, q) && Denotes(d, toks, v);
      ReadsValue(f, d, doc, p, toks, v, q, init);
      ValueHasForm(d, toks, v);
      ValueIsTidy(toks);
      TidyIsPlain(doc, p, toks, q);
    }
    var r := ReadValue(f, d.scan, doc, p, init);
    if r.Good? && r.node.value == v && r.pos == q && Plain(doc, p, q) {
      var toks := ValueRead(f, d, doc, p, init);
    }
  }

  // --- Documents ---

  // Single tokens, with literals of the grammar, no closing brace behind a comma, and brackets that close at
  // the end and not before.
  ghost predicate Regular(toks: seq<Bytes>) { Orderly(toks) && Closed(toks) }

  // A JSON text consists of the tokens of the document, which are regular.
  lemma JsonTexts(doc: Bytes, toks: seq<Bytes>) returns (q: nat)
    requires Interleaved(toks, doc) && IsValue(toks)
    ensures toks == Texts(doc, 0) && Regular(toks)
    ensures Reads(doc, 0, toks, q) && q <= |doc| && SkipSpaces(doc, q) == |doc|
  {
    hide Reads, Texts, Interleaved, SkipSpaces, IsValue, Orderly, Closed;
    ValueIsTidy(toks);
    TidyTexts(toks);
    assert doc[0..] == doc;
    q := InterleavedReads(toks, doc, 0);
    ReadsTexts(doc, 0, toks, q);
    NoTexts(doc, q);
    assert toks + [] == toks;
  }

  // Where reading a value of a regular document ends, the document ends.
  lemma NothingBehind(doc: Bytes, toks: seq<Bytes>, q: nat)
    requires Reads(doc, 0, toks, q) && IsValue(toks) && Regular(Texts(doc, 0))
    ensures q <= |doc| && SkipSpaces(doc, q) == |doc| && Interleaved(toks, doc) && toks == Texts(doc, 0)
  {
    hide Reads, Texts, Interleaved, SkipSpaces, IsValue, Orderly, Closed;
    ReadsTexts(doc, 0, toks, q);
    ValueIsTidy(toks);
    ClosedEnds(toks, Texts(doc, q));
    NoTexts(doc, q);
    ReadsInterleaved(doc, 0, toks, q);
    assert doc[0..] == doc && toks + [] == toks;
  }

  lemma RegularIsPlain(doc: Bytes, q: nat)
    requires Regular(Texts(doc, 0)) && q <= |doc|
    ensures Plain(doc, 0, q)
  {
    hide Orderly, Texts;
    OrderlyIsPlain(doc, 0, q);
  }

  // A text with regular tokens parses to v exactly when it is a JSON text for v in the loose dialect.
  lemma DocumentConforms(f: Features, d: Dialect, doc: Bytes, init: Node, v: Json)
    requires d.Loose?
    ensures var r := Parse(f, d.scan, doc, init);
      IsDocument(d, doc, v) && (f.strictRoot ==> v.Arr? || v.Obj?) <==>
      r.successful && r.root.value == v && Regular(Texts(doc, 0))
  {
    hide ReadValue, Reads, Denotes, Plain, Interleaved, SkipSpaces, Regular, Texts, IsValue;
    if IsDocument(d, doc, v) {
      var toks :| Interleaved(toks, doc) && Denotes(d, toks, v);
      ValueHasForm(d, toks, v);
      var q := JsonTexts(doc, toks);
      ReaderConforms(f, d, doc, 0, init, v, q);
    }
    var r := ReadValue(f, d.scan, doc, 0, init);
    if r.Good? && r.node.value == v && Regular(Texts(doc, 0)) {
      RegularIsPlain(doc, r.pos);
      var toks := ValueRead(f, d, doc, 0, init);
      ValueHasForm(d, toks, v);
      NothingBehind(doc, toks, r.pos);
    }
  }

  // --- Acceptance ---

  lemma LiteralIsScalar(d: Dialect, text: Bytes, v: Json)
    requires ScalarMeans(d, text, v)
    ensures !v.Arr? && !v.Obj?
  {
    hide IsNumber, IsInteger, StringMeans;
  }

  lemma RootOf(d: Dialect, toks: seq<Bytes>, v: Json)
    requires Denotes(d, toks, v)
    ensures |toks| > 1 <==> v.Arr? || v.Obj?
  {
    hide ItemsDenote, MembersDenote, StringMeans, NumberMeans;
    if |toks| == 1 { LiteralIsScalar(d, toks[0], v); }
  }

  // Every JSON text is read, unless a number cannot be scanned or the surrogates of a string are not coupled.
  lemma Accepted(f: Features, d: Dialect, doc: Bytes, init: Node)
    requires d.Loose?
    ensures var r, toks := Parse(f, d.scan, doc, init), Texts(doc, 0);
      IsJson(doc) && AllReadable(d, toks) && (f.strictRoot ==> |toks| > 1) <==> r.successful && Regular(toks)
  {
    hide Parse, Denotes, Interleaved, Regular, Texts, IsValue, Readable, Reads, SkipSpaces;
    var r, toks := Parse(f, d.scan, doc, init), Texts(doc, 0);
    if IsJson(doc) && AllReadable(d, toks) && (f.strictRoot ==> |toks| > 1) {
      var form :| Interleaved(form, doc) && IsValue(form);
      var q := JsonTexts(doc, form);
      var v := FormDenotes(d, form);
      RootOf(d, form, v);
      DocumentConforms(f, d, doc, init, v);
    }
    if r.successful && Regular(toks) {
      var v := r.root.value;
      DocumentConforms(f, d, doc, init, v);
      var form :| Interleaved(form, doc) && Denotes(d, form, v);
      ValueHasForm(d, form, v);
      RootOf(d, form, v);
      var q := JsonTexts(doc, form);
    }
  }

  // A JSON text is rejected exactly when one of its literals cannot be read, or the features want a
  // container and it has none.
  lemma Rejected(f: Features, d: Dialect, doc: Bytes, init: Node)
    requires d.Loose? && IsJson(doc)
    ensures !Parse(f, d.scan, doc, init).successful <==>
      (exists t | t in Texts(doc, 0) :: !Readable(d, t)) || (f.strictRoot && |Texts(doc, 0)| == 1)
  {
    hide Parse, Interleaved, Orderly, Depth, Texts, IsValue, Readable, Reads, SkipSpaces;
    Accepted(f, d, doc, init);
    var toks :| Interleaved(toks, doc) && IsValue(toks);
    var q := JsonTexts(doc, toks);
  }

  // --- What the RFC says a text denotes ---

  ghost predicate NoNuls(toks: seq<Bytes>) { forall t | t in toks :: NoNul(t) }

  ghost predicate AllPaired(toks: seq<Bytes>) { forall t | t in toks :: IsPaired(t) }

  // A string without NUL denotes the same in both dialects, if its surrogates are paired.
  lemma StringsAgree(scan: Scanner, text: Bytes, s: Bytes)
    requires NoNul(text)
    ensures StringMeans(Rfc(scan), text, s) <==> StringMeans(Loose(scan), text, s) && IsPaired(text)
  {
    hide Meaning, Coupled, IsChars, WellEscaped, CString, NulFree;
    if IsQuoted(text) {
      var end := |text| - 1;
      MeaningExists(true, text, 1, end);
      MeaningExists(false, text, 1, end);
      if Meaning(true, text, 1, end).Some? {
        StrictIsLoose(text, 1, end);
        CStringOfNulFree(Meaning(true, text, 1, end).value);
      }
    }
  }

  lemma ReadableIsPaired(d: Dialect, toks: seq<Bytes>)
    requires d.Rfc? && AllReadable(d, toks)
    ensures AllPaired(toks)
  {
    hide Coupled;
  }

  // Without escaped NULs, a regular text whose surrogates are paired parses to v exactly when it is a JSON
  // text for v.
  lemma RfcConforms(f: Features, scan: Scanner, doc: Bytes, init: Node, v: Json)
    requires NoNuls(Texts(doc, 0))
    ensures var r, toks := Parse(f, scan, doc, init), Texts(doc, 0);
      IsDocument(Rfc(scan), doc, v) && (f.strictRoot ==> v.Arr? || v.Obj?) <==>
      r.successful && r.root.value == v && Regular(toks) && AllPaired(toks)
  {
    hide Parse, Denotes, Interleaved, Regular, Texts, IsValue, Reads, SkipSpaces, StringMeans, NoNul, IsPaired;
    var rfc, loose, all := Rfc(scan), Loose(scan), Texts(doc, 0);
    forall t, s: Bytes | t in all ensures StringMeans(rfc, t, s) <==> StringMeans(loose, t, s) && IsPaired(t) {
      StringsAgree(scan, t, s);
    }
    DocumentConforms(f, loose, doc, init, v);
    if IsDocument(rfc, doc, v) {
      var toks :| Interleaved(toks, doc) && Denotes(rfc, toks, v);
      ValueHasForm(rfc, toks, v);
      ReadableIsPaired(rfc, toks);
      var q := JsonTexts(doc, toks);
      ValueCarries(rfc, loose, toks, v);
    }
    if IsDocument(loose, doc, v) && AllPaired(all) {
      var toks :| Interleaved(toks, doc) && Denotes(loose, toks, v);
      ValueHasForm(loose, toks, v);
      var q := JsonTexts(doc, toks);
      ValueCarries(loose, rfc, toks, v);
    }
  }
}
