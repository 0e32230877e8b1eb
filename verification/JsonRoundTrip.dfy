/** Writer and reader together: what either writer prints, the reader reads back. */
module JsonRoundTrip {
  import opened Common
  import opened JsonValue
  import opened JsonSyntax
  import opened JsonRender
  import opened JsonPrint
  import opened JsonClean
  import G = JsonGrammar
  import JsonWriter
  import JsonStyled
  import JsonReader

  // Prints a value with one of the writers and parses the text, under any features that admit the root.
  // Reals come back as whatever the scanner makes of their printed text, if that is a number at all.
  method PrintAndParse(v: Json, styled: bool, f: G.Features, scan: G.Scanner, init: G.Node)
    returns (text: Bytes, successful: bool, root: G.Node, errors: seq<G.Error>)
    requires Printable(v)
    ensures Rescans(scan, v) && (f.strictRoot ==> v.Arr? || v.Obj?) ==>
      successful && errors == [] && root.value == Normal(scan, v)
    ensures Interleaved(Tokens(v), text) && (!styled ==> text == Compact(v) + [10])
  {
    if styled {
      var writer := new JsonStyled.StyledWriter();
      text := writer.Write(v);
    } else {
      var writer := new JsonWriter.FastWriter();
      text := writer.Write(v);
      CompactInterleaves(v);
      AddSpaces(Tokens(v), Compact(v), [10]);
    }
    var reader := new JsonReader.Reader(f, scan);
    successful, root := reader.Parse(text, init);
    errors := reader.errors;
    assert G.Parse(f, scan, text, init) == G.Parsed(successful, root, errors);
  }

  lemma ParsedIsPrintable(f: G.Features, scan: G.Scanner, doc: Bytes, init: G.Node)
    requires G.Parse(f, scan, doc, init).successful
    ensures var v := G.Parse(f, scan, doc, init).root.value;
      && Printable(v) && (f.strictRoot ==> v.Arr? || v.Obj?)
      && (RealFree(v) ==> Rescans(scan, v) && Normal(scan, v) == v)
  {
    hide G.ReadValue;
    var v := G.Parse(f, scan, doc, init).root.value;
    ValueIsClean(f, scan, doc, 0, init);
    CleanIsPrintable(v);
    if RealFree(v) { CleanIsNormal(scan, v); }
  }

  // Parses a text, prints what was read and parses that: the same value comes back if it has no reals.
  method ParsePrintParse(doc: Bytes, styled: bool, f: G.Features, scan: G.Scanner, init: G.Node)
    returns (successful: bool, first: Json, again: Json)
    ensures successful == G.Parse(f, scan, doc, init).successful
    ensures first == G.Parse(f, scan, doc, init).root.value
    ensures successful && Rescans(scan, first) ==> again == Normal(scan, first)
    ensures successful && RealFree(first) ==> again == first
  {
    var reader := new JsonReader.Reader(f, scan);
    var root;
    successful, root := reader.Parse(doc, init);
    first, again := root.value, Null;
    if successful {
      ParsedIsPrintable(f, scan, doc, init);
      var text, ok, second, errors := PrintAndParse(first, styled, f, scan, init);
      again := second.value;
    }
  }
}
