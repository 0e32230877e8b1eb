/** The text of the styled writer as a function of the value: what stands on a line of its own, and behind
    how many blanks. */
module JsonLayout {
  import opened Common
  import opened JsonText
  import opened JsonValue
  import opened JsonNumber
  import opened JsonString
  import opened JsonRender
  import opened JsonPrint

  const RIGHT_MARGIN: nat := 74
  const INDENT_SIZE: nat := 3
  const INDENT: Bytes := [SPACE, SPACE, SPACE]

  // Prints as one piece, without indentation.
  predicate IsFlat(v: Json) { !(v.Arr? && v.items != []) && !(v.Obj? && v.members != []) }

  // --- One line ---

  ghost function Lengths(q: seq<Json>): nat {
    if q == [] then 0 else Lengths(q[..|q| - 1]) + |Compact(q[|q| - 1])|
  }

  // The elements with a comma and a blank between any two.
  ghost function Joined(q: seq<Json>): nat {
    if q == [] then 0 else Lengths(q) + 2 * (|q| - 1)
  }

  // The array on one line, its brackets set off by blanks.
  ghost function LineLength(q: seq<Json>): nat { 4 + Joined(q) }

  lemma LengthsStep(q: seq<Json>, i: nat)
    requires i < |q|
    ensures Lengths(q[..i + 1]) == Lengths(q[..i]) + |Compact(q[i])|
  {
    assert q[..i + 1][..i] == q[..i];
  }

  lemma LineLengthIs(q: seq<Json>)
    requires q != []
    ensures LineLength(q) == 4 + (|q| - 1) * 2 + Lengths(q)
  {
  }

  function LineItems(q: seq<Json>): Bytes {
    if q == [] then []
    else LineItems(q[..|q| - 1]) + (if |q| > 1 then [COMMA, SPACE] else []) + Compact(q[|q| - 1])
  }

  function OneLine(items: seq<Json>): Bytes { [OPEN_ARRAY, SPACE] + LineItems(items) + [SPACE, CLOSE_ARRAY] }

  // --- Lines ---

  // Three blanks for each of n containers.
  function Blanks(n: nat): Bytes { if n == 0 then [] else Blanks(n - 1) + INDENT }

  function Break(n: nat): Bytes { [NEWLINE] + Blanks(n) }

  // Too many elements, an element with elements of its own, or too long a line.
  ghost predicate IsMultiline(items: seq<Json>) {
    |items| * 3 >= RIGHT_MARGIN || (exists x | x in items :: !IsFlat(x)) || |OneLine(items)| >= RIGHT_MARGIN
  }

  function Separator(i: nat): Bytes { if i > 0 then [COMMA] else [] }

  // The text of v with n containers around it.
  ghost function Layout(v: Json, n: nat): Bytes
    decreases v
  {
    if v.Obj? && v.members != [] then [OPEN_OBJECT] + MemberLines(v.members, n + 1) + Break(n) + [CLOSE_OBJECT]
    else if v.Arr? && v.items != [] then
      if IsMultiline(v.items) then [OPEN_ARRAY] + ItemLines(v.items, n + 1) + Break(n) + [CLOSE_ARRAY]
      else OneLine(v.items)
    else Compact(v)
  }

  ghost function ItemLines(q: seq<Json>, n: nat): Bytes
    decreases q
  {
    if q == [] then []
    else
      var i := |q| - 1;
      ItemLines(q[..i], n) + Separator(i) + Break(n) + Layout(q[i], n)
  }

  ghost function MemberLines(q: seq<Member>, n: nat): Bytes
    decreases q
  {
    if q == [] then []
    else
      var i := |q| - 1;
      MemberLines(q[..i], n) + Separator(i) + Break(n) + Quote(q[i].name) + [SPACE, COLON, SPACE] +
      Layout(q[i].value, n)
  }

  lemma LineItemsStep(q: seq<Json>, i: nat)
    requires i < |q|
    ensures LineItems(q[..i + 1]) == LineItems(q[..i]) + (if i > 0 then [COMMA, SPACE] else []) + Compact(q[i])
  {
    assert q[..i + 1][..i] == q[..i];
  }

  lemma ItemLinesStep(q: seq<Json>, i: nat, n: nat)
    requires i < |q|
    ensures ItemLines(q[..i + 1], n) == ItemLines(q[..i], n) + Separator(i) + Break(n) + Layout(q[i], n)
  {
    assert q[..i + 1][..i] == q[..i];
  }

  lemma MemberLinesStep(q: seq<Member>, i: nat, n: nat)
    requires i < |q|
    ensures MemberLines(q[..i + 1], n) == MemberLines(q[..i], n) + Separator(i) + Break(n) + Quote(q[i].name) +
      [SPACE, COLON, SPACE] + Layout(q[i].value, n)
  {
    assert q[..i + 1][..i] == q[..i];
  }

  lemma {:induction false} BlanksAreSpace(n: nat)
    ensures AllSpace(Blanks(n)) && |Blanks(n)| == 3 * n && forall i | 0 <= i < |Blanks(n)| :: Blanks(n)[i] == SPACE
  {
    if n > 0 { BlanksAreSpace(n - 1); }
  }

  // --- Where texts end and whether they break ---

  // No real is printed with a blank or a line feed in it, or as nothing.
  ghost predicate RealsSolid(v: Json) {
    match v
    case Real(x) => FORMAT_REAL(x) != [] && SPACE !in FORMAT_REAL(x) && NEWLINE !in FORMAT_REAL(x)
    case Arr(items) => forall x | x in items :: RealsSolid(x)
    case Obj(members) => forall x | x in members :: RealsSolid(x.value)
    case _ => true
  }

  // The last byte is neither a blank nor a line feed.
  predicate EndsSolid(s: Bytes) { s != [] && s[|s| - 1] != SPACE && s[|s| - 1] != NEWLINE }

  lemma {:induction false} DigitsSolid(n: nat)
    ensures AllDigits(Digits(n)) && EndsSolid(Digits(n)) && NEWLINE !in Digits(n)
  {
    DigitsDenote(n);
    var s := Digits(n);
    assert IsDigit(s[|s| - 1]);
    forall i | 0 <= i < |s| ensures s[i] != NEWLINE { assert IsDigit(s[i]); }
  }

  lemma {:induction false} EscapedHasNoBreak(s: Bytes)
    ensures NEWLINE !in EscapeAll(s)
  {
    if s != [] {
      EscapedHasNoBreak(s[1..]);
      assert NEWLINE !in Escape(s[0]);
    }
  }

  lemma FlatText(v: Json)
    requires IsFlat(v) && RealsSolid(v)
    ensures EndsSolid(Compact(v)) && NEWLINE !in Compact(v)
  {
    if v.Arr? || v.Obj? {
      CompactEmpty();
    } else {
      FlatOne(Tokens(v)[0]);
      match v
      case Int(i) => DigitsSolid(if i < 0 then -i else i);
      case UInt(u) => DigitsSolid(if u < 0 then -u else u);
      case Text(s) => EscapedHasNoBreak(s);
      case _ =>
    }
  }

  lemma {:induction false} LineItemsLength(q: seq<Json>)
    ensures |LineItems(q)| == Joined(q)
  {
    if q != [] { LineItemsLength(q[..|q| - 1]); }
  }

  lemma OneLineLength(items: seq<Json>)
    ensures |OneLine(items)| == LineLength(items)
  {
    LineItemsLength(items);
  }

  lemma {:induction false} LineItemsHaveNoBreak(q: seq<Json>)
    requires forall x | x in q :: IsFlat(x) && RealsSolid(x)
    ensures NEWLINE !in LineItems(q)
  {
    if q != [] {
      LineItemsHaveNoBreak(q[..|q| - 1]);
      FlatText(q[|q| - 1]);
    }
  }

  // An array that is not broken up has no line feed in it.
  lemma OneLineHasNoBreak(items: seq<Json>, n: nat)
    requires items != [] && !IsMultiline(items) && RealsSolid(Arr(items))
    ensures Layout(Arr(items), n) == OneLine(items) && NEWLINE !in OneLine(items)
  {
    LineItemsHaveNoBreak(items);
  }

  lemma LayoutEnds(v: Json, n: nat)
    requires RealsSolid(v)
    ensures EndsSolid(Layout(v, n))
  {
    if IsFlat(v) { FlatText(v); }
  }

  // --- What begins a line ---

  function Count(v: Json): nat {
    match v
    case Arr(items) => |items|
    case Obj(members) => |members|
    case _ => 0
  }

  function Child(v: Json, i: nat): Json
    requires i < Count(v)
  {
    if v.Arr? then v.items[i] else v.members[i].value
  }

  // What stands before a child on its line.
  function Label(v: Json, i: nat): Bytes
    requires i < Count(v)
  {
    if v.Arr? then [] else Quote(v.members[i].name) + [SPACE, COLON, SPACE]
  }

  // A container whose children have lines of their own.
  ghost predicate IsBroken(v: Json) {
    (v.Arr? && v.items != [] && IsMultiline(v.items)) || (v.Obj? && v.members != [])
  }

  // A child begins a line, behind three blanks for every container around it; behind it is a comma or the
  // line of the closing bracket.
  ghost predicate HasLine(v: Json, n: nat, i: nat, before: Bytes, after: Bytes)
    requires i < Count(v)
  {
    && Layout(v, n) == before + Break(n + 1) + Label(v, i) + Layout(Child(v, i), n + 1) + after
    && after != [] && (after[0] == COMMA || after[0] == NEWLINE)
  }

  lemma Later(x: Bytes, rest: Bytes, line: Bytes)
    requires rest == [] || rest[0] == COMMA
    ensures x + rest + ([COMMA] + line) == x + (rest + ([COMMA] + line)) && (rest + ([COMMA] + line))[0] == COMMA
  {
  }

  lemma Grouped4(a: Bytes, b: Bytes, c: Bytes, d: Bytes)
    ensures a + b + c + d == a + (b + (c + d))
  {
  }

  lemma Grouped6(a: Bytes, b: Bytes, c: Bytes, d: Bytes, e: Bytes, f: Bytes)
    ensures a + b + c + d + e + f == a + (b + (c + d + e + f))
  {
  }

  // What is written of the elements from i on.
  lemma {:induction false} ItemRest(q: seq<Json>, i: nat, n: nat) returns (rest: Bytes)
    requires 0 < i <= |q|
    ensures ItemLines(q, n) == ItemLines(q[..i], n) + rest && (rest == [] || rest[0] == COMMA)
    decreases |q|
  {
    hide Layout, ItemLines, Break;
    var k := |q| - 1;
    if i == |q| {
      rest := [];
      assert q[..i] == q && ItemLines(q, n) + [] == ItemLines(q, n);
    } else {
      var r := ItemRest(q[..k], i, n);
      assert q[..k][..i] == q[..i] && q[..k + 1] == q;
      ItemLinesStep(q, k, n);
      Grouped4(ItemLines(q[..k], n), [COMMA], Break(n), Layout(q[k], n));
      Later(ItemLines(q[..i], n), r, Break(n) + Layout(q[k], n));
      rest := r + ([COMMA] + (Break(n) + Layout(q[k], n)));
    }
  }

  lemma {:induction false} MemberRest(q: seq<Member>, i: nat, n: nat) returns (rest: Bytes)
    requires 0 < i <= |q|
    ensures MemberLines(q, n) == MemberLines(q[..i], n) + rest && (rest == [] || rest[0] == COMMA)
    decreases |q|
  {
    hide Layout, MemberLines, Break, Quote;
    var k := |q| - 1;
    if i == |q| {
      rest := [];
      assert q[..i] == q && MemberLines(q, n) + [] == MemberLines(q, n);
    } else {
      var r := MemberRest(q[..k], i, n);
      assert q[..k][..i] == q[..i] && q[..k + 1] == q;
      MemberLinesStep(q, k, n);
      var name, colon, value := Quote(q[k].name), [SPACE, COLON, SPACE], Layout(q[k].value, n);
      Grouped6(MemberLines(q[..k], n), [COMMA], Break(n), name, colon, value);
      Later(MemberLines(q[..i], n), r, Break(n) + name + colon + value);
      rest := r + ([COMMA] + (Break(n) + name + colon + value));
    }
  }

  lemma Around(o: Bytes, done: Bytes, sep: Bytes, b: Bytes, lead: Bytes, x: Bytes, rest: Bytes, c: Bytes, close: Bytes)
    ensures o + (done + sep + b + lead + x + rest) + c + close == o + done + sep + b + lead + x + (rest + c + close)
  {
  }

  lemma ArrayLines(items: seq<Json>, n: nat)
    requires IsBroken(Arr(items))
    ensures Layout(Arr(items), n) == [OPEN_ARRAY] + ItemLines(items, n + 1) + Break(n) + [CLOSE_ARRAY]
  {
  }

  lemma ObjectLines(members: seq<Member>, n: nat)
    requires members != []
    ensures Layout(Obj(members), n) == [OPEN_OBJECT] + MemberLines(members, n + 1) + Break(n) + [CLOSE_OBJECT]
  {
  }

  lemma ChildLine(v: Json, n: nat, i: nat) returns (before: Bytes, after: Bytes)
    requires IsBroken(v) && i < Count(v)
    ensures HasLine(v, n, i, before, after)
  {
    hide Quote, Layout, ItemLines, MemberLines, IsMultiline, Blanks, Separator;
    var x, b := Layout(Child(v, i), n + 1), Break(n + 1);
    if v.Arr? {
      ItemLinesStep(v.items, i, n + 1);
      var done := ItemLines(v.items[..i], n + 1);
      var rest := ItemRest(v.items, i + 1, n + 1);
      before, after := [OPEN_ARRAY] + done + Separator(i), rest + Break(n) + [CLOSE_ARRAY];
      ArrayLines(v.items, n);
      assert done + Separator(i) + b + [] == done + Separator(i) + b;
      Around([OPEN_ARRAY], done, Separator(i), b, [], x, rest, Break(n), [CLOSE_ARRAY]);
    } else {
      MemberLinesStep(v.members, i, n + 1);
      var done := MemberLines(v.members[..i], n + 1);
      var rest := MemberRest(v.members, i + 1, n + 1);
      before, after := [OPEN_OBJECT] + done + Separator(i), rest + Break(n) + [CLOSE_OBJECT];
      ObjectLines(v.members, n);
      var name, colon := Quote(v.members[i].name), [SPACE, COLON, SPACE];
      assert done + Separator(i) + b + name + colon == done + Separator(i) + b + (name + colon);
      Around([OPEN_OBJECT], done, Separator(i), b, name + colon, x, rest, Break(n), [CLOSE_OBJECT]);
    }
  }

  // The closing bracket has its own line, as far in as the line its container began on.
  lemma ClosingLine(v: Json, n: nat)
    requires IsBroken(v)
    ensures exists inner: Bytes ::
      Layout(v, n) == inner + Break(n) + [if v.Arr? then CLOSE_ARRAY else CLOSE_OBJECT] && inner != []
      && inner[0] == if v.Arr? then OPEN_ARRAY else OPEN_OBJECT
  {
    hide Layout, ItemLines, MemberLines;
    if v.Arr? {
      ArrayLines(v.items, n);
      var inner := [OPEN_ARRAY] + ItemLines(v.items, n + 1);
      assert Layout(v, n) == inner + Break(n) + [CLOSE_ARRAY];
    } else {
      ObjectLines(v.members, n);
      var inner := [OPEN_OBJECT] + MemberLines(v.members, n + 1);
      assert Layout(v, n) == inner + Break(n) + [CLOSE_OBJECT];
    }
  }

  // w is in v, the path being the places of the containers around it, which are all broken up.
  ghost predicate Reaches(v: Json, path: seq<nat>, w: Json)
    decreases |path|
  {
    if path == [] then v == w
    else IsBroken(v) && path[0] < Count(v) && Reaches(Child(v, path[0]), path[1..], w)
  }

  lemma Nest(p: Bytes, b: Bytes, x: Bytes, l: Bytes, w: Bytes, a: Bytes, q: Bytes)
    ensures p + (b + x + l + w + a) + q == p + b + x + l + w + (a + q)
  {
  }

  // A value with k containers around it begins a line behind 3k blanks, its name apart.
  lemma {:induction false} NestedLine(v: Json, n: nat, path: seq<nat>, w: Json)
    returns (before: Bytes, lead: Bytes, after: Bytes)
    requires Reaches(v, path, w) && path != []
    ensures Layout(v, n) == before + Break(n + |path|) + lead + Layout(w, n + |path|) + after
    ensures lead == [] || exists name :: lead == Quote(name) + [SPACE, COLON, SPACE]
    decreases |path|
  {
    hide Layout, Quote, IsBroken, Break;
    var i, x := path[0], Child(v, path[0]);
    before, after := ChildLine(v, n, i);
    lead := Label(v, i);
    if path[1..] == [] {
      assert Reaches(x, [], w);
    } else {
      var b, l, a := NestedLine(x, n + 1, path[1..], w);
      Nest(before + Break(n + 1) + lead, b, Break(n + |path|), l, Layout(w, n + |path|), a, after);
      before, lead, after := before + Break(n + 1) + lead + b, l, a + after;
    }
  }
}
