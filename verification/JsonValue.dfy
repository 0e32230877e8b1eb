/** JSON values, with the structural order and equality of Json::Value. An object is the in-order
    content of its std::map: members with strictly increasing names. */
module JsonValue {
  import opened Common

  datatype Json =
    | Null
    | Int(i: int)
    | UInt(u: int)
    | Real(r: real)
    | Text(s: Bytes)
    | Bool(b: bool)
    | Arr(items: seq<Json>)
    | Obj(members: seq<Member>)

  datatype Member = Member(name: Bytes, value: Json)

  // The enumeration order of ValueType.
  function TypeOf(v: Json): nat {
    match v
    case Null => 0
    case Int(_) => 1
    case UInt(_) => 2
    case Real(_) => 3
    case Text(_) => 4
    case Bool(_) => 5
    case Arr(_) => 6
    case Obj(_) => 7
  }

  ghost function Weight(v: Json): (w: nat)
    ensures w >= 1
  {
    match v
    case Arr(items) => 1 + WeightItems(items)
    case Obj(members) => 1 + WeightMembers(members)
    case _ => 1
  }

  ghost function WeightItems(q: seq<Json>): nat {
    if q == [] then 0 else Weight(q[0]) + WeightItems(q[1..])
  }

  ghost function WeightMembers(q: seq<Member>): nat {
    if q == [] then 0 else Weight(q[0].value) + WeightMembers(q[1..])
  }

  // strcmp(a, b) < 0 on strings without NUL
  predicate TextLess(a: Bytes, b: Bytes) {
    if a == [] || b == [] then a == [] && b != []
    else a[0] < b[0] || (a[0] == b[0] && TextLess(a[1..], b[1..]))
  }

  // int(m - n) for two sizes: the difference is truncated to 32 bits and read as signed.
  function SizeDelta(m: nat, n: nat): int {
    var d := (m - n) % 0x1_0000_0000;
    if d >= 0x8000_0000 then d - 0x1_0000_0000 else d
  }

  // Value::operator<
  predicate Less(a: Json, b: Json)
    decreases Weight(a) + Weight(b), 0
  {
    if TypeOf(a) != TypeOf(b) then TypeOf(a) < TypeOf(b) else
    match a
    case Null => false
    case Int(i) => i < b.i
    case UInt(u) => u < b.u
    case Real(r) => r < b.r
    case Bool(x) => !x && b.b
    case Text(s) => TextLess(s, b.s)
    case Arr(items) =>
      var delta := SizeDelta(|items|, |b.items|);
      if delta != 0 then delta < 0 else LessItems(items, b.items)
    case Obj(members) =>
      var delta := SizeDelta(|members|, |b.members|);
      if delta != 0 then delta < 0 else LessMembers(members, b.members)
  }

  // std::map's operator<: lexicographic over the entries, whose keys agree for two arrays.
  predicate LessItems(a: seq<Json>, b: seq<Json>)
    decreases WeightItems(a) + WeightItems(b), 1
  {
    if a == [] || b == [] then a == [] && b != []
    else Less(a[0], b[0]) || (!Less(b[0], a[0]) && LessItems(a[1..], b[1..]))
  }

  predicate MemberLess(m: Member, n: Member)
    decreases Weight(m.value) + Weight(n.value), 1
  {
    TextLess(m.name, n.name) || (!TextLess(n.name, m.name) && Less(m.value, n.value))
  }

  predicate LessMembers(a: seq<Member>, b: seq<Member>)
    decreases WeightMembers(a) + WeightMembers(b), 2
  {
    if a == [] || b == [] then a == [] && b != []
    else MemberLess(a[0], b[0]) || (!MemberLess(b[0], a[0]) && LessMembers(a[1..], b[1..]))
  }

  // Value::operator==
  predicate Same(a: Json, b: Json) {
    TypeOf(a) == TypeOf(b) &&
    match a
    case Null => true
    case Int(i) => i == b.i
    case UInt(u) => u == b.u
    case Real(r) => r == b.r
    case Bool(x) => x == b.b
    case Text(s) => s == b.s
    case Arr(items) => |items| == |b.items| && SameItems(items, b.items)
    case Obj(members) => |members| == |b.members| && SameMembers(members, b.members)
  }

  predicate SameItems(a: seq<Json>, b: seq<Json>)
    requires |a| == |b|
  {
    a == [] || (Same(a[0], b[0]) && SameItems(a[1..], b[1..]))
  }

  predicate SameMembers(a: seq<Member>, b: seq<Member>)
    requires |a| == |b|
  {
    a == [] || (a[0].name == b[0].name && Same(a[0].value, b[0].value) && SameMembers(a[1..], b[1..]))
  }

  // Value::compare
  function Compare(a: Json, b: Json): int {
    if Less(a, b) then -1 else if Less(b, a) then 1 else 0
  }

  // --- Equality is structural ---

  lemma {:induction false} SameIsEqual(a: Json, b: Json)
    ensures Same(a, b) <==> a == b
  {
    match a
    case Arr(items) =>
      if b.Arr? && |items| == |b.items| { SameItemsIsEqual(items, b.items); }
    case Obj(members) =>
      if b.Obj? && |members| == |b.members| { SameMembersIsEqual(members, b.members); }
    case _ =>
  }

  lemma {:induction false} SameItemsIsEqual(a: seq<Json>, b: seq<Json>)
    requires |a| == |b|
    ensures SameItems(a, b) <==> a == b
  {
    if a != [] {
      SameIsEqual(a[0], b[0]);
      SameItemsIsEqual(a[1..], b[1..]);
      assert a == [a[0]] + a[1..] && b == [b[0]] + b[1..];
    }
  }

  lemma {:induction false} SameMembersIsEqual(a: seq<Member>, b: seq<Member>)
    requires |a| == |b|
    ensures SameMembers(a, b) <==> a == b
  {
    if a != [] {
      SameIsEqual(a[0].value, b[0].value);
      SameMembersIsEqual(a[1..], b[1..]);
      assert a == [a[0]] + a[1..] && b == [b[0]] + b[1..];
    }
  }

  // --- The order of names ---

  lemma {:induction false} TextTrichotomy(a: Bytes, b: Bytes)
    ensures !(TextLess(a, b) && TextLess(b, a))
    ensures TextLess(a, b) || TextLess(b, a) || a == b
    ensures !TextLess(a, a)
  {
    if a != [] && b != [] {
      TextTrichotomy(a[1..], b[1..]);
      assert a == [a[0]] + a[1..] && b == [b[0]] + b[1..];
    }
    if a != [] {
      TextTrichotomy(a[1..], a[1..]);
    }
  }

  lemma {:induction false} TextTransitive(a: Bytes, b: Bytes, c: Bytes)
    requires TextLess(a, b) && TextLess(b, c)
    ensures TextLess(a, c)
  {
    if a != [] && a[0] == b[0] == c[0] {
      TextTransitive(a[1..], b[1..], c[1..]);
    }
  }

  // --- The order of values ---

  // No container in v has more than n entries.
  ghost predicate Within(n: nat, v: Json) {
    match v
    case Arr(items) => |items| <= n && forall x | x in items :: Within(n, x)
    case Obj(members) => |members| <= n && forall x | x in members :: Within(n, x.value)
    case _ => true
  }

  // The most entries of which any two counts differ by what fits an int.
  const MAX_SIZE: nat := 0x7FFF_FFFF

  ghost predicate Sized(v: Json) { Within(MAX_SIZE, v) }

  lemma SizeDeltaIsExact(m: nat, n: nat)
    requires m < 0x8000_0000 && n < 0x8000_0000
    ensures SizeDelta(m, n) == m - n
  {
  }

  // Exactly one of a < b, b < a and a == b holds.
  lemma {:induction false} Trichotomy(a: Json, b: Json)
    requires Sized(a) && Sized(b)
    ensures !(Less(a, b) && Less(b, a))
    ensures a == b <==> !Less(a, b) && !Less(b, a)
    decreases Weight(a) + Weight(b), 0
  {
    if TypeOf(a) == TypeOf(b) {
      match a
      case Text(s) =>
        TextTrichotomy(s, b.s);
      case Arr(items) =>
        SizeDeltaIsExact(|items|, |b.items|);
        SizeDeltaIsExact(|b.items|, |items|);
        if |items| == |b.items| { TrichotomyItems(items, b.items); }
      case Obj(members) =>
        SizeDeltaIsExact(|members|, |b.members|);
        SizeDeltaIsExact(|b.members|, |members|);
        if |members| == |b.members| { TrichotomyMembers(members, b.members); }
      case _ =>
    }
  }

  lemma {:induction false} TrichotomyItems(a: seq<Json>, b: seq<Json>)
    requires |a| == |b| && (forall x | x in a :: Sized(x)) && (forall x | x in b :: Sized(x))
    ensures !(LessItems(a, b) && LessItems(b, a))
    ensures a == b <==> !LessItems(a, b) && !LessItems(b, a)
    decreases WeightItems(a) + WeightItems(b), 1
  {
    if a != [] {
      Trichotomy(a[0], b[0]);
      TrichotomyItems(a[1..], b[1..]);
      assert a == [a[0]] + a[1..] && b == [b[0]] + b[1..];
    }
  }

  lemma {:induction false} TrichotomyMembers(a: seq<Member>, b: seq<Member>)
    requires |a| == |b| && (forall x | x in a :: Sized(x.value)) && (forall x | x in b :: Sized(x.value))
    ensures !(LessMembers(a, b) && LessMembers(b, a))
    ensures a == b <==> !LessMembers(a, b) && !LessMembers(b, a)
    decreases WeightMembers(a) + WeightMembers(b), 1
  {
    if a != [] {
      Trichotomy(a[0].value, b[0].value);
      TextTrichotomy(a[0].name, b[0].name);
      TrichotomyMembers(a[1..], b[1..]);
      assert a == [a[0]] + a[1..] && b == [b[0]] + b[1..];
    }
  }

  lemma {:induction false} Transitivity(a: Json, b: Json, c: Json)
    requires Sized(a) && Sized(b) && Sized(c) && Less(a, b) && Less(b, c)
    ensures Less(a, c)
    decreases Weight(a) + Weight(b) + Weight(c), 0
  {
    if TypeOf(a) == TypeOf(b) == TypeOf(c) {
      match a
      case Text(s) =>
        TextTransitive(s, b.s, c.s);
      case Arr(items) =>
        SizeDeltaIsExact(|items|, |b.items|);
        SizeDeltaIsExact(|b.items|, |c.items|);
        SizeDeltaIsExact(|items|, |c.items|);
        if |items| == |b.items| == |c.items| { TransitivityItems(items, b.items, c.items); }
      case Obj(members) =>
        SizeDeltaIsExact(|members|, |b.members|);
        SizeDeltaIsExact(|b.members|, |c.members|);
        SizeDeltaIsExact(|members|, |c.members|);
        if |members| == |b.members| == |c.members| { TransitivityMembers(members, b.members, c.members); }
      case _ =>
    }
  }

  lemma {:induction false} TransitivityItems(a: seq<Json>, b: seq<Json>, c: seq<Json>)
    requires |a| == |b| == |c|
    requires (forall x | x in a :: Sized(x)) && (forall x | x in b :: Sized(x)) && (forall x | x in c :: Sized(x))
    requires LessItems(a, b) && LessItems(b, c)
    ensures LessItems(a, c)
    decreases WeightItems(a) + WeightItems(b) + WeightItems(c), 1
  {
    Trichotomy(a[0], b[0]);
    Trichotomy(b[0], c[0]);
    if Less(a[0], b[0]) && Less(b[0], c[0]) {
      Transitivity(a[0], b[0], c[0]);
    } else if a[0] == b[0] == c[0] {
      TransitivityItems(a[1..], b[1..], c[1..]);
    }
  }

  lemma {:induction false} MemberTransitivity(a: Member, b: Member, c: Member)
    requires Sized(a.value) && Sized(b.value) && Sized(c.value) && MemberLess(a, b) && MemberLess(b, c)
    ensures MemberLess(a, c)
    decreases Weight(a.value) + Weight(b.value) + Weight(c.value), 1
  {
    TextTrichotomy(a.name, b.name);
    TextTrichotomy(b.name, c.name);
    TextTrichotomy(a.name, c.name);
    if a.name == b.name == c.name {
      Transitivity(a.value, b.value, c.value);
    } else if TextLess(a.name, b.name) && TextLess(b.name, c.name) {
      TextTransitive(a.name, b.name, c.name);
    }
  }

  lemma MemberTrichotomy(a: Member, b: Member)
    requires Sized(a.value) && Sized(b.value)
    ensures !(MemberLess(a, b) && MemberLess(b, a))
    ensures a == b <==> !MemberLess(a, b) && !MemberLess(b, a)
  {
    TextTrichotomy(a.name, b.name);
    Trichotomy(a.value, b.value);
  }

  lemma {:induction false} TransitivityMembers(a: seq<Member>, b: seq<Member>, c: seq<Member>)
    requires |a| == |b| == |c|
    requires (forall x | x in a :: Sized(x.value)) && (forall x | x in b :: Sized(x.value))
      && (forall x | x in c :: Sized(x.value))
    requires LessMembers(a, b) && LessMembers(b, c)
    ensures LessMembers(a, c)
    decreases WeightMembers(a) + WeightMembers(b) + WeightMembers(c), 2
  {
    MemberTrichotomy(a[0], b[0]);
    MemberTrichotomy(b[0], c[0]);
    if MemberLess(a[0], b[0]) && MemberLess(b[0], c[0]) {
      MemberTransitivity(a[0], b[0], c[0]);
    } else if a[0] == b[0] == c[0] {
      TransitivityMembers(a[1..], b[1..], c[1..]);
    }
  }

  // compare is zero exactly on equal values, and flips its sign when its arguments are exchanged.
  lemma CompareIsConsistent(a: Json, b: Json)
    requires Sized(a) && Sized(b)
    ensures Compare(a, b) == 0 <==> Same(a, b)
    ensures Compare(a, b) == -Compare(b, a)
  {
    Trichotomy(a, b);
    SameIsEqual(a, b);
  }

  lemma {:induction false} ItemsAsymmetric(a: seq<Json>, b: seq<Json>)
    requires (forall x | x in a :: Sized(x)) && (forall x | x in b :: Sized(x))
    ensures !(LessItems(a, b) && LessItems(b, a))
  {
    if a != [] && b != [] {
      Trichotomy(a[0], b[0]);
      ItemsAsymmetric(a[1..], b[1..]);
    }
  }

  lemma DeltaFlips(m: nat, n: nat)
    ensures SizeDelta(m, n) < 0 && SizeDelta(n, m) < 0 <==> (m - n) % 0x1_0000_0000 == 0x8000_0000
    ensures SizeDelta(m, n) == 0 <==> SizeDelta(n, m) == 0
  {
    var d, e := (m - n) % 0x1_0000_0000, (n - m) % 0x1_0000_0000;
    assert (d + e) % 0x1_0000_0000 == 0;
  }

  // Without a limit on sizes, two arrays are each below the other exactly when the difference of their
  // sizes is 2^31 in 32 bits.
  lemma OrderNeedsSizes(a: seq<Json>, b: seq<Json>)
    requires (forall x | x in a :: Sized(x)) && (forall x | x in b :: Sized(x))
    ensures Less(Arr(a), Arr(b)) && Less(Arr(b), Arr(a)) <==> (|a| - |b|) % 0x1_0000_0000 == 0x8000_0000
  {
    ItemsAsymmetric(a, b);
    DeltaFlips(|a|, |b|);
  }

  lemma {:induction false} WithinGrows(m: nat, n: nat, v: Json)
    requires m <= n && Within(m, v)
    ensures Within(n, v)
    decreases v
  {
    match v
    case Arr(items) => forall x | x in items ensures Within(n, x) { WithinGrows(m, n, x); }
    case Obj(members) => forall x | x in members ensures Within(n, x.value) { WithinGrows(m, n, x.value); }
    case _ =>
  }

  // operator< orders the values whose containers have n entries at most.
  ghost predicate Orders(n: nat) {
    && (forall a | Within(n, a) :: !Less(a, a))
    && (forall a, b | Within(n, a) && Within(n, b) :: Less(a, b) || Less(b, a) || a == b)
    && (forall a, b, c | Within(n, a) && Within(n, b) && Within(n, c) && Less(a, b) && Less(b, c) :: Less(a, c))
  }

  // An empty array and one of 2^31 elements are each below the other.
  lemma SizesWrap()
    ensures var long := Arr(seq(0x8000_0000, i => Null));
      Within(0x8000_0000, long) && Less(Arr([]), long) && Less(long, Arr([]))
  {
    assert SizeDelta(0, 0x8000_0000) == SizeDelta(0x8000_0000, 0) == -0x8000_0000;
  }

  // operator< is a strict total order exactly up to 2^31 - 1 entries a container.
  lemma OrdersUpTo(n: nat)
    ensures Orders(n) <==> n < 0x8000_0000
  {
    hide Less;
    if n < 0x8000_0000 {
      forall a | Within(n, a) ensures !Less(a, a) {
        WithinGrows(n, MAX_SIZE, a);
        Trichotomy(a, a);
      }
      forall a, b | Within(n, a) && Within(n, b) ensures Less(a, b) || Less(b, a) || a == b {
        WithinGrows(n, MAX_SIZE, a);
        WithinGrows(n, MAX_SIZE, b);
        Trichotomy(a, b);
      }
      forall a, b, c | Within(n, a) && Within(n, b) && Within(n, c) && Less(a, b) && Less(b, c) ensures Less(a, c) {
        WithinGrows(n, MAX_SIZE, a);
        WithinGrows(n, MAX_SIZE, b);
        WithinGrows(n, MAX_SIZE, c);
        Transitivity(a, b, c);
      }
    } else {
      SizesWrap();
      var empty, long := Arr([]), Arr(seq(0x8000_0000, i => Null));
      WithinGrows(0x8000_0000, n, long);
      assert Within(n, empty);
      assert Orders(n) ==> Less(empty, empty);
    }
  }
}
