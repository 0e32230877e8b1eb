/** What Value::operator< compares, said without it: types by their enumeration, scalars by what they hold,
    strings and containers by their first difference. */
module JsonOrder {
  import opened Common
  import opened JsonValue

  // --- Types ---

  // The enumeration of ValueType, each type before the next.
  lemma TypesInOrder(i: int, u: int, r: real, s: Bytes, b: bool, items: seq<Json>, members: seq<Member>)
    ensures Less(Null, Int(i)) && Less(Int(i), UInt(u)) && Less(UInt(u), Real(r)) && Less(Real(r), Text(s))
    ensures Less(Text(s), Bool(b)) && Less(Bool(b), Arr(items)) && Less(Arr(items), Obj(members))
    ensures TypeOf(Null) < TypeOf(Int(i)) < TypeOf(UInt(u)) < TypeOf(Real(r)) < TypeOf(Text(s)) < TypeOf(Bool(b))
    ensures TypeOf(Bool(b)) < TypeOf(Arr(items)) < TypeOf(Obj(members))
  {
  }

  // --- Text ---

  // The first differing byte is smaller, or there is none and the first text ends.
  ghost predicate TextDiffers(s: Bytes, t: Bytes, k: nat) {
    && k <= |s| && k < |t| && s[..k] == t[..k] && (k == |s| || s[k] < t[k])
  }

  lemma TextShift(s: Bytes, t: Bytes, k: nat)
    requires s != [] && t != [] && s[0] == t[0]
    ensures TextDiffers(s[1..], t[1..], k) <==> TextDiffers(s, t, k + 1)
  {
    if k < |s| && k < |t| {
      assert s[..k + 1] == [s[0]] + s[1..][..k] && t[..k + 1] == [t[0]] + t[1..][..k];
      assert s[..k + 1][1..] == s[1..][..k] && t[..k + 1][1..] == t[1..][..k];
    }
  }

  lemma {:induction false} TextOrder(s: Bytes, t: Bytes)
    ensures TextLess(s, t) <==> exists k :: TextDiffers(s, t, k)
  {
    if s == [] || t == [] || s[0] < t[0] {
      assert TextLess(s, t) ==> TextDiffers(s, t, 0);
    } else {
      TextOrder(s[1..], t[1..]);
      if k: nat :| TextDiffers(s, t, k) {
        assert k > 0 ==> s[..k][0] == t[..k][0];
        if s[0] == t[0] { TextShift(s, t, k - 1); }
      }
      if TextLess(s, t) {
        var k: nat :| TextDiffers(s[1..], t[1..], k);
        TextShift(s, t, k);
      }
    }
  }

  // --- Values ---

  ghost predicate Precedes(a: Json, b: Json)
    decreases a
  {
    if TypeOf(a) != TypeOf(b) then TypeOf(a) < TypeOf(b) else
    match a
    case Null => false
    case Int(i) => i < b.i
    case UInt(u) => u < b.u
    case Real(r) => r < b.r
    case Text(s) => exists k :: TextDiffers(s, b.s, k)
    case Bool(x) => !x && b.b
    case Arr(items) =>
      || |items| < |b.items|
      || (|items| == |b.items| && exists k | 0 <= k < |items| ::
            items[..k] == b.items[..k] && Precedes(items[k], b.items[k]))
    case Obj(members) =>
      || |members| < |b.members|
      || (|members| == |b.members| && exists k | 0 <= k < |members| ::
            members[..k] == b.members[..k] && EntryPrecedes(members[k], b.members[k]))
  }

  // Name before value.
  ghost predicate EntryPrecedes(m: Member, n: Member)
    decreases m
  {
    (exists k :: TextDiffers(m.name, n.name, k)) || (m.name == n.name && Precedes(m.value, n.value))
  }

  // --- operator< is this order ---

  lemma {:induction false} LessMeans(a: Json, b: Json)
    requires Sized(a) && Sized(b)
    ensures Less(a, b) <==> Precedes(a, b)
    decreases a
  {
    if TypeOf(a) == TypeOf(b) {
      match a
      case Text(s) => TextOrder(s, b.s);
      case Arr(items) =>
        SizeDeltaIsExact(|items|, |b.items|);
        if |items| == |b.items| { ItemsMean(items, b.items); }
      case Obj(members) =>
        SizeDeltaIsExact(|members|, |b.members|);
        if |members| == |b.members| { MembersMean(members, b.members); }
      case _ =>
    }
  }

  ghost predicate ItemsDiffer(a: seq<Json>, b: seq<Json>, k: nat) {
    k < |a| && k < |b| && a[..k] == b[..k] && Precedes(a[k], b[k])
  }

  lemma ItemsShift(a: seq<Json>, b: seq<Json>, k: nat)
    requires a != [] && b != [] && a[0] == b[0]
    ensures ItemsDiffer(a[1..], b[1..], k) <==> ItemsDiffer(a, b, k + 1)
  {
    hide Precedes;
    if k + 1 < |a| && k + 1 < |b| {
      assert a[..k + 1] == [a[0]] + a[1..][..k] && b[..k + 1] == [b[0]] + b[1..][..k];
      assert a[..k + 1][1..] == a[1..][..k] && b[..k + 1][1..] == b[1..][..k];
    }
  }

  lemma {:induction false} ItemsMean(a: seq<Json>, b: seq<Json>)
    requires |a| == |b| && (forall x | x in a :: Sized(x)) && (forall x | x in b :: Sized(x))
    ensures LessItems(a, b) <==> exists k | 0 <= k < |a| :: a[..k] == b[..k] && Precedes(a[k], b[k])
    decreases a
  {
    hide Precedes, Less;
    if a != [] {
      LessMeans(a[0], b[0]);
      Trichotomy(a[0], b[0]);
      ItemsMean(a[1..], b[1..]);
      if LessItems(a, b) {
        if Less(a[0], b[0]) {
          assert a[..0] == b[..0];
        } else {
          var k: nat :| k < |a[1..]| && a[1..][..k] == b[1..][..k] && Precedes(a[1..][k], b[1..][k]);
          ItemsShift(a, b, k);
        }
      }
      if k: nat :| k < |a| && a[..k] == b[..k] && Precedes(a[k], b[k]) {
        if k > 0 {
          assert a[..k][0] == b[..k][0];
          ItemsShift(a, b, k - 1);
          assert ItemsDiffer(a[1..], b[1..], k - 1);
        }
      }
    }
  }

  ghost predicate MembersDiffer(a: seq<Member>, b: seq<Member>, k: nat) {
    k < |a| && k < |b| && a[..k] == b[..k] && EntryPrecedes(a[k], b[k])
  }

  lemma MembersShift(a: seq<Member>, b: seq<Member>, k: nat)
    requires a != [] && b != [] && a[0] == b[0]
    ensures MembersDiffer(a[1..], b[1..], k) <==> MembersDiffer(a, b, k + 1)
  {
    hide EntryPrecedes;
    if k + 1 < |a| && k + 1 < |b| {
      assert a[..k + 1] == [a[0]] + a[1..][..k] && b[..k + 1] == [b[0]] + b[1..][..k];
      assert a[..k + 1][1..] == a[1..][..k] && b[..k + 1][1..] == b[1..][..k];
    }
  }

  lemma EntryMeans(m: Member, n: Member)
    requires Sized(m.value) && Sized(n.value)
    ensures MemberLess(m, n) <==> EntryPrecedes(m, n)
    decreases m
  {
    hide Less, Precedes;
    TextOrder(m.name, n.name);
    TextTrichotomy(m.name, n.name);
    LessMeans(m.value, n.value);
  }

  lemma {:induction false} MembersMean(a: seq<Member>, b: seq<Member>)
    requires |a| == |b| && (forall x | x in a :: Sized(x.value)) && (forall x | x in b :: Sized(x.value))
    ensures LessMembers(a, b) <==> exists k | 0 <= k < |a| :: a[..k] == b[..k] && EntryPrecedes(a[k], b[k])
    decreases a
  {
    hide EntryPrecedes, MemberLess;
    if a != [] {
      EntryMeans(a[0], b[0]);
      MemberTrichotomy(a[0], b[0]);
      MembersMean(a[1..], b[1..]);
      if LessMembers(a, b) {
        if MemberLess(a[0], b[0]) {
          assert a[..0] == b[..0];
        } else {
          var k: nat :| k < |a[1..]| && a[1..][..k] == b[1..][..k] && EntryPrecedes(a[1..][k], b[1..][k]);
          MembersShift(a, b, k);
        }
      }
      if k: nat :| k < |a| && a[..k] == b[..k] && EntryPrecedes(a[k], b[k]) {
        if k > 0 {
          assert a[..k][0] == b[..k][0];
          MembersShift(a, b, k - 1);
          assert MembersDiffer(a[1..], b[1..], k - 1);
        }
      }
    }
  }

  // Value::compare says on which side the first value is.
  lemma CompareMeans(a: Json, b: Json)
    requires Sized(a) && Sized(b)
    ensures Compare(a, b) == if Precedes(a, b) then -1 else if Precedes(b, a) then 1 else 0
    ensures Compare(a, b) == 0 <==> a == b
  {
    LessMeans(a, b);
    LessMeans(b, a);
    Trichotomy(a, b);
    hide Precedes, Less;
  }
}
