/** Objects as maps: members in the order of their names, and what look-up, update and removal by
    std::map::lower_bound make of them. */
module JsonMap {
  import opened Common
  import opened JsonValue
  import opened JsonGrammar

  ghost predicate Increasing(members: seq<Member>) {
    forall i, j | 0 <= i < j < |members| :: TextLess(members[i].name, members[j].name)
  }

  function AsMap(members: seq<Member>): map<Bytes, Json> {
    if members == [] then map[]
    else AsMap(members[..|members| - 1])[members[|members| - 1].name := members[|members| - 1].value]
  }

  lemma {:induction false} LowerBoundSplits(members: seq<Member>, name: Bytes)
    requires Increasing(members)
    ensures var i := LowerBound(members, name);
      && (forall j | 0 <= j < i :: TextLess(members[j].name, name))
      && (forall j | i <= j < |members| :: !TextLess(members[j].name, name))
  {
    if members != [] {
      if TextLess(members[0].name, name) {
        LowerBoundSplits(members[1..], name);
        var i := LowerBound(members[1..], name);
        forall j | 0 <= j < i + 1 ensures TextLess(members[j].name, name) {
          assert j > 0 ==> members[j] == members[1..][j - 1];
        }
        forall j | i + 1 <= j < |members| ensures !TextLess(members[j].name, name) {
          assert members[j] == members[1..][j - 1];
        }
      } else {
        forall j | 0 <= j < |members| ensures !TextLess(members[j].name, name) {
          if TextLess(members[j].name, name) && j > 0 {
            TextTransitive(members[0].name, members[j].name, name);
          }
        }
      }
    }
  }

  // Where the name belongs: everything before is below it, everything behind above it.
  lemma Slot(members: seq<Member>, name: Bytes) returns (i: nat, rest: nat)
    requires Increasing(members)
    ensures i == LowerBound(members, name) <= rest <= |members|
    ensures rest == if IsMember(members, name) then i + 1 else i
    ensures forall j | 0 <= j < i :: TextLess(members[j].name, name)
    ensures forall j | rest <= j < |members| :: TextLess(name, members[j].name)
  {
    LowerBoundSplits(members, name);
    i := LowerBound(members, name);
    rest := if IsMember(members, name) then i + 1 else i;
    forall j | rest <= j < |members| ensures TextLess(name, members[j].name) {
      TextTrichotomy(members[j].name, name);
      if members[j].name == name && i < j {
        TextTrichotomy(members[i].name, name);
      }
    }
  }

  // A member put where its name belongs.
  ghost predicate Put(m0: seq<Member>, m1: seq<Member>, i: nat, rest: nat, name: Bytes, v: Json) {
    && i <= rest <= |m0| && (rest == i || (rest == i + 1 && m0[i].name == name))
    && m1 == m0[..i] + [Member(name, v)] + m0[rest..]
    && (forall j | 0 <= j < i :: TextLess(m0[j].name, name))
    && (forall j | rest <= j < |m0| :: TextLess(name, m0[j].name))
  }

  lemma PutKeepsOrder(m0: seq<Member>, m1: seq<Member>, i: nat, rest: nat, name: Bytes, v: Json)
    requires Increasing(m0) && Put(m0, m1, i, rest, name, v)
    ensures Increasing(m1)
  {
    forall j, k | 0 <= j < k < |m1| ensures TextLess(m1[j].name, m1[k].name) {
      if j < i && k > i { TextTransitive(m1[j].name, name, m1[k].name); }
    }
  }

  lemma StorePuts(e: Entries, name: Bytes, n: Node) returns (i: nat, rest: nat)
    requires Paired(e) && Increasing(e.members)
    ensures Put(e.members, Store(e, name, n).members, i, rest, name, n.value)
  {
    i, rest := Slot(e.members, name);
  }

  lemma StoreKeepsOrder(e: Entries, name: Bytes, n: Node)
    requires Paired(e) && Increasing(e.members)
    ensures Increasing(Store(e, name, n).members)
  {
    var i, rest := StorePuts(e, name, n);
    PutKeepsOrder(e.members, Store(e, name, n).members, i, rest, name, n.value);
  }

  lemma {:induction false} AsMapHas(members: seq<Member>, name: Bytes)
    ensures name in AsMap(members) <==> exists i | 0 <= i < |members| :: members[i].name == name
    decreases |members|
  {
    if members != [] {
      var n := |members| - 1;
      AsMapHas(members[..n], name);
      if name in AsMap(members) {
        if members[n].name != name {
          var i :| 0 <= i < n && members[..n][i].name == name;
          assert members[i].name == name;
        }
      }
      if i :| 0 <= i < |members| && members[i].name == name {
        if i < n { assert members[..n][i].name == name; }
      }
    }
  }

  lemma {:induction false} AsMapAt(members: seq<Member>, i: nat)
    requires Increasing(members) && i < |members|
    ensures members[i].name in AsMap(members) && AsMap(members)[members[i].name] == members[i].value
    decreases |members|
  {
    var n := |members| - 1;
    if i < n {
      AsMapAt(members[..n], i);
      TextTrichotomy(members[i].name, members[n].name);
    }
  }

  lemma PutUpdatesAt(m0: seq<Member>, m1: seq<Member>, i: nat, rest: nat, name: Bytes, v: Json, k: Bytes)
    requires Increasing(m0) && Increasing(m1) && i <= rest <= |m0|
      && (rest == i || (rest == i + 1 && m0[i].name == name))
    requires m1 == m0[..i] + [Member(name, v)] + m0[rest..]
    ensures k in AsMap(m1) <==> k in AsMap(m0)[name := v]
    ensures k in AsMap(m1) ==> AsMap(m1)[k] == AsMap(m0)[name := v][k]
  {
    hide AsMap, Increasing;
    AsMapHas(m0, k);
    AsMapHas(m1, k);
    AsMapAt(m1, i);
    if k != name {
      if j :| 0 <= j < |m1| && m1[j].name == k {
        var o := if j < i then j else j - 1 - i + rest;
        assert m0[o] == m1[j];
        AsMapAt(m1, j);
        AsMapAt(m0, o);
      }
      if j :| 0 <= j < |m0| && m0[j].name == k {
        assert m1[if j < i then j else j - rest + i + 1] == m0[j];
      }
    }
  }

  lemma PutUpdates(m0: seq<Member>, m1: seq<Member>, i: nat, rest: nat, name: Bytes, v: Json)
    requires Increasing(m0) && Put(m0, m1, i, rest, name, v)
    ensures AsMap(m1) == AsMap(m0)[name := v]
  {
    PutKeepsOrder(m0, m1, i, rest, name, v);
    hide Increasing, AsMap, TextLess;
    forall k: Bytes
      ensures k in AsMap(m1) <==> k in AsMap(m0)[name := v]
      ensures k in AsMap(m1) ==> AsMap(m1)[k] == AsMap(m0)[name := v][k]
    {
      PutUpdatesAt(m0, m1, i, rest, name, v, k);
    }
  }

  // value[name] = v is the update of the map, and finding value[name] is its lookup.
  lemma StoreUpdates(e: Entries, name: Bytes, n: Node)
    requires Paired(e) && Increasing(e.members)
    ensures AsMap(Store(e, name, n).members) == AsMap(e.members)[name := n.value]
  {
    var i, rest := StorePuts(e, name, n);
    PutUpdates(e.members, Store(e, name, n).members, i, rest, name, n.value);
  }

  lemma LookupFinds(e: Entries, name: Bytes)
    requires Paired(e) && Increasing(e.members)
    ensures Lookup(e, name).value == if name in AsMap(e.members) then AsMap(e.members)[name] else Null
    ensures name !in AsMap(e.members) ==> Lookup(e, name) == FRESH
  {
    var i, rest := Slot(e.members, name);
    AsMapHas(e.members, name);
    if IsMember(e.members, name) {
      AsMapAt(e.members, i);
    } else {
      TextTrichotomy(name, name);
      assert forall j | 0 <= j < |e.members| :: e.members[j].name != name;
    }
  }

  // As many members as names: no name occurs twice.
  lemma {:induction false} CountMembers(members: seq<Member>)
    requires Increasing(members)
    ensures |AsMap(members).Keys| == |members|
    decreases |members|
  {
    if members != [] {
      var n := |members| - 1;
      CountMembers(members[..n]);
      AsMapHas(members[..n], members[n].name);
      TextTrichotomy(members[n].name, members[n].name);
      assert members[n].name !in AsMap(members[..n]);
      assert AsMap(members).Keys == AsMap(members[..n]).Keys + {members[n].name};
    }
  }

  lemma RemoveUpdatesAt(members: seq<Member>, m1: seq<Member>, it: nat, k: Bytes)
    requires Increasing(members) && Increasing(m1) && it < |members| && m1 == members[..it] + members[it + 1..]
    ensures k in AsMap(m1) <==> k in AsMap(members) && k != members[it].name
    ensures k in AsMap(m1) ==> AsMap(m1)[k] == AsMap(members)[k]
  {
    hide AsMap;
    AsMapHas(members, k);
    AsMapHas(m1, k);
    TextTrichotomy(k, k);
    if j :| 0 <= j < |m1| && m1[j].name == k {
      var o := if j < it then j else j + 1;
      assert m1[j] == members[o];
      AsMapAt(m1, j);
      AsMapAt(members, o);
    }
    if j :| 0 <= j < |members| && members[j].name == k && j != it {
      assert m1[if j < it then j else j - 1] == members[j];
    }
  }

  lemma RemoveUpdates(members: seq<Member>, it: nat)
    requires Increasing(members) && it < |members|
    ensures var m1 := members[..it] + members[it + 1..];
      Increasing(m1) && AsMap(m1) == AsMap(members) - {members[it].name}
  {
    var m1 := members[..it] + members[it + 1..];
    assert Increasing(m1);
    forall k: Bytes
      ensures k in AsMap(m1) <==> k in AsMap(members) - {members[it].name}
      ensures k in AsMap(m1) ==> AsMap(m1)[k] == AsMap(members)[k]
    {
      RemoveUpdatesAt(members, m1, it, k);
    }
  }

  lemma FirstIsLeast(a: seq<Member>, i: nat)
    requires Increasing(a) && i < |a|
    ensures !TextLess(a[i].name, a[0].name)
  {
    TextTrichotomy(a[0].name, a[i].name);
  }

  lemma SameFirst(a: seq<Member>, b: seq<Member>)
    requires Increasing(a) && Increasing(b) && AsMap(a) == AsMap(b) && a != [] && b != []
    ensures a[0].name == b[0].name
  {
    AsMapAt(a, 0);
    AsMapAt(b, 0);
    AsMapHas(a, b[0].name);
    AsMapHas(b, a[0].name);
    TextTrichotomy(a[0].name, b[0].name);
    var i :| 0 <= i < |a| && a[i].name == b[0].name;
    var j :| 0 <= j < |b| && b[j].name == a[0].name;
    FirstIsLeast(a, i);
    FirstIsLeast(b, j);
  }

  lemma AsMapEmpty()
    ensures AsMap([]) == map[]
  {
  }

  lemma SameHead(a: seq<Member>, b: seq<Member>)
    requires Increasing(a) && Increasing(b) && AsMap(a) == AsMap(b) && a != [] && b != []
    ensures a[0] == b[0]
  {
    hide AsMap, Increasing;
    SameFirst(a, b);
    AsMapAt(a, 0);
    AsMapAt(b, 0);
  }

  lemma BothEmpty(a: seq<Member>, b: seq<Member>)
    requires Increasing(a) && Increasing(b) && AsMap(a) == AsMap(b)
    ensures a == [] <==> b == []
  {
    hide AsMap, Increasing;
    AsMapEmpty();
    if a != [] { AsMapAt(a, 0); }
    if b != [] { AsMapAt(b, 0); }
  }

  lemma RestUpdates(a: seq<Member>)
    requires Increasing(a) && a != []
    ensures Increasing(a[1..]) && AsMap(a[1..]) == AsMap(a) - {a[0].name}
  {
    hide AsMap, Increasing;
    RemoveUpdates(a, 0);
    assert a[..0] + a[1..] == a[1..];
  }

  // Two objects in order are equal when they are the same map.
  lemma {:induction false} MapDetermines(a: seq<Member>, b: seq<Member>)
    requires Increasing(a) && Increasing(b) && AsMap(a) == AsMap(b)
    ensures a == b
    decreases |a|
  {
    hide AsMap, Increasing;
    BothEmpty(a, b);
    if a != [] {
      SameHead(a, b);
      RestUpdates(a);
      RestUpdates(b);
      MapDetermines(a[1..], b[1..]);
      assert a == [a[0]] + a[1..] && b == [b[0]] + b[1..];
    }
  }

  lemma UpdateRight(a: map<Bytes, Json>, b: map<Bytes, Json>, name: Bytes, v: Json)
    ensures (a + b)[name := v] == a + b[name := v]
  {
  }

  // A member in front yields to later members of its name.
  lemma {:induction false} AsMapCons(m: Member, q: seq<Member>)
    ensures AsMap([m] + q) == map[m.name := m.value] + AsMap(q)
    decreases |q|
  {
    if q == [] {
      assert [m] + q == [m] && [m][..0] == [];
    } else {
      var n := |q| - 1;
      AsMapCons(m, q[..n]);
      assert ([m] + q)[..n + 1] == [m] + q[..n] && ([m] + q)[n + 1] == q[n];
      UpdateRight(map[m.name := m.value], AsMap(q[..n]), q[n].name, q[n].value);
    }
  }
}
