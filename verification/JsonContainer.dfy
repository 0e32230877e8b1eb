/** Value as a container that is updated in place: an object behaves as a map, an array built by
    appending as a sequence, and a null value turns into either when it is first written to. */
module JsonContainer {
  import opened Common
  import opened JsonValue
  import opened JsonGrammar
  import opened JsonMap

  // The names an object has, in the order of its map.
  function Names(members: seq<Member>): seq<Bytes> {
    seq(|members|, i requires 0 <= i < |members| => members[i].name)
  }

  class Value {
    var content: Json

    ghost predicate Valid()
      reads this
    {
      content.Obj? ==> Increasing(content.members)
    }

    ghost predicate ActsAsObject()
      reads this
    {
      content.Null? || content.Obj?
    }

    // The members of an object; none of a null value.
    ghost function Members(): map<Bytes, Json>
      requires ActsAsObject()
      reads this
    {
      if content.Obj? then AsMap(content.members) else map[]
    }

    ghost function Items(): seq<Json>
      requires content.Null? || content.Arr?
      reads this
    {
      if content.Arr? then content.items else []
    }

    constructor (content: Json)
      requires content.Obj? ==> Increasing(content.members)
      ensures Valid() && this.content == content
    {
      this.content := content;
    }

    method Size() returns (n: nat)
      requires Valid()
      ensures content.Arr? ==> n == |Items()|
      ensures content.Obj? ==> n == |Members().Keys|
      ensures !content.Arr? && !content.Obj? ==> n == 0
    {
      match content {
        case Arr(items) => n := |items|;
        case Obj(members) =>
          n := |members|;
          CountMembers(members);
        case _ => n := 0;
      }
    }

    // value[key] = v
    method Assign(key: Bytes, v: Json)
      requires Valid() && ActsAsObject()
      modifies this
      ensures Valid() && content.Obj? && Members() == old(Members())[key := v]
    {
      if content.Null? {
        content := Obj([]);
      }
      var members := content.members;
      var it := LowerBound(members, key);
      ghost var i, rest := Slot(members, key);
      ghost var after := members[..it] + [Member(key, v)] + members[rest..];
      PutKeepsOrder(members, after, i, rest, key, v);
      PutUpdates(members, after, i, rest, key, v);
      if it < |members| && members[it].name == key {
        content := Obj(members[it := Member(key, v)]);
        assert members[it := Member(key, v)] == after;
      } else {
        content := Obj(members[..it] + [Member(key, v)] + members[it..]);
      }
    }

    // value[key] of a constant value
    method Get(key: Bytes) returns (v: Json)
      requires Valid() && ActsAsObject()
      ensures v == if key in Members() then Members()[key] else Null
    {
      if content.Null? {
        return Null;
      }
      var members := content.members;
      var it := LowerBound(members, key);
      ghost var i, rest := Slot(members, key);
      AsMapHas(members, key);
      if it < |members| && members[it].name == key {
        AsMapAt(members, it);
        return members[it].value;
      }
      TextTrichotomy(key, key);
      assert forall j | 0 <= j < |members| :: members[j].name != key;
      return Null;
    }

    // value[key], which adds a null member if there is none
    method Resolve(key: Bytes) returns (v: Json)
      requires Valid() && ActsAsObject()
      modifies this
      ensures Valid() && content.Obj?
      ensures v == if key in old(Members()) then old(Members())[key] else Null
      ensures Members() == old(Members())[key := v]
    {
      v := Get(key);
      Assign(key, v);
    }

    method RemoveMember(key: Bytes) returns (removed: Json)
      requires Valid() && ActsAsObject()
      modifies this
      ensures Valid() && ActsAsObject() && Members() == old(Members()) - {key}
      ensures removed == if key in old(Members()) then old(Members())[key] else Null
    {
      removed := Get(key);
      if content.Obj? {
        var members := content.members;
        var it := LowerBound(members, key);
        ghost var i, rest := Slot(members, key);
        if it < |members| && members[it].name == key {
          content := Obj(members[..it] + members[it + 1..]);
          RemoveUpdates(members, it);
        } else {
          AsMapHas(members, key);
          TextTrichotomy(key, key);
          assert forall j | 0 <= j < |members| :: members[j].name != key;
        }
      }
    }

    // (*this)[size()] = v
    method Append(v: Json)
      requires content.Null? || content.Arr?
      modifies this
      ensures content.Arr? && Items() == old(Items()) + [v]
    {
      if content.Null? {
        content := Arr([]);
      }
      content := Arr(content.items + [v]);
    }

    method GetMemberNames() returns (names: seq<Bytes>)
      requires Valid() && ActsAsObject()
      ensures forall name :: name in names <==> name in Members()
      ensures forall i, j | 0 <= i < j < |names| :: TextLess(names[i], names[j])
    {
      names := [];
      if content.Null? {
        return;
      }
      var members := content.members;
      for it := 0 to |members|
        invariant names == Names(members[..it])
      {
        names := names + [members[it].name];
      }
      assert members[..|members|] == members;
      forall name ensures name in names <==> name in Members() {
        AsMapHas(members, name);
        if i :| 0 <= i < |members| && members[i].name == name { assert names[i] == name; }
      }
    }
  }
}
