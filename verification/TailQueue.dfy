/** The tail queue of queue.h. A queue head and the entry of an element are laid out alike, a forward
    pointer before a back link, and the macros rely on it: the address of a forward pointer is the
    address of the pair that holds it. So one class stands for both, and a link to a forward pointer
    is a link to its pair. The pairs of a queue form a ring that starts with the head. */
module TailQueue {
  class Link {
    var next: Link?  // tqh_first or tqe_next
    var back: Link?  // tqh_last or tqe_prev

    constructor ()
    {
      next, back := null, null;
    }
  }

  // --- Memory as a value ---

  datatype Cell = Cell(next: Link?, back: Link?)

  type Mem = map<Link, Cell>

  ghost function Snap(s: set<Link>): (m: Mem)
    reads s
    ensures m.Keys == s
  {
    map x | x in s :: Cell(x.next, x.back)
  }

  lemma SnapWithout(s: set<Link>, x: Link)
    ensures Snap(s - {x}) == Snap(s) - {x}
  {
  }

  ghost function WithNext(m: Mem, x: Link, v: Link?): Mem
    requires x in m
  {
    m[x := Cell(v, m[x].back)]
  }

  ghost function WithBack(m: Mem, x: Link, v: Link?): Mem
    requires x in m
  {
    m[x := Cell(m[x].next, v)]
  }

  lemma NextBack(m: Mem, x: Link, v: Link?, y: Link, w: Link?)
    requires x in m && y in m
    ensures WithNext(WithBack(m, y, w), x, v) == WithBack(WithNext(m, x, v), y, w)
  {
  }

  lemma BackBack(m: Mem, x: Link, v: Link?, y: Link, w: Link?)
    requires x in m && y in m && x != y
    ensures WithBack(WithBack(m, y, w), x, v) == WithBack(WithBack(m, x, v), y, w)
  {
  }

  lemma BothLinks(m: Mem, x: Link, v: Link?, w: Link?)
    requires x in m
    ensures WithBack(WithNext(m, x, v), x, w) == m[x := Cell(v, w)]
  {
  }

  // --- The ring ---

  ghost function Ahead(ring: seq<Link>, i: nat): Link? {
    if i + 1 < |ring| then ring[i + 1] else null
  }

  // Whose back link leads to i: the next element's, or the head's for the last.
  ghost function After(ring: seq<Link>, i: nat): Link
    requires i < |ring|
  {
    if i + 1 < |ring| then ring[i + 1] else ring[0]
  }

  ghost function Behind(ring: seq<Link>, i: nat): Link
    requires i < |ring|
  {
    if i == 0 then ring[|ring| - 1] else ring[i - 1]
  }

  ghost predicate Ring(m: Mem, ring: seq<Link>) {
    && ring != []
    && (forall i, j | 0 <= i < j < |ring| :: ring[i] != ring[j])
    && (forall i | 0 <= i < |ring| :: ring[i] in m)
    && (forall i | 0 <= i < |ring| :: m[ring[i]].next == Ahead(ring, i))
    && (forall i | 0 <= i < |ring| :: m[ring[i]].back == Behind(ring, i))
  }

  ghost function Inserted(m: Mem, ring: seq<Link>, i: nat, e: Link): Mem
    requires Ring(m, ring) && i < |ring| && e in m
  {
    WithBack(WithNext(m[e := Cell(Ahead(ring, i), ring[i])], ring[i], e), After(ring, i), e)
  }

  // The position whose back link leads to i.
  ghost function AfterAt(ring: seq<Link>, i: nat): nat { if i + 1 < |ring| then i + 1 else 0 }

  // The two links of the element at k are what the sequence says.
  ghost predicate RingAt(m: Mem, ring: seq<Link>, k: nat)
    requires k < |ring|
  {
    ring[k] in m && m[ring[k]] == Cell(Ahead(ring, k), Behind(ring, k))
  }

  ghost predicate Distinct(ring: seq<Link>) {
    forall i, j | 0 <= i < j < |ring| :: ring[i] != ring[j]
  }

  lemma RingFromParts(m: Mem, ring: seq<Link>)
    requires ring != [] && Distinct(ring) && forall k | 0 <= k < |ring| :: RingAt(m, ring, k)
    ensures Ring(m, ring)
  {
    hide Ahead, Behind;
    forall k | 0 <= k < |ring|
      ensures ring[k] in m && m[ring[k]].next == Ahead(ring, k) && m[ring[k]].back == Behind(ring, k)
    {
      assert RingAt(m, ring, k);
    }
  }

  lemma DistinctInsert(ring: seq<Link>, i: nat, e: Link)
    requires Distinct(ring) && i < |ring| && e !in ring
    ensures Distinct(ring[..i + 1] + [e] + ring[i + 1..])
  {
  }

  lemma DistinctRemove(ring: seq<Link>, i: nat)
    requires Distinct(ring) && i < |ring|
    ensures Distinct(ring[..i] + ring[i + 1..])
  {
  }

  lemma DistinctReplace(ring: seq<Link>, i: nat, e: Link)
    requires Distinct(ring) && i < |ring| && e !in ring
    ensures Distinct(ring[i := e])
  {
  }

  lemma InsertedAt(m: Mem, ring: seq<Link>, i: nat, e: Link, o: nat)
    requires Ring(m, ring) && i < |ring| && e in m && e !in ring && o < |ring|
    ensures var m' := Inserted(m, ring, i, e);
      && e in m' && ring[o] in m' && m'[e] == Cell(Ahead(ring, i), ring[i])
      && m'[ring[o]] == Cell(if o == i then e else Ahead(ring, o), if o == AfterAt(ring, i) then e else Behind(ring, o))
  {
    hide Ahead, Behind;
    assert ring[o] != e && ring[i] != e && After(ring, i) == ring[AfterAt(ring, i)] != e;
    assert o != i ==> ring[o] != ring[i];
    assert o != AfterAt(ring, i) ==> ring[o] != After(ring, i);
  }

  lemma InsertPositions(ring: seq<Link>, i: nat, e: Link, j: nat)
    requires i < |ring| && j <= |ring|
    ensures var r := ring[..i + 1] + [e] + ring[i + 1..];
      if j == i + 1 then r[j] == e && Ahead(r, j) == Ahead(ring, i) && Behind(r, j) == ring[i]
      else
        var o := if j <= i then j else j - 1;
        && r[j] == ring[o] && Ahead(r, j) == (if o == i then e else Ahead(ring, o))
        && Behind(r, j) == if o == AfterAt(ring, i) then e else Behind(ring, o)
  {
  }

  lemma InsertKeepsRing(m: Mem, ring: seq<Link>, i: nat, e: Link)
    requires Ring(m, ring) && i < |ring| && e in m && e !in ring
    ensures Ring(Inserted(m, ring, i, e), ring[..i + 1] + [e] + ring[i + 1..])
  {
    var r := ring[..i + 1] + [e] + ring[i + 1..];
    var m' := Inserted(m, ring, i, e);
    DistinctInsert(ring, i, e);
    hide Distinct, Inserted, Ring, Ahead, Behind, AfterAt;
    forall j | 0 <= j < |r| ensures RingAt(m', r, j) {
      InsertPositions(ring, i, e, j);
      InsertedAt(m, ring, i, e, if j <= i then j else if j == i + 1 then i else j - 1);
    }
    RingFromParts(m', r);
  }

  ghost function Removed(m: Mem, ring: seq<Link>, i: nat): Mem
    requires Ring(m, ring) && 0 < i < |ring|
  {
    WithNext(WithBack(m, After(ring, i), ring[i - 1]), ring[i - 1], Ahead(ring, i))
  }

  lemma RemovedAt(m: Mem, ring: seq<Link>, i: nat, o: nat)
    requires Ring(m, ring) && 0 < i < |ring| && o < |ring| && o != i
    ensures var m' := Removed(m, ring, i);
      && ring[o] in m'
      && m'[ring[o]] == Cell(
           if o == i - 1 then Ahead(ring, i) else Ahead(ring, o),
           if o == AfterAt(ring, i) then ring[i - 1] else Behind(ring, o))
  {
    hide Ahead, Behind;
    assert After(ring, i) == ring[AfterAt(ring, i)];
    assert o != i - 1 ==> ring[o] != ring[i - 1];
    assert o != AfterAt(ring, i) ==> ring[o] != After(ring, i);
  }

  lemma RemovePositions(ring: seq<Link>, i: nat, j: nat)
    requires 0 < i < |ring| && j < |ring| - 1
    ensures var r, o := ring[..i] + ring[i + 1..], if j < i then j else j + 1;
      && r[j] == ring[o] && Ahead(r, j) == (if o == i - 1 then Ahead(ring, i) else Ahead(ring, o))
      && Behind(r, j) == if o == AfterAt(ring, i) then ring[i - 1] else Behind(ring, o)
  {
  }

  lemma RemoveKeepsRing(m: Mem, ring: seq<Link>, i: nat)
    requires Ring(m, ring) && 0 < i < |ring|
    ensures Ring(Removed(m, ring, i), ring[..i] + ring[i + 1..])
  {
    var r := ring[..i] + ring[i + 1..];
    var m' := Removed(m, ring, i);
    DistinctRemove(ring, i);
    hide Distinct, Removed, Ring, Ahead, Behind, AfterAt;
    forall j | 0 <= j < |r| ensures RingAt(m', r, j) {
      RemovePositions(ring, i, j);
      RemovedAt(m, ring, i, if j < i then j else j + 1);
    }
    RingFromParts(m', r);
  }

  ghost function Replaced(m: Mem, ring: seq<Link>, i: nat, e: Link): Mem
    requires Ring(m, ring) && 0 < i < |ring| && e in m
  {
    WithNext(WithBack(m[e := Cell(Ahead(ring, i), ring[i - 1])], After(ring, i), e), ring[i - 1], e)
  }

  lemma ReplacedAt(m: Mem, ring: seq<Link>, i: nat, e: Link, o: nat)
    requires Ring(m, ring) && 0 < i < |ring| && e in m && e !in ring && o < |ring| && o != i
    ensures var m' := Replaced(m, ring, i, e);
      && e in m' && ring[o] in m' && m'[e] == Cell(Ahead(ring, i), ring[i - 1])
      && m'[ring[o]]
        == Cell(if o == i - 1 then e else Ahead(ring, o), if o == AfterAt(ring, i) then e else Behind(ring, o))
  {
    hide Ahead, Behind;
    assert ring[i - 1] != e && After(ring, i) == ring[AfterAt(ring, i)] != e;
    assert o != i - 1 ==> ring[o] != ring[i - 1];
    assert o != AfterAt(ring, i) ==> ring[o] != After(ring, i);
  }

  lemma ReplacePositions(ring: seq<Link>, i: nat, e: Link, j: nat)
    requires 0 < i < |ring| && j < |ring|
    ensures var r := ring[i := e];
      if j == i then r[j] == e && Ahead(r, j) == Ahead(ring, i) && Behind(r, j) == ring[i - 1]
      else
        && r[j] == ring[j] && Ahead(r, j) == (if j == i - 1 then e else Ahead(ring, j))
        && Behind(r, j) == if j == AfterAt(ring, i) then e else Behind(ring, j)
  {
  }

  lemma ReplaceKeepsRing(m: Mem, ring: seq<Link>, i: nat, e: Link)
    requires Ring(m, ring) && 0 < i < |ring| && e in m && e !in ring
    ensures Ring(Replaced(m, ring, i, e), ring[i := e])
  {
    var r := ring[i := e];
    var m' := Replaced(m, ring, i, e);
    DistinctReplace(ring, i, e);
    hide Distinct, Replaced, Ring, Ahead, Behind, AfterAt;
    forall j | 0 <= j < |r| ensures RingAt(m', r, j) {
      ReplacePositions(ring, i, e, j);
      ReplacedAt(m, ring, i, e, if j == i then 0 else j);
    }
    RingFromParts(m', r);
  }

  lemma PlaceInRing(m: Mem, ring: seq<Link>, i: nat, e: Link)
    requires Ring(m, ring) && i < |ring| && e !in ring
    ensures ring[i] in m && After(ring, i) in m && ring[i] != e && After(ring, i) != e
  {
    hide Ahead, Behind;
    assert After(ring, i) == ring[if i + 1 < |ring| then i + 1 else 0];
  }

  // The orders in which the macros write the four links of an insertion behind i.
  lemma LinksOutsideFirst(m: Mem, ring: seq<Link>, i: nat, e: Link, x: Link, next: Link?, after: Link, m1: Mem, m2: Mem,
      m3: Mem)
    requires Ring(m, ring) && i < |ring| && e in m && e !in ring
    requires x == ring[i] && next == Ahead(ring, i) && after == After(ring, i) && after in m && x in m
    requires m1 == WithNext(m, e, next) && m2 == WithBack(m1, after, e) && m3 == WithNext(m2, x, e)
    ensures WithBack(m3, e, x) == Inserted(m, ring, i, e)
  {
    PlaceInRing(m, ring, i, e);
    hide Ahead, After, Ring, WithNext, WithBack;
    BothLinks(m, e, next, x);
    var joined := m[e := Cell(next, x)];
    NextBack(m2, x, e, e, x);
    BackBack(m1, e, x, after, e);
    NextBack(joined, x, e, after, e);
  }

  lemma LinksOwnFirst(m: Mem, ring: seq<Link>, i: nat, e: Link, x: Link, next: Link?, after: Link, m1: Mem, m2: Mem,
      m3: Mem)
    requires Ring(m, ring) && i < |ring| && e in m && e !in ring
    requires x == ring[i] && next == Ahead(ring, i) && after == After(ring, i) && after in m && x in m
    requires m1 == WithNext(m, e, next) && m2 == WithBack(m1, e, x) && m3 == WithNext(m2, x, e)
    ensures WithBack(m3, after, e) == Inserted(m, ring, i, e)
  {
    hide Ahead, After, Ring, WithNext, WithBack;
    BothLinks(m, e, next, x);
  }

  lemma LinksBackFirst(m: Mem, ring: seq<Link>, i: nat, e: Link, x: Link, next: Link?, after: Link, m1: Mem, m2: Mem,
      m3: Mem)
    requires Ring(m, ring) && i < |ring| && e in m && e !in ring
    requires x == ring[i] && next == Ahead(ring, i) && after == After(ring, i) && after in m && x in m
    requires m1 == WithBack(m, e, x) && m2 == WithNext(m1, e, next) && m3 == WithNext(m2, x, e)
    ensures WithBack(m3, after, e) == Inserted(m, ring, i, e)
  {
    hide Ahead, After, Ring, WithNext, WithBack;
    NextBack(m, e, next, e, x);
    BothLinks(m, e, next, x);
  }

  lemma LinksRemoved(m: Mem, ring: seq<Link>, i: nat)
    requires Ring(m, ring) && 0 < i < |ring|
    ensures m[ring[i]] == Cell(Ahead(ring, i), ring[i - 1])
    ensures WithNext(WithBack(m, After(ring, i), ring[i - 1]), ring[i - 1], Ahead(ring, i)) == Removed(m, ring, i)
  {
  }

  lemma LinksReplaced(m: Mem, ring: seq<Link>, i: nat, e: Link, prev: Link, next: Link?, after: Link, m1: Mem, m2: Mem,
      m3: Mem)
    requires Ring(m, ring) && 0 < i < |ring| && e in m && e !in ring
    requires prev == ring[i - 1] && next == Ahead(ring, i) && after == After(ring, i) && after in m && prev in m
    requires m1 == WithNext(m, e, next) && m2 == WithBack(m1, after, e) && m3 == WithBack(m2, e, prev)
    ensures WithNext(m3, prev, e) == Replaced(m, ring, i, e)
  {
    PlaceInRing(m, ring, i, e);
    hide Ahead, After, Ring, WithNext, WithBack;
    BackBack(m1, e, prev, after, e);
    BothLinks(m, e, next, prev);
  }

  // A ring does not depend on what lies outside of it.
  lemma RingIn(small: Mem, large: Mem, ring: seq<Link>)
    requires Ring(small, ring) && forall x | x in small :: x in large && large[x] == small[x]
    ensures Ring(large, ring)
  {
    hide Ahead, Behind;
  }

  lemma RingOut(large: Mem, small: Mem, ring: seq<Link>, e: Link)
    requires Ring(large, ring) && e !in ring && small.Keys == large.Keys - {e}
    requires forall x | x in small :: small[x] == large[x]
    ensures Ring(small, ring)
  {
    hide Ahead, Behind;
  }

  // A change to the elements is one to the ring they form with the head, one place on.
  lemma InsertShift(head: Link, elems: seq<Link>, i: nat, e: Link)
    requires i <= |elems|
    ensures var ring := [head] + elems;
      [head] + (elems[..i] + [e] + elems[i..]) == ring[..i + 1] + [e] + ring[i + 1..]
  {
  }

  lemma RemoveShift(head: Link, elems: seq<Link>, i: nat)
    requires i < |elems|
    ensures var ring := [head] + elems;
      [head] + (elems[..i] + elems[i + 1..]) == ring[..i + 1] + ring[i + 2..] && ring[i + 1] == elems[i]
        && ring[0] == head
  {
  }

  lemma ReplaceShift(head: Link, elems: seq<Link>, i: nat, e: Link)
    requires i < |elems|
    ensures var ring := [head] + elems;
      [head] + elems[i := e] == ring[i + 1 := e] && ring[i + 1] == elems[i] && ring[0] == head
  {
  }

  lemma NotInRest(ring: seq<Link>, k: nat)
    requires Distinct(ring) && k < |ring|
    ensures ring[k] !in ring[..k] + ring[k + 1..]
    ensures k > 0 ==> ring[0] != ring[k]
  {
  }

  lemma RingIsDistinct(m: Mem, ring: seq<Link>)
    requires Ring(m, ring)
    ensures Distinct(ring)
  {
    hide Ahead, Behind;
  }

  // The ring without an element, which memory may then forget.
  lemma LeaveRing(m: Mem, large: Mem, head: Link, elems: seq<Link>, i: nat)
    requires i < |elems| && Ring(m, [head] + elems) && large == Removed(m, [head] + elems, i + 1)
    ensures Ring(large - {elems[i]}, [head] + (elems[..i] + elems[i + 1..])) && head != elems[i]
  {
    hide Ring, Removed, Distinct;
    var ring, k := [head] + elems, i + 1;
    RemoveShift(head, elems, i);
    RemoveKeepsRing(m, ring, k);
    RingIsDistinct(m, ring);
    NotInRest(ring, k);
    RingOut(large, large - {ring[k]}, ring[..k] + ring[k + 1..], ring[k]);
  }

  lemma ReplacedIsGone(ring: seq<Link>, k: nat, e: Link)
    requires k < |ring| && Distinct(ring) && e !in ring
    ensures ring[k] !in ring[k := e]
  {
  }

  // The ring with another element in place of one, which memory may then forget.
  lemma ExchangeRing(m: Mem, large: Mem, head: Link, elems: seq<Link>, i: nat, e: Link)
    requires i < |elems| && Ring(m, [head] + elems) && e in m && e !in [head] + elems
    requires large == Replaced(m, [head] + elems, i + 1, e)
    ensures Ring(large - {elems[i]}, [head] + elems[i := e]) && head != elems[i] && e != elems[i]
  {
    hide Ring, Replaced, Distinct;
    var ring, k := [head] + elems, i + 1;
    ReplaceShift(head, elems, i, e);
    ReplaceKeepsRing(m, ring, k, e);
    RingIsDistinct(m, ring);
    NotInRest(ring, k);
    assert ring[k] !in ring[k := e] by { ReplacedIsGone(ring, k, e); }
    RingOut(large, large - {ring[k]}, ring[k := e], ring[k]);
  }

  lemma SwapMember(s: set<Link>, a: Link, b: Link)
    requires a != b
    ensures s + {b} - {a} == s - {a} + {b}
  {
  }

  // --- Walking backwards ---

  ghost function Reversed(q: seq<Link>): seq<Link> {
    if q == [] then [] else [q[|q| - 1]] + Reversed(q[..|q| - 1])
  }

  lemma ReversedStep(q: seq<Link>, n: nat, visited: seq<Link>)
    requires 0 < n <= |q|
    ensures visited + Reversed(q[..n]) == visited + [q[n - 1]] + Reversed(q[..n - 1])
    ensures n == 1 ==> Reversed(q[..n - 1]) == []
  {
    assert q[..n][..n - 1] == q[..n - 1];
  }

  // What the reverse walk visits: as many, from the last to the first.
  lemma {:induction false} ReversedAt(q: seq<Link>, i: nat)
    requires i < |q|
    ensures |Reversed(q)| == |q| && Reversed(q)[i] == q[|q| - 1 - i]
    decreases |q|
  {
    if |q| > 1 {
      ReversedAt(q[..|q| - 1], if i == 0 then 0 else i - 1);
    }
  }

  // --- The macros ---

  method SetNext(ghost s: set<Link>, x: Link, v: Link?)
    requires x in s
    modifies x`next
    ensures x.next == v && Snap(s) == WithNext(old(Snap(s)), x, v)
  {
    x.next := v;
  }

  method SetBack(ghost s: set<Link>, x: Link, v: Link?)
    requires x in s
    modifies x`back
    ensures x.back == v && Snap(s) == WithBack(old(Snap(s)), x, v)
  {
    x.back := v;
  }

  class Queue {
    const head: Link
    ghost var elems: seq<Link>
    ghost var members: set<Link>

    ghost predicate Valid()
      reads this, members
    {
      head in members && Ring(Snap(members), [head] + elems)
    }

    // TAILQ_INIT
    constructor ()
      ensures Valid() && elems == [] && fresh(members)
    {
      var link := new Link();
      head := link;
      elems, members := [], {link};
      new;
      head.next := null;
      head.back := head;
    }

    // TAILQ_FIRST
    method First() returns (e: Link?)
      requires Valid()
      ensures e == if elems == [] then null else elems[0]
    {
      e := head.next;
      assert Snap(members)[([head] + elems)[0]].next == e;
    }

    // The links of a new element before it joins, as one memory with the queue's.
    lemma Joining(elm: Link) returns (s: set<Link>)
      requires Valid() && elm !in members
      ensures s == members + {elm} && Ring(Snap(s), [head] + elems) && elm !in [head] + elems
    {
      s := members + {elm};
      RingIn(Snap(members), Snap(s), [head] + elems);
    }

    ghost method Joined(s: set<Link>, m: Mem, i: nat, elm: Link)
      requires head in s && i <= |elems| && elm in s && m.Keys == s && elm !in [head] + elems
      requires Ring(m, [head] + elems) && Snap(s) == Inserted(m, [head] + elems, i, elm)
      modifies this
      ensures Valid() && members == s && elems == old(elems[..i] + [elm] + elems[i..])
    {
      hide Ring, Inserted, Snap;
      InsertKeepsRing(m, [head] + elems, i, elm);
      InsertShift(head, elems, i, elm);
      elems, members := elems[..i] + [elm] + elems[i..], s;
    }

    // The back link of the next element, or the head's if there is none.
    method BackOfNext(ghost s: set<Link>, next: Link?, v: Link?)
      requires head in s && (next != null ==> next in s)
      modifies s`back
      ensures Snap(s) == WithBack(old(Snap(s)), if next != null then next else head, v)
    {
      if next != null {
        SetBack(s, next, v);
      } else {
        SetBack(s, head, v);
      }
    }

    // Where an element goes that is inserted at i: behind x, before next, and which back link changes.
    lemma Gap(i: nat) returns (x: Link, next: Link?, after: Link)
      requires Valid() && i <= |elems|
      ensures x == ([head] + elems)[i] && next == Ahead([head] + elems, i) && after == After([head] + elems, i)
      ensures x == (if i == 0 then head else elems[i - 1]) && next == x.next
      ensures next == (if i < |elems| then elems[i] else null) && after == (if next != null then next else head)
      ensures x in members && after in members
    {
      var ring := [head] + elems;
      x, next, after := ring[i], Ahead(ring, i), After(ring, i);
      hide Behind;
      assert Snap(members)[ring[i]].next == Ahead(ring, i);
    }

    // Four writes put elm behind listelm: its forward pointer, what points back at listelm, listelm's
    // forward pointer, and its own back link.
    method InsertBehind(listelm: Link, elm: Link, ghost i: nat, ghost x: Link, ghost next0: Link?, ghost after: Link)
      requires Valid() && elm !in members && i <= |elems| && listelm == x && listelm in members && after in members
      requires x == ([head] + elems)[i] && next0 == Ahead([head] + elems, i) == x.next
        && after == After([head] + elems, i)
      requires after == if next0 != null then next0 else head
      modifies this, members, elm
      ensures Valid() && elems == old(elems[..i] + [elm] + elems[i..]) && members == old(members) + {elm}
    {
      hide Ring, Inserted, WithNext, WithBack, Ahead, After, Behind, Snap;
      ghost var ring := [head] + elems;
      ghost var s := Joining(elm);
      ghost var m := Snap(s);
      var next := listelm.next;
      SetNext(s, elm, next);
      ghost var m1 := Snap(s);
      BackOfNext(s, next, elm);
      ghost var m2 := Snap(s);
      SetNext(s, listelm, elm);
      ghost var m3 := Snap(s);
      SetBack(s, elm, listelm);
      LinksOutsideFirst(m, ring, i, elm, listelm, next, after, m1, m2, m3);
      Joined(s, m, i, elm);
    }

    method InsertHead(elm: Link)
      requires Valid() && elm !in members
      modifies this, members, elm
      ensures Valid() && elems == [elm] + old(elems) && members == old(members) + {elm}
    {
      ghost var x, next, after := Gap(0);
      assert elems[..0] + [elm] + elems[0..] == [elm] + elems;
      InsertBehind(head, elm, 0, x, next, after);
    }

    // The element at i has its place in the ring.
    lemma Place(i: nat)
      requires Valid() && i < |elems|
      ensures elems[i] in members
      ensures elems[i].next == if i + 1 < |elems| then elems[i + 1] else null
      ensures elems[i].back == if i == 0 then head else elems[i - 1]
    {
      var ring := [head] + elems;
      assert ring[i + 1] == elems[i];
      assert Snap(members)[ring[i + 1]].next == Ahead(ring, i + 1)
        && Snap(members)[ring[i + 1]].back == Behind(ring, i + 1);
    }

    lemma Ends()
      requires Valid()
      ensures head.next == (if elems == [] then null else elems[0])
      ensures head.back == if elems == [] then head else elems[|elems| - 1]
    {
      var ring := [head] + elems;
      assert ring[0] == head;
      assert Snap(members)[ring[0]].next == Ahead(ring, 0) && Snap(members)[ring[0]].back == Behind(ring, 0);
    }

    // The four writes of an insertion at the end.
    method LinkAtEnd(elm: Link, ghost n: nat)
      requires Valid() && elm !in members && n == |elems|
      requires head.back != null && head.back in members && head.back == ([head] + elems)[n]
      requires Ahead([head] + elems, n) == null && After([head] + elems, n) == head
      modifies this, members, elm
      ensures Valid() && elems == old(elems[..n] + [elm] + elems[n..]) && members == old(members) + {elm}
    {
      hide Ring, Inserted, WithNext, WithBack, Ahead, After, Behind, Snap;
      ghost var ring := [head] + elems;
      ghost var s := Joining(elm);
      ghost var m := Snap(s);
      var last := head.back;
      SetNext(s, elm, null);
      ghost var m1 := Snap(s);
      SetBack(s, elm, last);
      ghost var m2 := Snap(s);
      SetNext(s, last, elm);
      ghost var m3 := Snap(s);
      SetBack(s, head, elm);
      LinksOwnFirst(m, ring, n, elm, last, null, head, m1, m2, m3);
      Joined(s, m, n, elm);
    }

    method InsertTail(elm: Link)
      requires Valid() && elm !in members
      modifies this, members, elm
      ensures Valid() && elems == old(elems) + [elm] && members == old(members) + {elm}
    {
      Ends();
      ghost var n := |elems|;
      ghost var _, _, _ := Gap(n);
      assert elems[..n] + [elm] + elems[n..] == elems + [elm];
      LinkAtEnd(elm, n);
    }

    method InsertAfter(listelm: Link, elm: Link, ghost i: nat)
      requires Valid() && elm !in members && i < |elems| && listelm == elems[i]
      modifies this, members, elm
      ensures Valid() && elems == old(elems[..i + 1] + [elm] + elems[i + 1..]) && members == old(members) + {elm}
    {
      ghost var x, next, after := Gap(i + 1);
      InsertBehind(listelm, elm, i + 1, x, next, after);
    }

    // The four writes of an insertion before listelm.
    method LinkBefore(listelm: Link, elm: Link, ghost i: nat)
      requires Valid() && elm !in members && i < |elems| && listelm in members
      requires listelm.back != null && listelm.back in members && listelm.back == ([head] + elems)[i]
      requires listelm == Ahead([head] + elems, i) == After([head] + elems, i)
      modifies this, members, elm
      ensures Valid() && elems == old(elems[..i] + [elm] + elems[i..]) && members == old(members) + {elm}
    {
      hide Ring, Inserted, WithNext, WithBack, Ahead, After, Behind, Snap;
      ghost var ring := [head] + elems;
      ghost var s := Joining(elm);
      ghost var m := Snap(s);
      var back := listelm.back;
      SetBack(s, elm, back);
      ghost var m1 := Snap(s);
      SetNext(s, elm, listelm);
      ghost var m2 := Snap(s);
      SetNext(s, back, elm);
      ghost var m3 := Snap(s);
      SetBack(s, listelm, elm);
      LinksBackFirst(m, ring, i, elm, back, listelm, listelm, m1, m2, m3);
      Joined(s, m, i, elm);
    }

    method InsertBefore(listelm: Link, elm: Link, ghost i: nat)
      requires Valid() && elm !in members && i < |elems| && listelm == elems[i]
      modifies this, members, elm
      ensures Valid() && elems == old(elems[..i] + [elm] + elems[i..]) && members == old(members) + {elm}
    {
      Place(i);
      ghost var _, _, _ := Gap(i);
      LinkBefore(listelm, elm, i);
    }

    ghost method Left(m: Mem, i: nat, k: nat)
      requires head in members && i < |elems| && k == i + 1
      requires Ring(m, [head] + elems) && Snap(members) == Removed(m, [head] + elems, k)
      modifies this
      ensures Valid() && elems == old(elems[..i] + elems[i + 1..]) && members == old(members - {elems[i]})
    {
      hide Ring, Removed, Snap;
      LeaveRing(m, Snap(members), head, elems, i);
      SnapWithout(members, elems[i]);
      members := members - {elems[i]};
      elems := elems[..i] + elems[i + 1..];
    }

    // The two writes of a removal.
    method LinkAcross(elm: Link, ghost i: nat, ghost k: nat)
      requires Valid() && i < |elems| && elm == elems[i] && k == i + 1
      requires elm.back != null && elm.back in members && (elm.next != null ==> elm.next in members)
      requires elm.back == ([head] + elems)[k - 1] && elm.next == Ahead([head] + elems, k)
      requires After([head] + elems, k) == if elm.next != null then elm.next else head
      modifies this, members
      ensures Valid() && elems == old(elems[..i] + elems[i + 1..]) && members == old(members) - {elm}
    {
      hide Ring, Removed, WithNext, WithBack, Ahead, After, Behind, Snap;
      ghost var m, ring := Snap(members), [head] + elems;
      LinksRemoved(m, ring, k);
      var next, back := elm.next, elm.back;
      BackOfNext(members, next, back);
      SetNext(members, back, next);
      Left(m, i, k);
    }

    method Remove(elm: Link, ghost i: nat)
      requires Valid() && i < |elems| && elm == elems[i]
      modifies this, members
      ensures Valid() && elems == old(elems[..i] + elems[i + 1..]) && members == old(members) - {elm}
    {
      Place(i);
      ghost var prev, _, _ := Gap(i);
      ghost var _, _, _ := Gap(i + 1);
      assert prev == ([head] + elems)[i];
      LinkAcross(elm, i, i + 1);
    }

    ghost method Exchanged(s: set<Link>, m: Mem, i: nat, k: nat, elm2: Link)
      requires head in s && elm2 in s && i < |elems| && elm2 !in [head] + elems && m.Keys == s
      requires Ring(m, [head] + elems) && k == i + 1 && Snap(s) == Replaced(m, [head] + elems, k, elm2)
      modifies this
      ensures Valid() && elems == old(elems)[i := elm2] && members == s - {old(elems[i])}
    {
      hide Ring, Replaced, Snap;
      ExchangeRing(m, Snap(s), head, elems, i, elm2);
      SnapWithout(s, elems[i]);
      members := s - {elems[i]};
      elems := elems[i := elm2];
    }

    // The four writes of a replacement.
    method LinkInstead(elm: Link, elm2: Link, ghost i: nat, ghost k: nat)
      requires Valid() && elm2 !in members && i < |elems| && elm == elems[i] && k == i + 1 && elm in members
      requires elm.back != null && elm.back in members && (elm.next != null ==> elm.next in members)
      requires elm.back == ([head] + elems)[k - 1] && elm.next == Ahead([head] + elems, k)
      requires After([head] + elems, k) == if elm.next != null then elm.next else head
      modifies this, members, elm2
      ensures Valid() && elems == old(elems)[i := elm2] && members == old(members) - {elm} + {elm2}
    {
      hide Ring, Replaced, WithNext, WithBack, Ahead, After, Behind, Snap;
      ghost var ring := [head] + elems;
      ghost var after := After(ring, k);
      ghost var s := Joining(elm2);
      ghost var m := Snap(s);
      var next, back := elm.next, elm.back;
      SetNext(s, elm2, next);
      ghost var m1 := Snap(s);
      BackOfNext(s, next, elm2);
      ghost var m2 := Snap(s);
      SetBack(s, elm2, back);
      ghost var m3 := Snap(s);
      SetNext(s, back, elm2);
      LinksReplaced(m, ring, k, elm2, back, next, after, m1, m2, m3);
      Exchanged(s, m, i, k, elm2);
      SwapMember(old(members), elm, elm2);
    }

    method Replace(elm: Link, elm2: Link, ghost i: nat)
      requires Valid() && elm2 !in members && i < |elems| && elm == elems[i]
      modifies this, members, elm2
      ensures Valid() && elems == old(elems)[i := elm2] && members == old(members) - {elm} + {elm2}
    {
      Place(i);
      ghost var prev, _, _ := Gap(i);
      ghost var _, _, _ := Gap(i + 1);
      assert prev == ([head] + elems)[i];
      LinkInstead(elm, elm2, i, i + 1);
    }

    // --- Walking ---

    // The last element, reached through the pair that holds the last forward pointer.
    method Last() returns (e: Link?)
      requires Valid()
      ensures e == if elems == [] then null else elems[|elems| - 1]
    {
      Ends();
      if |elems| > 0 { Place(|elems| - 1); }
      if |elems| > 1 { Place(|elems| - 2); }
      e := head.back.back.next;
    }

    method Prev(elm: Link, ghost i: nat) returns (e: Link?)
      requires Valid() && i < |elems| && elm == elems[i]
      ensures e == if i == 0 then null else elems[i - 1]
    {
      Ends();
      Place(i);
      if i > 0 { Place(i - 1); } else { Place(|elems| - 1); }
      if i > 1 { Place(i - 2); }
      e := elm.back.back.next;
    }

    method ForEach() returns (visited: seq<Link>)
      requires Valid()
      ensures visited == elems
    {
      visited := [];
      var e := First();
      while e != null
        invariant |visited| <= |elems| && visited == elems[..|visited|]
        invariant e == if |visited| < |elems| then elems[|visited|] else null
        decreases |elems| - |visited|
      {
        Place(|visited|);
        visited := visited + [e];
        e := e.next;
      }
    }

    method ForEachReverse() returns (visited: seq<Link>)
      requires Valid()
      ensures visited == Reversed(elems)
    {
      assert Reversed([]) == [] && elems[..0] == [];
      hide Reversed, Ring;
      visited := [];
      ghost var left: nat := |elems|;
      var e := Last();
      assert elems[..left] == elems;
      while e != null
        invariant left <= |elems| && visited + Reversed(elems[..left]) == Reversed(elems)
        invariant e == if left > 0 then elems[left - 1] else null
        decreases left
      {
        ReversedStep(elems, left, visited);
        visited := visited + [e];
        e := Prev(e, left - 1);
        left := left - 1;
      }
    }
  }
}
