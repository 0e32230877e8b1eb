/** The Balance Theorem: splaying along a long way makes up for it by a better tree. The potential of a tree is
    the product of the sizes of its subtrees, so sums of logarithms are products here. */
module SplayCost {
  import opened Ordering
  import opened SplayShape
  import opened SplayDepth
  import opened Products

  // The size of a tree is one more than the number of its nodes; the product is taken over all its subtrees.
  ghost function Weigh(t: Tree): Weight {
    if t.Nil? then Weight(1, 1) else Join(Weigh(t.l), Weigh(t.r))
  }

  ghost function Size(t: Tree): nat { Weigh(t).size }

  ghost function Potential(t: Tree): nat { Weigh(t).product }

  function Pow2(n: nat): (p: nat)
    ensures p >= 1
  {
    if n == 0 then 1 else 2 * Pow2(n - 1)
  }

  // --- What a splay makes of a tree, from the bottom up ---

  datatype Parted = Parted(a: Tree, x: Node, b: Tree)

  ghost function Part(cmp: (Key, Key) -> int, key: Key, t: Tree): Parted
    requires t.Fork?
    decreases t
  {
    var comp := cmp(key, t.x.key);
    if comp < 0 && t.l.Fork? then
      if cmp(key, t.l.x.key) >= 0 then
        var p := Part(cmp, key, t.l);
        Parted(p.a, p.x, Fork(p.b, t.x, t.r))
      else if t.l.l.Nil? then Parted(Nil, t.l.x, Fork(t.l.r, t.x, t.r))
      else
        var p := Part(cmp, key, t.l.l);
        Parted(p.a, p.x, Fork(p.b, t.l.x, Fork(t.l.r, t.x, t.r)))
    else if comp > 0 && t.r.Fork? then
      if cmp(key, t.r.x.key) <= 0 then
        var p := Part(cmp, key, t.r);
        Parted(Fork(t.l, t.x, p.a), p.x, p.b)
      else if t.r.r.Nil? then Parted(Fork(t.l, t.x, t.r.l), t.r.x, Nil)
      else
        var p := Part(cmp, key, t.r.r);
        Parted(Fork(Fork(t.l, t.x, t.r.l), t.r.x, p.a), p.x, p.b)
    else Parted(t.l, t.x, t.r)
  }

  ghost function Together(p: Parted): Tree { Fork(p.a, p.x, p.b) }

  lemma {:induction false} SplayedIsPart(cmp: (Key, Key) -> int, key: Key, lp: Spine, t: Tree, rp: Spine)
    requires t.Fork?
    ensures Splayed(cmp, key, lp, t, rp) == Joined(lp, Together(Part(cmp, key, t)), rp)
    decreases t
  {
    var comp := cmp(key, t.x.key);
    if comp < 0 && t.l.Fork? {
      if cmp(key, t.l.x.key) >= 0 {
        SplayedIsPart(cmp, key, lp, t.l, Link(t.x, t.r, rp));
      } else if t.l.l.Fork? {
        SplayedIsPart(cmp, key, lp, t.l.l, Link(t.l.x, Fork(t.l.r, t.x, t.r), rp));
      }
    } else if comp > 0 && t.r.Fork? {
      if cmp(key, t.r.x.key) <= 0 {
        SplayedIsPart(cmp, key, Link(t.x, t.l, lp), t.r, rp);
      } else if t.r.r.Fork? {
        SplayedIsPart(cmp, key, Link(t.r.x, Fork(t.l, t.x, t.r.l), lp), t.r.r, rp);
      }
    }
  }

  lemma SizeFork(l: Tree, x: Node, r: Tree)
    ensures Size(Fork(l, x, r)) == Size(l) + Size(r) && Size(Nil) == 1
  {
  }

  lemma {:induction false} PartSize(cmp: (Key, Key) -> int, key: Key, t: Tree)
    requires t.Fork?
    ensures var p := Part(cmp, key, t);
      Size(p.a) + Size(p.b) == Size(t)
    decreases t
  {
    hide Weigh, Join, Times;
    var comp, p := cmp(key, t.x.key), Part(cmp, key, t);
    SizeFork(t.l, t.x, t.r);
    if comp < 0 && t.l.Fork? {
      PartSizeLeft(cmp, key, t);
    } else if comp > 0 && t.r.Fork? {
      PartSizeRight(cmp, key, t);
    }
  }

  lemma {:induction false} PartSizeLeft(cmp: (Key, Key) -> int, key: Key, t: Tree)
    requires t.Fork? && cmp(key, t.x.key) < 0 && t.l.Fork?
    ensures var p := Part(cmp, key, t);
      Size(p.a) + Size(p.b) == Size(t)
    decreases t, 0
  {
    hide Size;
    var l := t.l;
    SizeFork(t.l, t.x, t.r);
    SizeFork(l.l, l.x, l.r);
    if cmp(key, l.x.key) >= 0 {
      PartSize(cmp, key, l);
      SizeFork(Part(cmp, key, l).b, t.x, t.r);
    } else {
      SizeFork(l.r, t.x, t.r);
      if l.l.Fork? {
        PartSize(cmp, key, l.l);
        SizeFork(Part(cmp, key, l.l).b, l.x, Fork(l.r, t.x, t.r));
      }
    }
  }

  lemma {:induction false} PartSizeRight(cmp: (Key, Key) -> int, key: Key, t: Tree)
    requires t.Fork? && cmp(key, t.x.key) > 0 && t.r.Fork?
    ensures var p := Part(cmp, key, t);
      Size(p.a) + Size(p.b) == Size(t)
    decreases t, 0
  {
    hide Size;
    var r := t.r;
    SizeFork(t.l, t.x, t.r);
    SizeFork(r.l, r.x, r.r);
    if cmp(key, r.x.key) <= 0 {
      PartSize(cmp, key, r);
      SizeFork(t.l, t.x, Part(cmp, key, r).a);
    } else {
      SizeFork(t.l, t.x, r.l);
      if r.r.Fork? {
        PartSize(cmp, key, r.r);
        SizeFork(Fork(t.l, t.x, r.l), r.x, Part(cmp, key, r.r).a);
      }
    }
  }

  // --- What one splay costs ---

  // What t weighs pays for k comparisons and for what the parts weigh.
  ghost predicate Pays(k: nat, a: Tree, b: Tree, t: Tree) {
    Covered(Pow2(k), Weigh(a), Weigh(b), Weigh(t))
  }

  lemma WeighMake(side: Side, near: Tree, x: Node, far: Tree)
    ensures Weigh(Make(side, near, x, far)) == Join(Weigh(near), Weigh(far))
  {
    JoinCommutes(Weigh(near), Weigh(far));
  }

  lemma PaysSwapped(k: nat, a: Tree, b: Tree, t: Tree)
    ensures Pays(k, a, b, t) == Pays(k, b, a, t)
  {
    var p, q := Potential(a), Potential(b);
    assert p * q == q * p;
  }

  lemma Doubled(k: nat)
    ensures Pow2(k + 2) == 4 * Pow2(k) && Pow2(k + 3) == 8 * Pow2(k) && Pow2(k + 4) == 16 * Pow2(k)
  {
  }

  // Two steps to the same side, with a rotation.
  lemma PaysAlike(side: Side, k: nat, a: Tree, b: Tree, c: Tree, y: Node, q: Tree, x: Node, r: Tree)
    requires Pays(k, a, b, c) && Size(a) + Size(b) == Size(c)
    ensures Pays(k + 2, a, Make(side, b, y, Make(side, q, x, r)), Make(side, Make(side, c, y, q), x, r))
  {
    hide Covered, Join, Make, Weigh, Pow2;
    Doubled(k);
    WeighMake(side, q, x, r);
    WeighMake(side, b, y, Make(side, q, x, r));
    WeighMake(side, c, y, q);
    WeighMake(side, Make(side, c, y, q), x, r);
    AlikeWeights(Pow2(k), Weigh(a), Weigh(b), Weigh(c), Weigh(q), Weigh(r));
  }

  // One step to each side.
  lemma PaysApart(side: Side, k: nat, a: Tree, b: Tree, c: Tree, y: Node, q: Tree, x: Node, r: Tree)
    requires Pays(k, a, b, c) && Size(a) + Size(b) == Size(c)
    ensures Pays(k + 2, Make(side, q, y, a), Make(side, b, x, r), Make(side, Make(side, q, y, c), x, r))
  {
    hide Covered, Join, Make, Weigh, Pow2;
    Doubled(k);
    WeighMake(side, q, y, a);
    WeighMake(side, b, x, r);
    WeighMake(side, q, y, c);
    WeighMake(side, Make(side, q, y, c), x, r);
    ApartWeights(Pow2(k), Weigh(a), Weigh(b), Weigh(c), Weigh(q), Weigh(r));
  }

  // One step to one side and two to the other.
  lemma PaysMixed(side: Side, k: nat, a: Tree, b: Tree, d: Tree, z: Node, g: Tree, y: Node, q: Tree, x: Node, r: Tree)
    requires Pays(k, a, b, d) && Size(a) + Size(b) == Size(d)
    ensures Pays(k + 3, Make(side, Make(side, q, y, g), z, a), Make(side, b, x, r),
      Make(side, Make(side, q, y, Make(side, g, z, d)), x, r))
  {
    hide Covered, Join, Make, Weigh, Pow2;
    Doubled(k);
    WeighMake(side, q, y, g);
    WeighMake(side, Make(side, q, y, g), z, a);
    WeighMake(side, b, x, r);
    WeighMake(side, g, z, d);
    WeighMake(side, q, y, Make(side, g, z, d));
    WeighMake(side, Make(side, q, y, Make(side, g, z, d)), x, r);
    MixedWeights(Pow2(k), Weigh(a), Weigh(b), Weigh(d), Weigh(g), Weigh(q), Weigh(r));
    var near, far := Weigh(Make(side, Make(side, q, y, g), z, a)), Weigh(Make(side, b, x, r));
    Lighter(16 * Pow2(k), near, far, 8 * Pow2(k), near, far,
      Weigh(Make(side, Make(side, q, y, Make(side, g, z, d)), x, r)));
  }

  lemma {:induction false} Positive(t: Tree)
    ensures Size(t) >= 1 && Potential(t) >= 1
  {
    if t.Fork? {
      Positive(t.l);
      Positive(t.r);
      AtLeastOne(Potential(t.l), Potential(t.r));
      AtLeastOne(Size(t), Times(Potential(t.l), Potential(t.r)));
    }
  }

  // The search ends at a child.
  lemma PaysChild(side: Side, c: Tree, y: Node, q: Tree, x: Node, r: Tree)
    ensures Pays(2, c, Make(side, q, x, r), Make(side, Make(side, c, y, q), x, r))
  {
    Positive(c);
    Positive(q);
    Positive(r);
    assert Pow2(2) == 4 by { Doubled(0); }
    hide Covered, Join, Make, Weigh, Pow2;
    WeighMake(side, q, x, r);
    WeighMake(side, c, y, q);
    WeighMake(side, Make(side, c, y, q), x, r);
    EndAlike(Weigh(c), Weigh(q), Weigh(r));
  }

  // The search ends behind a child, a grandchild on the other side of it, and no further.
  lemma PaysGrandchild(side: Side, z: Node, g: Tree, y: Node, q: Tree, x: Node, r: Tree)
    ensures Pays(3, Make(side, q, y, g), Make(side, Nil, x, r),
      Make(side, Make(side, q, y, Make(side, g, z, Nil)), x, r))
  {
    Positive(g);
    Positive(q);
    Positive(r);
    assert Pow2(3) == 8 by { Doubled(0); }
    assert Weigh(Nil) == Weight(1, 1);
    hide Covered, Join, Make, Weigh, Pow2;
    WeighMake(side, q, y, g);
    WeighMake(side, Nil, x, r);
    WeighMake(side, g, z, Nil);
    WeighMake(side, q, y, Make(side, g, z, Nil));
    WeighMake(side, Make(side, q, y, Make(side, g, z, Nil)), x, r);
    EndMixed(Weigh(g), Weigh(q), Weigh(r));
  }

  lemma PaysRoot(l: Tree, x: Node, r: Tree)
    ensures Pays(1, l, r, Fork(l, x, r))
  {
    Positive(l);
    Positive(r);
    assert Pow2(1) == 2;
    hide Covered, Join;
    EndAlone(Weigh(l), Weigh(r));
  }

  lemma OneStep(cmp: (Key, Key) -> int, key: Key, t: Tree)
    requires t.Fork?
    ensures cmp(key, t.x.key) < 0 ==> |Way(cmp, key, t)| == 1 + |Way(cmp, key, t.l)|
    ensures cmp(key, t.x.key) > 0 ==> |Way(cmp, key, t)| == 1 + |Way(cmp, key, t.r)|
    ensures cmp(key, t.x.key) == 0 ==> |Way(cmp, key, t)| == 1
  {
  }

  lemma NoStep(cmp: (Key, Key) -> int, key: Key)
    ensures Way(cmp, key, Nil) == []
  {
  }

  ghost predicate Paid(cmp: (Key, Key) -> int, key: Key, t: Tree)
    requires t.Fork?
  {
    var p := Part(cmp, key, t);
    Pays(|Way(cmp, key, t)|, p.a, p.b, t)
  }

  lemma {:induction false} SplayIsPaid(cmp: (Key, Key) -> int, key: Key, t: Tree)
    requires t.Fork?
    ensures Paid(cmp, key, t)
    decreases t
  {
    var comp := cmp(key, t.x.key);
    if comp < 0 && t.l.Fork? {
      PaidLeft(cmp, key, t);
    } else if comp > 0 && t.r.Fork? {
      PaidRight(cmp, key, t);
    } else {
      PaysRoot(t.l, t.x, t.r);
    }
  }

  lemma Concluded(cmp: (Key, Key) -> int, key: Key, t: Tree, k: nat, a: Tree, b: Tree)
    requires t.Fork? && |Way(cmp, key, t)| == k && Part(cmp, key, t).a == a && Part(cmp, key, t).b == b
    requires Pays(k, a, b, t)
    ensures Paid(cmp, key, t)
  {
  }

  lemma {:induction false} PaidLeft(cmp: (Key, Key) -> int, key: Key, t: Tree)
    requires t.Fork? && cmp(key, t.x.key) < 0 && t.l.Fork?
    ensures Paid(cmp, key, t)
    decreases t, 0
  {
    hide Pays, Weigh, Way;
    var x, r, l := t.x, t.r, t.l;
    var comp := cmp(key, l.x.key);
    NoStep(cmp, key);
    OneStep(cmp, key, t);
    OneStep(cmp, key, l);
    if comp < 0 && l.l.Fork? {
      var p, k := Part(cmp, key, l.l), |Way(cmp, key, l.l)|;
      SplayIsPaid(cmp, key, l.l);
      PartSize(cmp, key, l.l);
      PaysAlike(L, k, p.a, p.b, l.l, l.x, l.r, x, r);
      Concluded(cmp, key, t, k + 2, p.a, Fork(p.b, l.x, Fork(l.r, x, r)));
    } else if comp > 0 && l.r.Fork? {
      PaidBelowLeft(cmp, key, t);
    } else {
      PaysChild(L, l.l, l.x, l.r, x, r);
      Concluded(cmp, key, t, 2, l.l, Fork(l.r, x, r));
    }
  }

  lemma {:induction false} PaidBelowLeft(cmp: (Key, Key) -> int, key: Key, t: Tree)
    requires t.Fork? && cmp(key, t.x.key) < 0 && t.l.Fork? && cmp(key, t.l.x.key) > 0 && t.l.r.Fork?
    ensures Paid(cmp, key, t)
    decreases t.l, 0
  {
    hide Pays, Weigh, Way;
    var x, r, l, m := t.x, t.r, t.l, t.l.r;
    NoStep(cmp, key);
    OneStep(cmp, key, t);
    OneStep(cmp, key, l);
    OneStep(cmp, key, m);
    if cmp(key, m.x.key) <= 0 {
      var p, k := Part(cmp, key, m), |Way(cmp, key, m)|;
      SplayIsPaid(cmp, key, m);
      PartSize(cmp, key, m);
      PaysApart(L, k, p.a, p.b, m, l.x, l.l, x, r);
      Concluded(cmp, key, t, k + 2, Fork(l.l, l.x, p.a), Fork(p.b, x, r));
    } else if m.r.Nil? {
      PaysGrandchild(L, m.x, m.l, l.x, l.l, x, r);
      Concluded(cmp, key, t, 3, Fork(l.l, l.x, m.l), Fork(Nil, x, r));
    } else {
      var p, k := Part(cmp, key, m.r), |Way(cmp, key, m.r)|;
      SplayIsPaid(cmp, key, m.r);
      PartSize(cmp, key, m.r);
      PaysMixed(L, k, p.a, p.b, m.r, m.x, m.l, l.x, l.l, x, r);
      Concluded(cmp, key, t, k + 3, Fork(Fork(l.l, l.x, m.l), m.x, p.a), Fork(p.b, x, r));
    }
  }

  lemma {:induction false} PaidRight(cmp: (Key, Key) -> int, key: Key, t: Tree)
    requires t.Fork? && cmp(key, t.x.key) > 0 && t.r.Fork?
    ensures Paid(cmp, key, t)
    decreases t, 0
  {
    hide Pays, Weigh, Way;
    var x, r, l := t.x, t.r, t.l;
    var comp := cmp(key, r.x.key);
    NoStep(cmp, key);
    OneStep(cmp, key, t);
    OneStep(cmp, key, r);
    if comp > 0 && r.r.Fork? {
      var p, k := Part(cmp, key, r.r), |Way(cmp, key, r.r)|;
      SplayIsPaid(cmp, key, r.r);
      PartSize(cmp, key, r.r);
      PaysSwapped(k, p.a, p.b, r.r);
      PaysAlike(R, k, p.b, p.a, r.r, r.x, r.l, x, l);
      PaysSwapped(k + 2, p.b, Fork(Fork(l, x, r.l), r.x, p.a), t);
      Concluded(cmp, key, t, k + 2, Fork(Fork(l, x, r.l), r.x, p.a), p.b);
    } else if comp < 0 && r.l.Fork? {
      PaidBelowRight(cmp, key, t);
    } else {
      PaysChild(R, r.r, r.x, r.l, x, l);
      PaysSwapped(2, r.r, Fork(l, x, r.l), t);
      Concluded(cmp, key, t, 2, Fork(l, x, r.l), r.r);
    }
  }

  lemma {:induction false} PaidBelowRight(cmp: (Key, Key) -> int, key: Key, t: Tree)
    requires t.Fork? && cmp(key, t.x.key) > 0 && t.r.Fork? && cmp(key, t.r.x.key) < 0 && t.r.l.Fork?
    ensures Paid(cmp, key, t)
    decreases t.r, 0
  {
    hide Pays, Weigh, Way;
    var x, r, l, m := t.x, t.r, t.l, t.r.l;
    NoStep(cmp, key);
    OneStep(cmp, key, t);
    OneStep(cmp, key, r);
    OneStep(cmp, key, m);
    if cmp(key, m.x.key) >= 0 {
      var p, k := Part(cmp, key, m), |Way(cmp, key, m)|;
      SplayIsPaid(cmp, key, m);
      PartSize(cmp, key, m);
      PaysSwapped(k, p.a, p.b, m);
      PaysApart(R, k, p.b, p.a, m, r.x, r.r, x, l);
      PaysSwapped(k + 2, Fork(p.b, r.x, r.r), Fork(l, x, p.a), t);
      Concluded(cmp, key, t, k + 2, Fork(l, x, p.a), Fork(p.b, r.x, r.r));
    } else if m.l.Nil? {
      PaysGrandchild(R, m.x, m.r, r.x, r.r, x, l);
      PaysSwapped(3, Fork(m.r, r.x, r.r), Fork(l, x, Nil), t);
      Concluded(cmp, key, t, 3, Fork(l, x, Nil), Fork(m.r, r.x, r.r));
    } else {
      var p, k := Part(cmp, key, m.l), |Way(cmp, key, m.l)|;
      SplayIsPaid(cmp, key, m.l);
      PartSize(cmp, key, m.l);
      PaysSwapped(k, p.a, p.b, m.l);
      PaysMixed(R, k, p.b, p.a, m.l, m.x, m.r, r.x, r.r, x, l);
      PaysSwapped(k + 3, Fork(p.b, m.x, Fork(m.r, r.x, r.r)), Fork(l, x, p.a), t);
      Concluded(cmp, key, t, k + 3, Fork(l, x, p.a), Fork(p.b, m.x, Fork(m.r, r.x, r.r)));
    }
  }
}
