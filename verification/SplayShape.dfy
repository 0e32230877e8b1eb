/** Nodes of a splay tree, the memory they make up, and the two spines that a top-down splay
    grows to the left and to the right of the shrinking middle tree. */
module SplayShape {
  import opened Ordering

  class Node {
    const key: Key
    var left: Node?
    var right: Node?

    constructor (key: Key)
      ensures this.key == key && left == null && right == null
    {
      this.key := key;
      left, right := null, null;
    }
  }

  datatype Cell = Cell(left: Node?, right: Node?) {
    ghost function Link(side: Side): Node? { if side == L then left else right }
    ghost function To(side: Side, n: Node?): Cell { if side == L then this.(left := n) else this.(right := n) }
  }

  type Mem = map<Node, Cell>

  ghost function Snap(s: set<Node>): Mem
    reads s
  {
    map n | n in s :: Cell(n.left, n.right)
  }

  datatype Tree = Nil | Fork(l: Tree, x: Node, r: Tree)

  // A spine grown below the header node: x is the latest link, sub its outer subtree.
  datatype Spine = Header | Link(x: Node, sub: Tree, up: Spine)

  ghost function Elems(t: Tree): set<Node> {
    match t
    case Nil => {}
    case Fork(l, x, r) => Elems(l) + {x} + Elems(r)
  }

  ghost function SpineElems(p: Spine): set<Node> {
    match p
    case Header => {}
    case Link(x, sub, up) => {x} + Elems(sub) + SpineElems(up)
  }

  ghost function Inorder(t: Tree): seq<Node> {
    match t
    case Nil => []
    case Fork(l, x, r) => Inorder(l) + [x] + Inorder(r)
  }

  ghost function Ptr(t: Tree): Node? { if t.Nil? then null else t.x }

  // The node whose free link the next node is hung on.
  ghost function Tip(p: Spine, header: Node): Node { if p.Header? then header else p.x }

  ghost predicate Rep(m: Mem, t: Tree) {
    match t
    case Nil => true
    case Fork(l, x, r) =>
      && x in m && m[x] == Cell(Ptr(l), Ptr(r))
      && x !in Elems(l) && x !in Elems(r) && Elems(l) !! Elems(r)
      && Rep(m, l) && Rep(m, r)
  }

  // The left spine descends through right links and the right spine through left ones; the link
  // that the tip will continue with is not yet set.
  ghost predicate SpineRep(side: Side, m: Mem, p: Spine, header: Node) {
    header in m &&
    match p
    case Header => true
    case Link(x, sub, up) =>
      && x in m && m[x].Link(side) == Ptr(sub)
      && Tip(up, header) in m && m[Tip(up, header)].Link(side.Other()) == x
      && x != header && header !in Elems(sub)
      && x !in Elems(sub) && x !in SpineElems(up) && Elems(sub) !! SpineElems(up)
      && Rep(m, sub) && SpineRep(side, m, up, header)
  }

  // The three parts of a splay in progress.
  ghost predicate Parts(m: Mem, header: Node, lp: Spine, t: Tree, rp: Spine) {
    && SpineRep(L, m, lp, header) && Rep(m, t) && SpineRep(R, m, rp, header)
    && header !in Elems(t)
    && Elems(t) !! SpineElems(lp) && Elems(t) !! SpineElems(rp) && SpineElems(lp) !! SpineElems(rp)
  }

  ghost function LeftNodes(p: Spine): seq<Node> {
    if p.Header? then [] else LeftNodes(p.up) + Inorder(p.sub) + [p.x]
  }

  ghost function RightNodes(p: Spine): seq<Node> {
    if p.Header? then [] else [p.x] + Inorder(p.sub) + RightNodes(p.up)
  }

  ghost function Whole(lp: Spine, t: Tree, rp: Spine): seq<Node> {
    LeftNodes(lp) + Inorder(t) + RightNodes(rp)
  }

  // --- Frames ---

  ghost predicate Same(m: Mem, m': Mem, s: set<Node>) {
    forall n | n in s && n in m :: n in m' && m[n] == m'[n]
  }

  lemma {:induction false} Keep(m: Mem, m': Mem, t: Tree)
    requires Rep(m, t) && Same(m, m', Elems(t))
    ensures Rep(m', t)
  {
    if t.Fork? {
      Keep(m, m', t.l);
      Keep(m, m', t.r);
    }
  }

  // The free link of the tip, and the header's link to the other spine, may change.
  lemma {:induction false} KeepSpine(side: Side, m: Mem, m': Mem, p: Spine, header: Node)
    requires SpineRep(side, m, p, header) && Same(m, m', SpineElems(p) - {Tip(p, header)}) && header in m'
    requires p.Link? ==>
      && m'[header].Link(side.Other()) == m[header].Link(side.Other())
      && p.x in m' && m'[p.x].Link(side) == m[p.x].Link(side)
    ensures SpineRep(side, m', p, header)
  {
    if p.Link? {
      Keep(m, m', p.sub);
      KeepSpine(side, m, m', p.up, header);
    }
  }

  // --- The steps of a splay ---

  ghost function Make(side: Side, near: Tree, x: Node, far: Tree): Tree {
    if side == L then Fork(near, x, far) else Fork(far, x, near)
  }

  // y, the child of x on the given side, is rotated above x.
  ghost predicate Rotated(side: Side, m: Mem, m': Mem, x: Node, y: Node) {
    && x in m && y in m && x != y && m[x].Link(side) == y
    && x in m' && y in m'
    && m'[x] == m[x].To(side, m[y].Link(side.Other())) && m'[y] == m[y].To(side.Other(), x)
    && forall n | n in m && n != x && n != y :: n in m' && m'[n] == m[n]
  }

  lemma RotationRep(side: Side, m: Mem, m': Mem, a: Tree, y: Node, b: Tree, x: Node, c: Tree)
    requires Rep(m, Make(side, Make(side, a, y, b), x, c)) && Rotated(side, m, m', x, y)
    ensures Rep(m', Make(side, a, y, Make(side, b, x, c)))
  {
    assert Rep(m, Make(side, a, y, b));
    assert Elems(Make(side, a, y, b)) == Elems(a) + {y} + Elems(b);
    Keep(m, m', a);
    Keep(m, m', b);
    Keep(m, m', c);
  }

  lemma RotationElems(side: Side, a: Tree, y: Node, b: Tree, x: Node, c: Tree)
    ensures Elems(Make(side, Make(side, a, y, b), x, c)) == Elems(a) + Elems(b) + Elems(c) + {x, y}
    ensures Elems(Make(side, a, y, Make(side, b, x, c))) == Elems(a) + Elems(b) + Elems(c) + {x, y}
  {
  }

  lemma SpineOutside(which: Side, side: Side, m: Mem, m': Mem, p: Spine, header: Node, x: Node, y: Node)
    requires SpineRep(which, m, p, header) && Rotated(side, m, m', x, y)
    requires x !in SpineElems(p) && y !in SpineElems(p) && header !in {x, y}
    ensures SpineRep(which, m', p, header)
  {
    assert header in m;
    assert p.Link? ==> p.x in SpineElems(p) && p.x in m;
    KeepSpine(which, m, m', p, header);
  }

  lemma Rotation(side: Side, m: Mem, m': Mem, header: Node, lp: Spine, rp: Spine, a: Tree, y: Node, b: Tree, x: Node,
      c: Tree)
    requires Parts(m, header, lp, Make(side, Make(side, a, y, b), x, c), rp) && Rotated(side, m, m', x, y)
    ensures Parts(m', header, lp, Make(side, a, y, Make(side, b, x, c)), rp)
  {
    hide SpineRep, Rep, Rotated, Make, Elems, SpineElems;
    RotationElems(side, a, y, b, x, c);
    RotationRep(side, m, m', a, y, b, x, c);
    SpineOutside(L, side, m, m', lp, header, x, y);
    SpineOutside(R, side, m, m', rp, header, x, y);
  }

  lemma RotationOrder(side: Side, a: Tree, y: Node, b: Tree, x: Node, c: Tree)
    ensures Inorder(Make(side, Make(side, a, y, b), x, c)) == Inorder(Make(side, a, y, Make(side, b, x, c)))
  {
    if side == L {
      Concat3(Inorder(a) + [y], Inorder(b), [x] + Inorder(c));
      Concat3(Inorder(b), [x], Inorder(c));
      Concat3(Inorder(a) + [y] + Inorder(b), [x], Inorder(c));
    } else {
      Concat3(Inorder(c) + [x], Inorder(b), [y] + Inorder(a));
      Concat3(Inorder(c) + [x], Inorder(b) + [y], Inorder(a));
      Concat3(Inorder(c) + [x], Inorder(b), [y]);
      Concat3(Inorder(b), [y], Inorder(a));
    }
  }

  lemma {:induction false} HeaderIsOutside(side: Side, m: Mem, p: Spine, header: Node)
    requires SpineRep(side, m, p, header)
    ensures header !in SpineElems(p)
  {
    if p.Link? {
      HeaderIsOutside(side, m, p.up, header);
    }
  }

  lemma TipIsAllocated(side: Side, m: Mem, p: Spine, header: Node)
    requires SpineRep(side, m, p, header)
    ensures Tip(p, header) in m
  {
  }

  // What the fields of the root say.
  lemma Look(s: set<Node>, header: Node, lp: Spine, t: Tree, rp: Spine)
    requires Parts(Snap(s), header, lp, t, rp) && t.Fork?
    ensures t.x in s && t.x.left == Ptr(t.l) && t.x.right == Ptr(t.r)
  {
    assert Snap(s)[t.x] == Cell(t.x.left, t.x.right);
  }

  // A child of the root is another node.
  lemma LookBelow(side: Side, s: set<Node>, header: Node, lp: Spine, t: Tree, rp: Spine)
    requires Parts(Snap(s), header, lp, t, rp) && t.Fork?
    ensures var c := if side == L then t.l else t.r;
      c.Fork? ==> c.x in s && c.x != t.x
  {
    var c := if side == L then t.l else t.r;
    assert Rep(Snap(s), c);
    if c.Fork? { assert c.x in Elems(c); }
  }

  // A splay starts with the whole tree in the middle.
  lemma Start(s: set<Node>, header: Node, t: Tree)
    requires Rep(Snap(s), t) && Elems(t) == s && header !in s
    ensures Parts(Snap(s + {header}), header, Header, t, Header) && Whole(Header, t, Header) == Inorder(t)
  {
    Keep(Snap(s), Snap(s + {header}), t);
  }

  // A node x with the subtree b is hung on the tip of a spine.
  lemma Extend(side: Side, m: Mem, m': Mem, p: Spine, header: Node, x: Node, b: Tree)
    requires SpineRep(side, m, p, header) && Rep(m, b) && x in m && m[x].Link(side) == Ptr(b)
    requires x != header && header !in Elems(b) && x !in Elems(b) && x !in SpineElems(p) && Elems(b) !! SpineElems(p)
    requires var tip := Tip(p, header); tip in m && m' == m[tip := m[tip].To(side.Other(), x)]
    ensures SpineRep(side, m', Link(x, b, p), header)
  {
    assert p.Link? ==> p.x in SpineElems(p);
    HeaderIsOutside(side, m, p, header);
    Keep(m, m', b);
    KeepSpine(side, m, m', p, header);
  }

  // The root moves, with its outer subtree, to the tip of a spine.
  lemma ExtendRight(m: Mem, m': Mem, header: Node, lp: Spine, rp: Spine, a: Tree, x: Node, b: Tree)
    requires Parts(m, header, lp, Fork(a, x, b), rp)
    requires var tip := Tip(rp, header); tip in m && m' == m[tip := m[tip].To(L, x)]
    ensures Parts(m', header, lp, a, Link(x, b, rp))
  {
    assert rp.Link? ==> rp.x in SpineElems(rp);
    HeaderIsOutside(L, m, lp, header);
    HeaderIsOutside(R, m, rp, header);
    Extend(R, m, m', rp, header, x, b);
    Keep(m, m', a);
    KeepSpine(L, m, m', lp, header);
  }

  lemma ExtendLeft(m: Mem, m': Mem, header: Node, lp: Spine, rp: Spine, a: Tree, x: Node, b: Tree)
    requires Parts(m, header, lp, Fork(a, x, b), rp)
    requires var tip := Tip(lp, header); tip in m && m' == m[tip := m[tip].To(R, x)]
    ensures Parts(m', header, Link(x, a, lp), b, rp)
  {
    assert lp.Link? ==> lp.x in SpineElems(lp);
    HeaderIsOutside(L, m, lp, header);
    HeaderIsOutside(R, m, rp, header);
    Extend(L, m, m', lp, header, x, a);
    Keep(m, m', b);
    KeepSpine(R, m, m', rp, header);
  }

  lemma LinkOrder(side: Side, lp: Spine, t: Tree, rp: Spine)
    requires t.Fork?
    ensures side == L ==> Whole(lp, t.l, Link(t.x, t.r, rp)) == Whole(lp, t, rp)
    ensures side == R ==> Whole(Link(t.x, t.l, lp), t.r, rp) == Whole(lp, t, rp)
  {
    if side == L {
      Concat3(LeftNodes(lp), Inorder(t.l) + [t.x] + Inorder(t.r), RightNodes(rp));
      Concat3(Inorder(t.l), [t.x], Inorder(t.r));
      Concat3(Inorder(t.l), [t.x] + Inorder(t.r), RightNodes(rp));
      Concat3(LeftNodes(lp), Inorder(t.l), [t.x] + Inorder(t.r) + RightNodes(rp));
    } else {
      Concat3(LeftNodes(lp), Inorder(t.l) + [t.x], Inorder(t.r));
      Concat3(LeftNodes(lp), Inorder(t.l), [t.x]);
    }
  }

  // --- Reassembly ---

  // The spine with t hung on its tip.
  ghost function Close(side: Side, p: Spine, t: Tree): Tree {
    if p.Header? then t else Close(side, p.up, Make(side, p.sub, p.x, t))
  }

  lemma {:induction false} CloseRep(side: Side, m: Mem, p: Spine, header: Node, t: Tree)
    requires SpineRep(side, m, p, header) && Rep(m, t) && Elems(t) !! SpineElems(p)
    requires var tip := Tip(p, header); tip in m && m[tip].Link(side.Other()) == Ptr(t)
    ensures Rep(m, Close(side, p, t)) && m[header].Link(side.Other()) == Ptr(Close(side, p, t))
    ensures Elems(Close(side, p, t)) == Elems(t) + SpineElems(p)
  {
    if p.Link? {
      CloseRep(side, m, p.up, header, Make(side, p.sub, p.x, t));
    }
  }

  lemma {:induction false} CloseOrder(p: Spine, t: Tree)
    ensures Inorder(Close(L, p, t)) == LeftNodes(p) + Inorder(t)
    ensures Inorder(Close(R, p, t)) == Inorder(t) + RightNodes(p)
  {
    if p.Link? {
      CloseOrder(p.up, Make(L, p.sub, p.x, t));
      CloseOrder(p.up, Make(R, p.sub, p.x, t));
      var s, i := Inorder(p.sub), Inorder(t);
      Concat3(LeftNodes(p.up), s + [p.x], i);
      Concat3(LeftNodes(p.up), s, [p.x]);
      Concat3(i + [p.x], s, RightNodes(p.up));
      Concat3(i, [p.x], s + RightNodes(p.up));
      Concat3([p.x], s, RightNodes(p.up));
    }
  }

  ghost function Joined(lp: Spine, t: Tree, rp: Spine): Tree
    requires t.Fork?
  {
    Fork(Close(L, lp, t.l), t.x, Close(R, rp, t.r))
  }

  lemma TipIsInside(p: Spine, header: Node)
    ensures Tip(p, header) in SpineElems(p) + {header}
    ensures p.Link? ==> Tip(p, header) in SpineElems(p)
  {
  }

  lemma HangLeft(m: Mem, m': Mem, header: Node, lp: Spine, t: Tree, rp: Spine)
    requires Parts(m, header, lp, t, rp) && t.Fork?
    requires var tip := Tip(lp, header); tip in m && m' == m[tip := m[tip].To(R, Ptr(t.l))]
    ensures Parts(m', header, lp, t, rp) && m'[Tip(lp, header)].right == Ptr(t.l)
  {
    TipIsInside(lp, header);
    HeaderIsOutside(L, m, lp, header);
    HeaderIsOutside(R, m, rp, header);
    Keep(m, m', t);
    KeepSpine(L, m, m', lp, header);
    KeepSpine(R, m, m', rp, header);
  }

  lemma HangRight(m: Mem, m': Mem, header: Node, lp: Spine, t: Tree, rp: Spine)
    requires Parts(m, header, lp, t, rp) && t.Fork?
    requires var tip := Tip(rp, header); tip in m && m' == m[tip := m[tip].To(L, Ptr(t.r))]
    ensures Parts(m', header, lp, t, rp) && m'[Tip(rp, header)].left == Ptr(t.r)
    ensures Tip(lp, header) in m' && m'[Tip(lp, header)].right == m[Tip(lp, header)].right
  {
    TipIsInside(lp, header);
    TipIsInside(rp, header);
    HeaderIsOutside(L, m, lp, header);
    HeaderIsOutside(R, m, rp, header);
    Keep(m, m', t);
    KeepSpine(L, m, m', lp, header);
    KeepSpine(R, m, m', rp, header);
  }

  // x becomes the root above two trees that are apart.
  lemma RootOver(m: Mem, m': Mem, a: Tree, x: Node, b: Tree)
    requires Rep(m, a) && Rep(m, b) && x !in Elems(a) && x !in Elems(b) && Elems(a) !! Elems(b)
    requires m' == m[x := Cell(Ptr(a), Ptr(b))]
    ensures Rep(m', Fork(a, x, b)) && Elems(Fork(a, x, b)) == Elems(a) + Elems(b) + {x}
  {
    Keep(m, m', a);
    Keep(m, m', b);
  }

  // With the tips linked, the root takes both spines from the header.
  lemma JoinRoot(m: Mem, m': Mem, header: Node, lp: Spine, t: Tree, rp: Spine)
    requires Parts(m, header, lp, t, rp) && t.Fork?
    requires var tl, tr := Tip(lp, header), Tip(rp, header);
      tl in m && m[tl].right == Ptr(t.l) && tr in m && m[tr].left == Ptr(t.r)
    requires m' == m[t.x := Cell(m[header].right, m[header].left)]
    ensures Rep(m', Joined(lp, t, rp))
    ensures Elems(Joined(lp, t, rp)) == SpineElems(lp) + Elems(t) + SpineElems(rp)
  {
    assert Elems(t) == Elems(t.l) + {t.x} + Elems(t.r) && Elems(t.l) !! Elems(t.r) && t.x !in Elems(t.l) + Elems(t.r);
    CloseRep(L, m, lp, header, t.l);
    CloseRep(R, m, rp, header, t.r);
    assert Elems(t) !! SpineElems(lp) && Elems(t) !! SpineElems(rp) && SpineElems(lp) !! SpineElems(rp);
    hide Parts, SpineRep, Close, Tip, SpineElems;
    RootOver(m, m', Close(L, lp, t.l), t.x, Close(R, rp, t.r));
  }

  // The three writes of an insertion at the root, on either side.
  lemma SplitWrites(m: Mem, x: Node, e: Node)
    requires x in m && e in m && x != e
    ensures var m1 := m[e := m[e].To(L, m[x].left)];
      var m2 := m1[e := m1[e].To(R, x)];
      m2[x := m2[x].To(L, null)] == m[x := Cell(null, m[x].right)][e := Cell(m[x].left, x)]
    ensures var m1 := m[e := m[e].To(R, m[x].right)];
      var m2 := m1[e := m1[e].To(L, x)];
      m2[x := m2[x].To(R, null)] == m[x := Cell(m[x].left, null)][e := Cell(x, m[x].right)]
  {
  }

  // e takes the place of the root of t, which goes down to one side.
  lemma SplitRep(m: Mem, m': Mem, t: Tree, e: Node)
    requires Rep(m, t) && t.Fork? && e !in Elems(t)
    ensures m' == m[t.x := Cell(null, Ptr(t.r))][e := Cell(Ptr(t.l), t.x)]
      ==> Rep(m', Fork(t.l, e, Fork(Nil, t.x, t.r)))
    ensures m' == m[t.x := Cell(Ptr(t.l), null)][e := Cell(t.x, Ptr(t.r))]
      ==> Rep(m', Fork(Fork(t.l, t.x, Nil), e, t.r))
    ensures Elems(Fork(t.l, e, Fork(Nil, t.x, t.r))) == Elems(Fork(Fork(t.l, t.x, Nil), e, t.r)) == Elems(t) + {e}
  {
    var m1, m2 := m[t.x := Cell(null, Ptr(t.r))], m[t.x := Cell(Ptr(t.l), null)];
    RootOver(m, m1, Nil, t.x, t.r);
    RootOver(m, m2, t.l, t.x, Nil);
    Keep(m, m1, t.l);
    Keep(m, m2, t.r);
    RootOver(m1, m1[e := Cell(Ptr(t.l), t.x)], t.l, e, Fork(Nil, t.x, t.r));
    RootOver(m2, m2[e := Cell(t.x, Ptr(t.r))], Fork(t.l, t.x, Nil), e, t.r);
  }

  lemma {:induction false} InorderElems(t: Tree)
    ensures Elems(t) == set n | n in Inorder(t)
  {
    if t.Fork? {
      InorderElems(t.l);
      InorderElems(t.r);
    }
  }

  lemma SameElems(a: Tree, b: Tree)
    requires Inorder(a) == Inorder(b)
    ensures Elems(a) == Elems(b)
  {
    InorderElems(a);
    InorderElems(b);
  }

  lemma BothLinks(m: Mem, x: Node, l: Node?, r: Node?)
    requires x in m
    ensures var m1 := m[x := m[x].To(L, l)]; m1[x := m1[x].To(R, r)] == m[x := Cell(l, r)]
  {
  }

  lemma RootIsInside(m: Mem, header: Node, lp: Spine, t: Tree, rp: Spine)
    requires Parts(m, header, lp, t, rp) && t.Fork?
    ensures t.x in m && header in m && t.x != header
  {
  }

  // The root of w, which has no right child, gets r as its right subtree.
  lemma HangRightHalf(m: Mem, w: Tree, r: Tree)
    requires w.Fork? && w.r.Nil? && Rep(m, w) && Rep(m, r) && Elems(w) !! Elems(r)
    ensures Rep(m[w.x := m[w.x].To(R, Ptr(r))], Fork(w.l, w.x, r))
    ensures Inorder(Fork(w.l, w.x, r)) == Inorder(w) + Inorder(r)
  {
    var m' := m[w.x := m[w.x].To(R, Ptr(r))];
    Keep(m, m', w.l);
    Keep(m, m', r);
    assert Inorder(w) == Inorder(w.l) + [w.x];
  }
}
