/** Search order on splay trees, and what a splay leaves at the root. */
module SplayOrder {
  import opened Ordering
  import opened SplayShape

  ghost function Less(cmp: (Key, Key) -> int): (Node, Node) -> bool {
    (x: Node, y: Node) => cmp(x.key, y.key) < 0
  }

  ghost predicate Sorted(cmp: (Key, Key) -> int, q: seq<Node>) {
    Pairwise(Less(cmp), q)
  }

  ghost predicate Below(cmp: (Key, Key) -> int, q: seq<Node>, key: Key) {
    forall x | x in q :: cmp(x.key, key) < 0
  }

  ghost predicate Above(cmp: (Key, Key) -> int, key: Key, q: seq<Node>) {
    forall x | x in q :: cmp(key, x.key) < 0
  }

  // The root carries the key, or is its neighbour in order on the side where the key is missing.
  ghost predicate Nearest(cmp: (Key, Key) -> int, key: Key, t: Tree) {
    && t.Fork?
    && (cmp(key, t.x.key) <= 0 ==> Below(cmp, Inorder(t.l), key))
    && (cmp(key, t.x.key) >= 0 ==> Above(cmp, key, Inorder(t.r)))
  }

  lemma SortedConcat(cmp: (Key, Key) -> int, a: seq<Node>, b: seq<Node>)
    ensures Sorted(cmp, a + b) <==>
      Sorted(cmp, a) && Sorted(cmp, b) && forall x, y | x in a && y in b :: Less(cmp)(x, y)
  {
    PairwiseConcat(Less(cmp), a, b);
  }

  lemma KeyIsUnique(cmp: (Key, Key) -> int, q: seq<Node>, x: Node, y: Node)
    requires Comparator(cmp) && Sorted(cmp, q) && x in q && y in q && cmp(x.key, y.key) == 0
    ensures x == y
  {
    PairwiseTotal(Less(cmp), q, x, y);
    assert cmp(y.key, x.key) < 0 <==> cmp(x.key, y.key) > 0;
  }

  lemma RootSeparates(cmp: (Key, Key) -> int, before: seq<Node>, t: Tree, after: seq<Node>)
    requires t.Fork? && Sorted(cmp, before + Inorder(t) + after)
    ensures Below(cmp, Inorder(t.l), t.x.key) && Above(cmp, t.x.key, Inorder(t.r))
  {
    var a, b, x := Inorder(t.l), Inorder(t.r), t.x;
    SortedConcat(cmp, before + Inorder(t), after);
    SortedConcat(cmp, before, Inorder(t));
    SortedConcat(cmp, a + [x], b);
    SortedConcat(cmp, a, [x]);
    assert x in a + [x] && x in [x];
    assert forall y | y in a :: Less(cmp)(y, x);
    assert forall y | y in b :: Less(cmp)(x, y);
  }

  lemma BelowChain(cmp: (Key, Key) -> int, q: seq<Node>, k: Key, key: Key)
    requires Comparator(cmp) && Below(cmp, q, k) && cmp(key, k) >= 0
    ensures Below(cmp, q, key)
  {
    assert cmp(k, key) <= 0 by {
      assert cmp(key, k) < 0 <==> cmp(k, key) > 0;
    }
  }

  lemma AboveChain(cmp: (Key, Key) -> int, q: seq<Node>, k: Key, key: Key)
    requires Comparator(cmp) && Above(cmp, k, q) && cmp(key, k) <= 0
    ensures Above(cmp, key, q)
  {
  }

  // A search for key has left smaller nodes on the left spine and larger ones on the right.
  ghost predicate Narrowed(cmp: (Key, Key) -> int, key: Key, lp: Spine, t: Tree, rp: Spine, nodes: seq<Node>) {
    && Whole(lp, t, rp) == nodes && t.Fork?
    && Below(cmp, LeftNodes(lp), key) && Above(cmp, key, RightNodes(rp))
  }

  lemma NarrowRight(cmp: (Key, Key) -> int, key: Key, lp: Spine, t: Tree, rp: Spine, nodes: seq<Node>)
    requires Comparator(cmp) && Sorted(cmp, nodes) && Narrowed(cmp, key, lp, t, rp, nodes)
    requires cmp(key, t.x.key) < 0 && t.l.Fork?
    ensures Narrowed(cmp, key, lp, t.l, Link(t.x, t.r, rp), nodes)
  {
    RootSeparates(cmp, LeftNodes(lp), t, RightNodes(rp));
    AboveChain(cmp, Inorder(t.r), t.x.key, key);
    LinkOrder(L, lp, t, rp);
  }

  lemma NarrowLeft(cmp: (Key, Key) -> int, key: Key, lp: Spine, t: Tree, rp: Spine, nodes: seq<Node>)
    requires Comparator(cmp) && Sorted(cmp, nodes) && Narrowed(cmp, key, lp, t, rp, nodes)
    requires cmp(key, t.x.key) > 0 && t.r.Fork?
    ensures Narrowed(cmp, key, Link(t.x, t.l, lp), t.r, rp, nodes)
  {
    RootSeparates(cmp, LeftNodes(lp), t, RightNodes(rp));
    BelowChain(cmp, Inorder(t.l), t.x.key, key);
    LinkOrder(R, lp, t, rp);
  }

  lemma NearestDecides(cmp: (Key, Key) -> int, key: Key, t: Tree)
    requires Comparator(cmp) && Sorted(cmp, Inorder(t)) && Nearest(cmp, key, t)
    ensures t.x in Inorder(t)
    ensures cmp(key, t.x.key) != 0 ==> forall x | x in Inorder(t) :: cmp(key, x.key) != 0
  {
    RootSeparates(cmp, [], t, []);
    assert [] + Inorder(t) + [] == Inorder(t);
    if cmp(key, t.x.key) < 0 {
      AboveChain(cmp, Inorder(t.r), t.x.key, key);
    } else if cmp(key, t.x.key) > 0 {
      BelowChain(cmp, Inorder(t.l), t.x.key, key);
    }
  }

  lemma HalvesBelow(cmp: (Key, Key) -> int, key: Key, t: Tree)
    requires Comparator(cmp) && Sorted(cmp, Inorder(t)) && t.Fork? && cmp(key, t.x.key) == 0
    ensures Sorted(cmp, Inorder(t.l)) && Sorted(cmp, Inorder(t.r)) && Sorted(cmp, Inorder(t.l) + Inorder(t.r))
    ensures Below(cmp, Inorder(t.l), key)
  {
    var a, b, x := Inorder(t.l), Inorder(t.r), t.x;
    assert [] + Inorder(t) + [] == Inorder(t);
    RootSeparates(cmp, [], t, []);
    SortedConcat(cmp, a + [x], b);
    SortedConcat(cmp, a, [x]);
    assert forall y | y in a :: y in a + [x];
    SortedConcat(cmp, a, b);
    BelowChain(cmp, a, x.key, key);
  }

  // When every key is smaller, a splay leaves the largest at the root.
  lemma NoRightChild(cmp: (Key, Key) -> int, key: Key, t: Tree)
    requires Comparator(cmp) && Nearest(cmp, key, t) && Below(cmp, Inorder(t), key)
    ensures t.r.Nil?
  {
    assert t.x in Inorder(t) && cmp(t.x.key, key) < 0;
  }

  ghost function Split(t: Tree, e: Node, comp: int): Tree
    requires t.Fork?
  {
    if comp < 0 then Fork(t.l, e, Fork(Nil, t.x, t.r)) else Fork(Fork(t.l, t.x, Nil), e, t.r)
  }

  lemma SplitSequence(t: Tree, e: Node, comp: int) returns (p: seq<Node>, q: seq<Node>)
    requires t.Fork?
    ensures p == if comp < 0 then Inorder(t.l) else Inorder(t.l) + [t.x]
    ensures q == if comp < 0 then [t.x] + Inorder(t.r) else Inorder(t.r)
    ensures Inorder(t) == p + q && Inorder(Split(t, e, comp)) == p + [e] + q
  {
    p := if comp < 0 then Inorder(t.l) else Inorder(t.l) + [t.x];
    q := if comp < 0 then [t.x] + Inorder(t.r) else Inorder(t.r);
    Concat3(Inorder(t.l), [t.x], Inorder(t.r));
    assert Inorder(Fork(Nil, t.x, t.r)) == [t.x] + Inorder(t.r);
    assert Inorder(Fork(t.l, t.x, Nil)) == Inorder(t.l) + [t.x];
  }

  lemma InsertSorted(cmp: (Key, Key) -> int, p: seq<Node>, e: Node, q: seq<Node>)
    requires Sorted(cmp, p + q) && Below(cmp, p, e.key) && Above(cmp, e.key, q)
    ensures Sorted(cmp, p + [e] + q)
  {
    SortedConcat(cmp, p, q);
    SortedConcat(cmp, p, [e]);
    SortedConcat(cmp, p + [e], q);
  }

  lemma SplitSides(cmp: (Key, Key) -> int, t: Tree, e: Node, comp: int, p: seq<Node>, q: seq<Node>)
    requires Comparator(cmp) && Sorted(cmp, Inorder(t)) && Nearest(cmp, e.key, t) && comp == cmp(e.key, t.x.key) != 0
    requires p == if comp < 0 then Inorder(t.l) else Inorder(t.l) + [t.x]
    requires q == if comp < 0 then [t.x] + Inorder(t.r) else Inorder(t.r)
    ensures Below(cmp, p, e.key) && Above(cmp, e.key, q)
  {
    assert [] + Inorder(t) + [] == Inorder(t);
    RootSeparates(cmp, [], t, []);
    if comp < 0 {
      AboveChain(cmp, Inorder(t.r), t.x.key, e.key);
    } else {
      BelowChain(cmp, Inorder(t.l), t.x.key, e.key);
    }
  }

  lemma SplitOrder(cmp: (Key, Key) -> int, t: Tree, e: Node, comp: int)
    requires Comparator(cmp) && Sorted(cmp, Inorder(t)) && Nearest(cmp, e.key, t) && comp == cmp(e.key, t.x.key) != 0
    ensures Sorted(cmp, Inorder(Split(t, e, comp)))
    ensures Inserted(Inorder(t), e, Inorder(Split(t, e, comp)))
  {
    var p, q := SplitSequence(t, e, comp);
    SplitSides(cmp, t, e, comp, p, q);
    InsertedBetween(p, e, q);
    InsertSorted(cmp, p, e, q);
  }

  // After a splay for the key of a node of the tree, that node is the root.
  lemma RootAt(cmp: (Key, Key) -> int, t: Tree, i: nat, e: Node)
    requires Comparator(cmp) && Sorted(cmp, Inorder(t)) && Nearest(cmp, e.key, t)
    requires i < |Inorder(t)| && Inorder(t)[i] == e
    ensures t.x == e && i == |Inorder(t.l)|
    ensures Inorder(t.r) == Inorder(t)[i + 1..]
  {
    var a, b := Inorder(t.l), Inorder(t.r);
    assert cmp(e.key, e.key) == 0 by {
      assert cmp(e.key, e.key) < 0 <==> cmp(e.key, e.key) > 0;
    }
    NearestDecides(cmp, e.key, t);
    assert cmp(e.key, t.x.key) == 0;
    assert forall j | 0 <= j < |a| :: Inorder(t)[j] == a[j] && a[j] in a;
    assert forall j | 0 <= j < |b| :: Inorder(t)[|a| + 1 + j] == b[j] && b[j] in b;
  }

  lemma JoinOrder(lp: Spine, t: Tree, rp: Spine)
    requires t.Fork?
    ensures Inorder(Joined(lp, t, rp)) == Whole(lp, t, rp)
  {
    CloseOrder(lp, t.l);
    CloseOrder(rp, t.r);
    var a, b := Inorder(t.l), Inorder(t.r);
    Concat3(LeftNodes(lp) + a + [t.x], b, RightNodes(rp));
    Concat3(LeftNodes(lp), a + [t.x], b);
    Concat3(LeftNodes(lp), a, [t.x]);
  }

  // The tree after the child on the given side has been rotated above the root.
  ghost function Turned(side: Side, t: Tree): Tree
    requires t.Fork? && (if side == L then t.l else t.r).Fork?
  {
    if side == L then Fork(t.l.l, t.l.x, Fork(t.l.r, t.x, t.r)) else Fork(Fork(t.l, t.x, t.r.l), t.r.x, t.r.r)
  }

  lemma TurnedOrder(side: Side, lp: Spine, t: Tree, rp: Spine)
    requires t.Fork? && (if side == L then t.l else t.r).Fork?
    ensures Whole(lp, Turned(side, t), rp) == Whole(lp, t, rp)
  {
    if side == L {
      RotationOrder(L, t.l.l, t.l.x, t.l.r, t.x, t.r);
    } else {
      RotationOrder(R, t.r.r, t.r.x, t.r.l, t.x, t.l);
    }
  }

  lemma TurnNarrowed(side: Side, cmp: (Key, Key) -> int, key: Key, lp: Spine, t: Tree, rp: Spine, nodes: seq<Node>)
    requires Narrowed(cmp, key, lp, t, rp, nodes) && (if side == L then t.l else t.r).Fork?
    ensures Narrowed(cmp, key, lp, Turned(side, t), rp, nodes)
  {
    hide Whole;
    TurnedOrder(side, lp, t, rp);
  }

  // Where the search stops, joining the parts leaves the nearest node at the root.
  lemma JoinNearest(cmp: (Key, Key) -> int, key: Key, lp: Spine, t: Tree, rp: Spine, nodes: seq<Node>)
    requires Comparator(cmp) && Sorted(cmp, nodes) && Narrowed(cmp, key, lp, t, rp, nodes)
    requires cmp(key, t.x.key) < 0 ==> t.l.Nil?
    requires cmp(key, t.x.key) > 0 ==> t.r.Nil?
    ensures Nearest(cmp, key, Joined(lp, t, rp)) && Inorder(Joined(lp, t, rp)) == nodes
  {
    RootSeparates(cmp, LeftNodes(lp), t, RightNodes(rp));
    CloseOrder(lp, t.l);
    CloseOrder(rp, t.r);
    if cmp(key, t.x.key) == 0 {
      BelowChain(cmp, Inorder(t.l), t.x.key, key);
      AboveChain(cmp, Inorder(t.r), t.x.key, key);
    }
    JoinOrder(lp, t, rp);
  }
}

module SplayTree {
  import opened Ordering
  import opened SplayShape
  import opened SplayOrder
  import opened SplayDepth
  import opened SplayRuns

  class Head {
    const cmp: (Key, Key) -> int
    var root: Node?
    ghost var shape: Tree
    ghost var members: set<Node>
    // How many rounds the loops of all splays have taken.
    ghost var rounds: nat

    ghost predicate Valid()
      reads this, members
    {
      && Comparator(cmp)
      && members == Elems(shape) && Rep(Snap(members), shape) && root == Ptr(shape)
      && Sorted(cmp, Nodes())
    }

    ghost function Nodes(): seq<Node>
      reads this
    {
      Inorder(shape)
    }

    constructor (cmp: (Key, Key) -> int)
      requires Comparator(cmp)
      ensures Valid() && Nodes() == [] && members == {} && this.cmp == cmp && shape == Nil && rounds == 0
    {
      this.cmp, root, shape, members, rounds := cmp, null, Nil, {}, 0;
    }

    method SetLink(x: Node, side: Side, y: Node?, ghost s: set<Node>)
      requires x in s
      modifies x
      ensures Snap(s) == old(Snap(s))[x := old(Snap(s))[x].To(side, y)]
    {
      if side == L {
        x.left := y;
      } else {
        x.right := y;
      }
    }

    // --- The steps of a splay, on the nodes s, which include the header node ---

    // The pointer writes of a rotation of the left child above the root.
    method TurnRight(tmp: Node, ghost s: set<Node>)
      requires root != null && root in s && tmp in s && root.left == tmp != root
      modifies `root, s
      ensures root == tmp && Rotated(L, old(Snap(s)), Snap(s), old(root), tmp)
    {
      ghost var m := Snap(s);
      assert m[root] == Cell(root.left, root.right) && m[tmp] == Cell(tmp.left, tmp.right);
      root.left := tmp.right;
      tmp.right := root;
      root := tmp;
    }

    method RotateRight(tmp: Node, ghost s: set<Node>, ghost header: Node, ghost lp: Spine, ghost t: Tree,
        ghost rp: Spine)
      requires Parts(Snap(s), header, lp, t, rp) && t.Fork? && t.l.Fork? && root == t.x && tmp == t.l.x
      modifies `root, s
      ensures root == tmp && Parts(Snap(s), header, lp, Fork(t.l.l, tmp, Fork(t.l.r, t.x, t.r)), rp)
    {
      ghost var m := Snap(s);
      Look(s, header, lp, t, rp);
      LookBelow(L, s, header, lp, t, rp);
      hide Parts, Snap, Rotated;
      TurnRight(tmp, s);
      Rotation(L, m, Snap(s), header, lp, rp, t.l.l, tmp, t.l.r, t.x, t.r);
    }

    // The pointer writes of a rotation of the right child above the root.
    method TurnLeft(tmp: Node, ghost s: set<Node>)
      requires root != null && root in s && tmp in s && root.right == tmp != root
      modifies `root, s
      ensures root == tmp && Rotated(R, old(Snap(s)), Snap(s), old(root), tmp)
    {
      ghost var m := Snap(s);
      assert m[root] == Cell(root.left, root.right) && m[tmp] == Cell(tmp.left, tmp.right);
      root.right := tmp.left;
      tmp.left := root;
      root := tmp;
    }

    method RotateLeft(tmp: Node, ghost s: set<Node>, ghost header: Node, ghost lp: Spine, ghost t: Tree,
        ghost rp: Spine)
      requires Parts(Snap(s), header, lp, t, rp) && t.Fork? && t.r.Fork? && root == t.x && tmp == t.r.x
      modifies `root, s
      ensures root == tmp && Parts(Snap(s), header, lp, Fork(Fork(t.l, t.x, t.r.l), tmp, t.r.r), rp)
    {
      ghost var m := Snap(s);
      Look(s, header, lp, t, rp);
      LookBelow(R, s, header, lp, t, rp);
      hide Parts, Snap, Rotated;
      TurnLeft(tmp, s);
      Rotation(R, m, Snap(s), header, lp, rp, t.r.r, tmp, t.r.l, t.x, t.l);
    }

    method LinkLeft(tmp0: Node, ghost s: set<Node>, ghost header: Node, ghost lp: Spine, ghost t: Tree, ghost rp: Spine)
      returns (tmp: Node)
      requires Parts(Snap(s), header, lp, t, rp) && t.Fork? && root == t.x && tmp0 == Tip(rp, header)
      modifies `root, s
      ensures tmp == t.x && root == Ptr(t.l) && Parts(Snap(s), header, lp, t.l, Link(t.x, t.r, rp))
    {
      ghost var m := Snap(s);
      TipIsAllocated(R, m, rp, header);
      assert rp.Link? ==> rp.x in SpineElems(rp);
      tmp0.left := root;
      tmp := root;
      root := root.left;
      assert Snap(s) == m[tmp0 := m[tmp0].To(L, tmp)];
      ExtendRight(m, Snap(s), header, lp, rp, t.l, t.x, t.r);
    }

    method LinkRight(tmp0: Node, ghost s: set<Node>, ghost header: Node, ghost lp: Spine, ghost t: Tree,
        ghost rp: Spine) returns (tmp: Node)
      requires Parts(Snap(s), header, lp, t, rp) && t.Fork? && root == t.x && tmp0 == Tip(lp, header)
      modifies `root, s
      ensures tmp == t.x && root == Ptr(t.r) && Parts(Snap(s), header, Link(t.x, t.l, lp), t.r, rp)
    {
      ghost var m := Snap(s);
      TipIsAllocated(L, m, lp, header);
      assert lp.Link? ==> lp.x in SpineElems(lp);
      tmp0.right := root;
      tmp := root;
      root := root.right;
      assert Snap(s) == m[tmp0 := m[tmp0].To(R, tmp)];
      ExtendLeft(m, Snap(s), header, lp, rp, t.l, t.x, t.r);
    }

    // The subtrees of the root are hung on the ends of the spines.
    method HangTips(header: Node, left: Node, right: Node, ghost s: set<Node>, ghost lp: Spine, ghost t: Tree,
        ghost rp: Spine)
      requires Parts(Snap(s), header, lp, t, rp) && t.Fork? && root == t.x && left == Tip(lp, header)
        && right == Tip(rp, header)
      modifies s
      ensures Parts(Snap(s), header, lp, t, rp) && left in s && right in s
      ensures Snap(s)[left].right == Ptr(t.l) && Snap(s)[right].left == Ptr(t.r)
    {
      ghost var m := Snap(s);
      TipIsAllocated(L, m, lp, header);
      SetLink(left, R, root.left, s);
      HangLeft(m, Snap(s), header, lp, t, rp);
      ghost var m1 := Snap(s);
      TipIsAllocated(R, m1, rp, header);
      SetLink(right, L, root.right, s);
      HangRight(m1, Snap(s), header, lp, t, rp);
    }

    method Assemble(header: Node, left: Node, right: Node, ghost s: set<Node>, ghost lp: Spine, ghost t: Tree,
        ghost rp: Spine)
      requires Parts(Snap(s), header, lp, t, rp) && t.Fork? && root == t.x && left == Tip(lp, header)
        && right == Tip(rp, header)
      modifies s
      ensures Rep(Snap(s), Joined(lp, t, rp))
      ensures Elems(Joined(lp, t, rp)) == SpineElems(lp) + Elems(t) + SpineElems(rp)
    {
      HangTips(header, left, right, s, lp, t, rp);
      ghost var m := Snap(s);
      RootIsInside(m, header, lp, t, rp);
      assert m[header] == Cell(header.left, header.right) && t.x in s;
      BothLinks(m, t.x, header.right, header.left);
      hide Parts, Rep, Snap, Elems, SpineElems, Joined;
      SetLink(root, L, header.right, s);
      SetLink(root, R, header.left, s);
      JoinRoot(m, Snap(s), header, lp, t, rp);
    }

    // --- Top-down splay ---

    // One round of the loop for a smaller key: true when the search is over.
    method SplayLeft(key: Key, right0: Node, ghost s: set<Node>, ghost header: Node,
                     ghost lp: Spine, ghost t0: Tree, ghost rp0: Spine, ghost nodes: seq<Node>)
      returns (done: bool, right: Node, ghost t: Tree, ghost rp: Spine)
      requires Comparator(cmp) && Sorted(cmp, nodes)
      requires Parts(Snap(s), header, lp, t0, rp0) && Narrowed(cmp, key, lp, t0, rp0, nodes)
      requires root == t0.x && right0 == Tip(rp0, header) && cmp(key, root.key) < 0
      modifies `root, `rounds, s
      ensures Parts(Snap(s), header, lp, t, rp) && Narrowed(cmp, key, lp, t, rp, nodes)
      ensures root == t.x && right == Tip(rp, header)
      ensures done ==> cmp(key, root.key) < 0 && t.l.Nil?
      ensures rounds == old(rounds) + 1 && (!done ==> t < t0 && |Way(cmp, key, t)| < |Way(cmp, key, t0)|)
      ensures Splayed(cmp, key, lp, t0, rp0) == if done then Joined(lp, t, rp) else Splayed(cmp, key, lp, t, rp)
    {
      hide Splayed, Joined, Way, Elems, Comparator, Sorted, Inorder;
      RoundLeft(cmp, key, lp, t0, rp0);
      t, rp, right := t0, rp0, right0;
      rounds := rounds + 1;
      var tmp := root.left;
      if tmp == null {
        return true, right, t, rp;
      }
      if cmp(key, tmp.key) < 0 {
        TurnNarrowed(L, cmp, key, lp, t, rp, nodes);
        RotateRight(tmp, s, header, lp, t, rp);
        t := Turned(L, t);
        if root.left == null {
          return true, right, t, rp;
        }
      }
      NarrowRight(cmp, key, lp, t, rp, nodes);
      right := LinkLeft(right, s, header, lp, t, rp);
      t, rp := t.l, Link(t.x, t.r, rp);
      done := false;
    }

    // One round of the loop for a larger key: true when the search is over.
    method SplayRight(key: Key, left0: Node, ghost s: set<Node>, ghost header: Node,
                     ghost lp0: Spine, ghost t0: Tree, ghost rp: Spine, ghost nodes: seq<Node>)
      returns (done: bool, left: Node, ghost t: Tree, ghost lp: Spine)
      requires Comparator(cmp) && Sorted(cmp, nodes)
      requires Parts(Snap(s), header, lp0, t0, rp) && Narrowed(cmp, key, lp0, t0, rp, nodes)
      requires root == t0.x && left0 == Tip(lp0, header) && cmp(key, root.key) > 0
      modifies `root, `rounds, s
      ensures Parts(Snap(s), header, lp, t, rp) && Narrowed(cmp, key, lp, t, rp, nodes)
      ensures root == t.x && left == Tip(lp, header)
      ensures done ==> cmp(key, root.key) > 0 && t.r.Nil?
      ensures rounds == old(rounds) + 1 && (!done ==> t < t0 && |Way(cmp, key, t)| < |Way(cmp, key, t0)|)
      ensures Splayed(cmp, key, lp0, t0, rp) == if done then Joined(lp, t, rp) else Splayed(cmp, key, lp, t, rp)
    {
      hide Splayed, Joined, Way, Elems, Comparator, Sorted, Inorder;
      RoundRight(cmp, key, lp0, t0, rp);
      t, lp, left := t0, lp0, left0;
      rounds := rounds + 1;
      var tmp := root.right;
      if tmp == null {
        return true, left, t, lp;
      }
      if cmp(key, tmp.key) > 0 {
        TurnNarrowed(R, cmp, key, lp, t, rp, nodes);
        RotateLeft(tmp, s, header, lp, t, rp);
        t := Turned(R, t);
        if root.right == null {
          return true, left, t, lp;
        }
      }
      NarrowLeft(cmp, key, lp, t, rp, nodes);
      left := LinkRight(left, s, header, lp, t, rp);
      t, lp := t.r, Link(t.x, t.l, lp);
      done := false;
    }

    // Joins the parts and lets the header go.
    method Gather(header: Node, left: Node, right: Node, ghost s: set<Node>, ghost lp: Spine, ghost t: Tree,
        ghost rp: Spine)
      requires Parts(Snap(s + {header}), header, lp, t, rp) && t.Fork? && root == t.x
      requires left == Tip(lp, header) && right == Tip(rp, header) && Elems(Joined(lp, t, rp)) == s
      modifies s + {header}
      ensures Rep(Snap(s), Joined(lp, t, rp))
    {
      Assemble(header, left, right, s + {header}, lp, t, rp);
      Keep(Snap(s + {header}), Snap(s), Joined(lp, t, rp));
    }

    method Reassemble(key: Key, header: Node, left: Node, right: Node, ghost s: set<Node>, ghost t0: Tree,
                      ghost lp: Spine, ghost t: Tree, ghost rp: Spine) returns (ghost whole: Tree)
      requires Parts(Snap(s + {header}), header, lp, t, rp) && s == Elems(t0)
      requires Comparator(cmp) && Sorted(cmp, Inorder(t0)) && Narrowed(cmp, key, lp, t, rp, Inorder(t0))
      requires root == t.x && left == Tip(lp, header) && right == Tip(rp, header)
      requires (cmp(key, root.key) < 0 ==> t.l.Nil?) && (cmp(key, root.key) > 0 ==> t.r.Nil?)
      modifies s + {header}
      ensures whole.Fork? && root == whole.x && Elems(whole) == s && Rep(Snap(s), whole)
      ensures Inorder(whole) == Inorder(t0) && Nearest(cmp, key, whole) && whole == Joined(lp, t, rp)
    {
      JoinNearest(cmp, key, lp, t, rp, Inorder(t0));
      whole := Joined(lp, t, rp);
      InorderElems(t0);
      InorderElems(whole);
      Gather(header, left, right, s, lp, t, rp);
    }

    // Brings the node nearest to key to the root of the subtree held by the nodes s.
    method Splay(key: Key, ghost s: set<Node>, ghost t0: Tree) returns (ghost whole: Tree)
      requires Comparator(cmp) && Sorted(cmp, Inorder(t0))
      requires t0.Fork? && root == t0.x && s == Elems(t0) && Rep(Snap(s), t0)
      modifies `root, `rounds, s
      ensures whole.Fork? && root == whole.x && Elems(whole) == s && Rep(Snap(s), whole)
      ensures Inorder(whole) == Inorder(t0) && Nearest(cmp, key, whole)
      ensures whole == Splayed(cmp, key, Header, t0, Header)
      ensures rounds <= old(rounds) + |Way(cmp, key, t0)|
    {
      hide Splayed, Joined, Way, Nearest, Comparator, Elems, Rep;
      var node := new Node(key);
      var left, right := node, node;
      ghost var all, nodes := s + {node}, Inorder(t0);
      ghost var lp, t, rp := Header, t0, Header;
      Keep(Snap(s), Snap(all), t0);
      assert Whole(Header, t0, Header) == nodes;
      var done := false;
      while !done && cmp(key, root.key) != 0
        invariant Parts(Snap(all), node, lp, t, rp) && Narrowed(cmp, key, lp, t, rp, nodes)
        invariant root == t.x && left == Tip(lp, node) && right == Tip(rp, node)
        invariant done ==> (cmp(key, root.key) < 0 ==> t.l.Nil?) && (cmp(key, root.key) > 0 ==> t.r.Nil?)
        invariant Splayed(cmp, key, Header, t0, Header) ==
          if done then Joined(lp, t, rp) else Splayed(cmp, key, lp, t, rp)
        invariant rounds + (if done then 0 else |Way(cmp, key, t)|) <= old(rounds) + |Way(cmp, key, t0)|
        decreases !done, t
      {
        WayBegins(cmp, key, t);
        if cmp(key, root.key) < 0 {
          done, right, t, rp := SplayLeft(key, right, all, node, lp, t, rp, nodes);
        } else {
          done, left, t, lp := SplayRight(key, left, all, node, lp, t, rp, nodes);
        }
      }
      if !done { FoundAtRoot(cmp, key, lp, t, rp); }
      whole := Reassemble(key, node, left, right, s, t0, lp, t, rp);
    }

    // --- The operations on the whole tree ---

    // The tree is rearranged around the key; its order does not change.
    method SplayAll(key: Key)
      requires Valid() && root != null
      modifies `root, `shape, `rounds, members
      ensures Valid() && root != null && Nodes() == old(Nodes()) && Nearest(cmp, key, shape)
      ensures shape == Splayed(cmp, key, Header, old(shape), Header)
      ensures rounds <= old(rounds) + |Way(cmp, key, old(shape))|
    {
      shape := Splay(key, members, shape);
    }

    method Find(key: Key) returns (r: Node?)
      requires Valid()
      modifies `root, `shape, `rounds, members
      ensures Valid() && Nodes() == old(Nodes())
      ensures r != null ==> r == root && r in Nodes() && cmp(key, r.key) == 0
      ensures r == null ==> forall x | x in Nodes() :: cmp(key, x.key) != 0
      ensures shape == After(cmp, old(shape), Seek(key))
      ensures rounds <= old(rounds) + Cost(cmp, old(shape), Seek(key))
    {
      if root == null {
        return null;
      }
      SplayAll(key);
      NearestDecides(cmp, key, shape);
      if cmp(key, root.key) == 0 {
        return root;
      }
      return null;
    }

    // elm becomes the root, between the two halves of the splayed tree.
    method SplitRoot(elm: Node, comp: int)
      requires root != null && elm !in members && shape.Fork? && root == shape.x
      requires members == Elems(shape) && Rep(Snap(members), shape)
      modifies members, elm
      ensures Rep(Snap(members + {elm}), Split(shape, elm, comp))
      ensures Elems(Split(shape, elm, comp)) == members + {elm}
    {
      ghost var s, t := members + {elm}, shape;
      ghost var m := Snap(s);
      Keep(Snap(members), m, t);
      assert m[root] == Cell(root.left, root.right);
      hide Rep, Elems, Snap;
      if comp < 0 {
        SetLink(elm, L, root.left, s);
        SetLink(elm, R, root, s);
        SetLink(root, L, null, s);
      } else {
        SetLink(elm, R, root.right, s);
        SetLink(elm, L, root, s);
        SetLink(root, R, null, s);
      }
      SplitWrites(m, t.x, elm);
      SplitRep(m, Snap(s), t, elm);
    }

    method InsertAtRoot(elm: Node, comp: int)
      requires Valid() && elm !in members && root != null
      requires Nearest(cmp, elm.key, shape) && comp == cmp(elm.key, root.key) != 0
      modifies this, members, elm
      ensures Valid() && root == elm && Inserted(old(Nodes()), elm, Nodes()) && members == old(members) + {elm}
      ensures shape == Split(old(shape), elm, comp) && rounds == old(rounds)
    {
      hide Rep, Snap, Inorder, Elems, Above, Pairwise;
      SplitOrder(cmp, shape, elm, comp);
      hide Comparator, Sorted, Inorder, Nearest, Inserted, Rep, Elems;
      SplitRoot(elm, comp);
      shape := Split(shape, elm, comp);
      root := elm;
      members := members + {elm};
    }

    method Insert(elm: Node) returns (r: Node?)
      requires Valid()
      modifies this, members, elm
      ensures Valid()
      ensures elm in old(Nodes()) ==> r == elm
      ensures r != null ==> r in old(Nodes()) && cmp(elm.key, r.key) == 0 && Nodes() == old(Nodes())
      ensures r == null ==> forall x | x in old(Nodes()) :: cmp(elm.key, x.key) != 0
      ensures r == null ==> Inserted(old(Nodes()), elm, Nodes()) && members == old(members) + {elm}
      ensures shape == After(cmp, old(shape), Add(elm))
      ensures rounds <= old(rounds) + Cost(cmp, old(shape), Add(elm))
    {
      ghost var nodes := Nodes();
      if root == null {
        elm.left, elm.right := null, null;
        shape, root, members := Fork(Nil, elm, Nil), elm, {elm};
        InsertedBetween([], elm, []);
        return null;
      }
      SplayAll(elm.key);
      NearestDecides(cmp, elm.key, shape);
      var comp := cmp(elm.key, root.key);
      ComparesEqual(cmp, elm.key);
      InorderElems(shape);
      if comp == 0 {
        if elm in nodes { KeyIsUnique(cmp, nodes, elm, root); }
        return root;
      }
      InsertAtRoot(elm, comp);
      return null;
    }

    // The left half, splayed for the same key, has no right child and takes the right half there.
    method JoinHalves(key: Key) returns (ghost whole: Tree)
      requires Valid() && shape.Fork? && shape.l.Fork? && cmp(key, shape.x.key) == 0
      modifies `root, `rounds, members
      ensures rounds <= old(rounds) + |Way(cmp, key, shape.l)|
      ensures root == Ptr(whole) && Rep(Snap(members), whole) && Elems(whole) <= members
      ensures Inorder(whole) == Inorder(shape.l) + Inorder(shape.r) && whole == Uprooted(cmp, shape, key)
    {
      hide Inorder, Comparator, Same;
      ghost var l, r := shape.l, shape.r;
      var tmp := root.right;
      root := root.left;
      HalvesBelow(cmp, key, shape);
      Keep(Snap(members), Snap(Elems(l)), l);
      ghost var m := Snap(members);
      ghost var w := Splay(key, Elems(l), l);
      NoRightChild(cmp, key, w);
      Keep(m, Snap(members), r);
      Keep(Snap(Elems(l)), Snap(members), w);
      ghost var m1 := Snap(members);
      SetLink(root, R, tmp, members);
      HangRightHalf(m1, w, r);
      whole := Fork(w.l, w.x, r);
    }

    method RemoveRoot(key: Key)
      requires Valid() && root != null && cmp(key, root.key) == 0
      modifies this, members
      ensures Valid() && old(shape).Fork? && Nodes() == Inorder(old(shape).l) + Inorder(old(shape).r)
      ensures shape == Uprooted(cmp, old(shape), key) && rounds <= old(rounds) + |Way(cmp, key, old(shape).l)|
    {
      hide Elems, Same, Pairwise;
      HalvesBelow(cmp, key, shape);
      if root.left == null {
        root := root.right;
        shape := shape.r;
      } else {
        shape := JoinHalves(key);
      }
      Keep(Snap(members), Snap(Elems(shape)), shape);
      members := Elems(shape);
    }

    // What is handed back is the argument, which is the node taken out exactly when it was in the tree.
    method Remove(elm: Node) returns (r: Node?)
      requires Valid()
      modifies this, members
      ensures Valid()
      ensures r != null ==>
        r == elm && exists x | x in old(Nodes()) :: cmp(elm.key, x.key) == 0 && Removed(old(Nodes()), x, Nodes())
      ensures r == null ==> Nodes() == old(Nodes()) && forall x | x in Nodes() :: cmp(elm.key, x.key) != 0
      ensures elm in old(Nodes()) ==> r == elm
      ensures r != null ==> (Removed(old(Nodes()), r, Nodes()) <==> elm in old(Nodes()))
      ensures shape == After(cmp, old(shape), Drop(elm.key))
      ensures rounds <= old(rounds) + Cost(cmp, old(shape), Drop(elm.key))
    {
      ghost var nodes := Nodes();
      ComparesEqual(cmp, elm.key);
      if root == null {
        return null;
      }
      SplayAll(elm.key);
      NearestDecides(cmp, elm.key, shape);
      if cmp(elm.key, root.key) != 0 {
        return null;
      }
      InsertedBetween(Inorder(shape.l), shape.x, Inorder(shape.r));
      assert Inorder(shape) == Inorder(shape.l) + [shape.x] + Inorder(shape.r);
      if elm in nodes { KeyIsUnique(cmp, nodes, elm, root); }
      RemoveRoot(elm.key);
      return elm;
    }

    // --- Minimum, maximum and successor ---

    method SplayMin(header: Node, ghost key: Key) returns (right: Node, ghost t: Tree, ghost rp: Spine)
      requires Valid() && root != null && header !in members && header.left == header.right == null
      modifies `root, `rounds, members, header
      ensures Parts(Snap(members + {header}), header, Header, t, rp) && Whole(Header, t, rp) == Nodes()
      ensures t.Fork? && t.l.Nil? && root == t.x && right == Tip(rp, header)
      ensures Splayed(Towards(-1), key, Header, shape, Header) == Joined(Header, t, rp)
      ensures rounds <= old(rounds) + |Way(Towards(-1), key, shape)|
    {
      hide Way, Splayed, Joined, Parts, Snap, Whole, Elems, Inorder, Sorted, Comparator;
      ghost var s, nodes := members + {header}, Nodes();
      right, t, rp := header, shape, Header;
      Start(members, header, t);
      Look(s, header, Header, t, rp);
      while root.left != null
        invariant Parts(Snap(s), header, Header, t, rp) && Whole(Header, t, rp) == nodes
        invariant t.Fork? && root == t.x && root.left == Ptr(t.l) && right == Tip(rp, header)
        invariant Splayed(Towards(-1), key, Header, shape, Header) == Splayed(Towards(-1), key, Header, t, rp)
        invariant rounds + |Way(Towards(-1), key, t)| <= old(rounds) + |Way(Towards(-1), key, shape)|
        decreases t
      {
        rounds := rounds + 1;
        RoundLeft(Towards(-1), key, Header, t, rp);
        TurnedOrder(L, Header, t, rp);
        RotateRight(root.left, s, header, Header, t, rp);
        t := Turned(L, t);
        Look(s, header, Header, t, rp);
        if root.left == null {
          break;
        }
        LinkOrder(L, Header, t, rp);
        right := LinkLeft(right, s, header, Header, t, rp);
        t, rp := t.l, Link(t.x, t.r, rp);
        Look(s, header, Header, t, rp);
      }
      if Splayed(Towards(-1), key, Header, shape, Header) != Joined(Header, t, rp) {
        RoundLeft(Towards(-1), key, Header, t, rp);
      }
    }

    method SplayMax(header: Node, ghost key: Key) returns (left: Node, ghost lp: Spine, ghost t: Tree)
      requires Valid() && root != null && header !in members && header.left == header.right == null
      modifies `root, `rounds, members, header
      ensures Parts(Snap(members + {header}), header, lp, t, Header) && Whole(lp, t, Header) == Nodes()
      ensures t.Fork? && t.r.Nil? && root == t.x && left == Tip(lp, header)
      ensures Splayed(Towards(1), key, Header, shape, Header) == Joined(lp, t, Header)
      ensures rounds <= old(rounds) + |Way(Towards(1), key, shape)|
    {
      hide Way, Splayed, Joined, Parts, Snap, Whole, Elems, Inorder, Sorted, Comparator;
      ghost var s, nodes := members + {header}, Nodes();
      left, lp, t := header, Header, shape;
      Start(members, header, t);
      Look(s, header, lp, t, Header);
      while root.right != null
        invariant Parts(Snap(s), header, lp, t, Header) && Whole(lp, t, Header) == nodes
        invariant t.Fork? && root == t.x && root.right == Ptr(t.r) && left == Tip(lp, header)
        invariant Splayed(Towards(1), key, Header, shape, Header) == Splayed(Towards(1), key, lp, t, Header)
        invariant rounds + |Way(Towards(1), key, t)| <= old(rounds) + |Way(Towards(1), key, shape)|
        decreases t
      {
        rounds := rounds + 1;
        RoundRight(Towards(1), key, lp, t, Header);
        TurnedOrder(R, lp, t, Header);
        RotateLeft(root.right, s, header, lp, t, Header);
        t := Turned(R, t);
        Look(s, header, lp, t, Header);
        if root.right == null {
          break;
        }
        LinkOrder(R, lp, t, Header);
        left := LinkRight(left, s, header, lp, t, Header);
        lp, t := Link(t.x, t.l, lp), t.r;
        Look(s, header, lp, t, Header);
      }
      if Splayed(Towards(1), key, Header, shape, Header) != Joined(lp, t, Header) {
        RoundRight(Towards(1), key, lp, t, Header);
      }
    }

    method Settle(header: Node, left: Node, right: Node, ghost lp: Spine, ghost t: Tree, ghost rp: Spine)
      requires Parts(Snap(members + {header}), header, lp, t, rp) && t.Fork? && root == t.x
      requires left == Tip(lp, header) && right == Tip(rp, header)
      requires members == Elems(shape) && Inorder(Joined(lp, t, rp)) == Nodes()
      modifies `shape, members, header
      ensures shape == Joined(lp, t, rp) && members == Elems(shape) && Rep(Snap(members), shape)
    {
      SameElems(shape, Joined(lp, t, rp));
      hide Parts, Rep, Snap, Inorder, Elems, Joined;
      Gather(header, left, right, members, lp, t, rp);
      shape := Joined(lp, t, rp);
    }

    // val is -1 for the minimum and 1 for the maximum; the loop of the original does not end for 0.
    method MinMax(val: int) returns (r: Node?)
      requires Valid() && val != 0
      modifies `root, `shape, `rounds, members
      ensures Valid() && Nodes() == old(Nodes()) && r == root && (r == null <==> Nodes() == [])
      ensures r != null && val < 0 ==> r == Nodes()[0] && r.left == null
      ensures r != null && val > 0 ==> r == Nodes()[|Nodes()| - 1] && r.right == null
      ensures var op := End(if val < 0 then -1 else 1);
        shape == After(cmp, old(shape), op) && rounds <= old(rounds) + Cost(cmp, old(shape), op)
    {
      hide Comparator, Way;
      if root == null {
        return null;
      }
      var node := new Node(root.key);
      ghost var lp, rp, t := Header, Header, shape;
      var left, right := node, node;
      if val < 0 {
        right, t, rp := SplayMin(node, root.key);
      } else {
        left, lp, t := SplayMax(node, root.key);
      }
      JoinOrder(lp, t, rp);
      Settle(node, left, right, lp, t, rp);
      return root;
    }

    // elm is a node of the tree, as the original takes for granted.
    method Next(elm0: Node, ghost i: nat) returns (elm: Node?, ghost steps: nat)
      requires Valid() && i < |Nodes()| && Nodes()[i] == elm0
      modifies `root, `shape, `rounds, members
      ensures Valid() && Nodes() == old(Nodes()) && root == elm0
      ensures elm == if i + 1 < |Nodes()| then Nodes()[i + 1] else null
      ensures shape == After(cmp, old(shape), Seek(elm0.key)) && steps == LeftEdge(shape.r)
      ensures rounds <= old(rounds) + Cost(cmp, old(shape), Seek(elm0.key))
    {
      elm, steps := elm0, 0;
      InorderElems(shape);
      SplayAll(elm.key);
      ghost var t := shape;
      RootAt(cmp, t, i, elm);
      if elm.right != null {
        elm, steps := elm.right, 1;
        t := t.r;
        while elm.left != null
          invariant Rep(Snap(members), t) && t.Fork? && elm == t.x && Inorder(t)[0] == Inorder(shape.r)[0]
          invariant steps + LeftEdge(t.l) == LeftEdge(shape.r)
          decreases t
        {
          elm, steps := elm.left, steps + 1;
          t := t.l;
        }
      } else {
        elm := null;
      }
    }

    method Foreach() returns (visited: seq<Node>)
      requires Valid()
      modifies `root, `shape, `rounds, members
      ensures Valid() && Nodes() == old(Nodes()) && visited == Nodes()
    {
      hide Rep, Inorder, Elems, Comparator, Sorted;
      visited := [];
      ghost var nodes := Nodes();
      var x := MinMax(-1);
      while x != null
        invariant Valid() && members == old(members) && Nodes() == nodes && |visited| <= |nodes|
          && visited == nodes[..|visited|]
        invariant if |visited| < |nodes| then x == nodes[|visited|] else x == null
        decreases |nodes| - |visited|
      {
        visited := visited + [x];
        ghost var steps: nat;
        x, steps := Next(x, |visited| - 1);
      }
    }
  }
  // A node outside the tree with the key of a node inside: the one inside is taken out, the other handed back.
  method RemoveByKey(cmp: (Key, Key) -> int, key: Key)
    returns (head: Head, inside: Node, outside: Node, r: Node?, ghost before: seq<Node>)
    requires Comparator(cmp)
    ensures head.Valid() && before == [inside] && head.Nodes() == [] && r == outside != inside
  {
    head := new Head(cmp);
    inside := new Node(key);
    outside := new Node(key);
    r := head.Insert(inside);
    before := head.Nodes();
    r := head.Remove(outside);
  }
}
