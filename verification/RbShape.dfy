/** Nodes of an intrusive red-black tree, and what it means for their pointer fields to lay out a
    given tree. A snapshot turns the heap into a map from nodes to cells, so that all reasoning
    about links is about maps; the class RbTree then only has to relate each field assignment
    to one map update. */
module RbShape {
  import opened Ordering

  datatype Color = Black | Red

  class Node {
    const key: Key
    var left: Node?
    var right: Node?
    var parent: Node?
    var color: Color

    constructor (key: Key)
      ensures this.key == key
    {
      this.key := key;
      left, right, parent, color := null, null, null, Black;
    }
  }

  datatype Cell = Cell(left: Node?, right: Node?, parent: Node?, color: Color) {
    ghost function Link(side: Side): Node? { if side == L then left else right }
    ghost function To(side: Side, n: Node?): Cell { if side == L then this.(left := n) else this.(right := n) }
  }

  type Mem = map<Node, Cell>

  ghost function At(n: Node): Cell
    reads n
  {
    Cell(n.left, n.right, n.parent, n.color)
  }

  ghost function Snap(s: set<Node>): Mem
    reads s
  {
    map n | n in s :: At(n)
  }

  // --- Trees, and trees with one subtree cut out ---

  datatype Tree = Nil | Fork(l: Tree, x: Node, c: Color, r: Tree)

  // A path from a hole up to the root: the hole is the `side` child of x, whose other child is sib.
  datatype Path = Top | Step(side: Side, x: Node, c: Color, sib: Tree, up: Path)

  ghost function Make(side: Side, near: Tree, x: Node, c: Color, far: Tree): Tree {
    if side == L then Fork(near, x, c, far) else Fork(far, x, c, near)
  }

  ghost function ZipUp(z: Path, t: Tree): Tree
    requires z.Step?
  {
    Make(z.side, t, z.x, z.c, z.sib)
  }

  ghost function Elems(t: Tree): set<Node> {
    match t
    case Nil => {}
    case Fork(l, x, _, r) => Elems(l) + {x} + Elems(r)
  }

  ghost function PathElems(z: Path): set<Node> {
    match z
    case Top => {}
    case Step(_, x, _, sib, up) => {x} + Elems(sib) + PathElems(up)
  }

  ghost function Ptr(t: Tree): Node? { if t.Nil? then null else t.x }

  ghost function Up(z: Path): Node? { if z.Top? then null else z.x }

  ghost predicate Rep(m: Mem, t: Tree, par: Node?) {
    match t
    case Nil => true
    case Fork(l, x, c, r) =>
      && x in m && m[x] == Cell(Ptr(l), Ptr(r), par, c)
      && x !in Elems(l) && x !in Elems(r) && Elems(l) !! Elems(r)
      && Rep(m, l, x) && Rep(m, r, x)
  }

  ghost predicate PathRep(m: Mem, z: Path, hole: Node?, root: Node?) {
    match z
    case Top => hole == root
    case Step(side, x, c, sib, up) =>
      && x in m && m[x].Link(side) == hole && m[x].Link(side.Other()) == Ptr(sib)
      && m[x].parent == Up(up) && m[x].color == c
      && x !in Elems(sib) && x !in PathElems(up) && Elems(sib) !! PathElems(up)
      && Rep(m, sib, x) && PathRep(m, up, x, root)
  }

  // The memory holds the tree t at the hole of z, and z leads up to the head's root pointer.
  ghost predicate Focus(m: Mem, root: Node?, z: Path, t: Tree) {
    PathRep(m, z, Ptr(t), root) && Rep(m, t, Up(z)) && Elems(t) !! PathElems(z)
  }

  // --- Frames ---

  ghost predicate Same(m: Mem, m': Mem, s: set<Node>) {
    forall n | n in s && n in m :: n in m' && m[n] == m'[n]
  }

  // Only the parent link of the root of t may change.
  lemma {:induction false} Keep(m: Mem, m': Mem, t: Tree, par: Node?, par': Node?)
    requires Rep(m, t, par)
    requires Same(m, m', Elems(t) - {Ptr(t)})
    requires t.Fork? ==> t.x in m' && m'[t.x] == m[t.x].(parent := par')
    ensures Rep(m', t, par')
  {
    if t.Fork? {
      Keep(m, m', t.l, t.x, t.x);
      Keep(m, m', t.r, t.x, t.x);
    }
  }

  lemma {:induction false} KeepPath(m: Mem, m': Mem, z: Path, hole: Node?, root: Node?)
    requires PathRep(m, z, hole, root)
    requires Same(m, m', PathElems(z))
    ensures PathRep(m', z, hole, root)
  {
    if z.Step? {
      Keep(m, m', z.sib, z.x, z.x);
      KeepPath(m, m', z.up, z.x, root);
    }
  }

  // --- Moving the focus ---

  lemma Zip(m: Mem, root: Node?, z: Path, t: Tree)
    requires z.Step?
    ensures Focus(m, root, z, t) <==> Focus(m, root, z.up, ZipUp(z, t))
  {
  }

  // The same memory seen from the sibling of the hole.
  ghost function Swing(z: Path, t: Tree): Path
    requires z.Step?
  {
    Step(z.side.Other(), z.x, z.c, t, z.up)
  }

  lemma SwingFocus(m: Mem, root: Node?, z: Path, t: Tree)
    requires z.Step? && Focus(m, root, z, t)
    ensures Focus(m, root, Swing(z, t), z.sib)
  {
    Zip(m, root, z, t);
    Zip(m, root, Swing(z, t), z.sib);
  }

  // What the fields around the focus say.
  lemma Look(s: set<Node>, root: Node?, z: Path, t: Tree)
    requires Focus(Snap(s), root, z, t)
    ensures t.Fork? ==> t.x in s && At(t.x) == Cell(Ptr(t.l), Ptr(t.r), Up(z), t.c)
    ensures z.Top? ==> Ptr(t) == root
    ensures z.Step? ==>
      && z.x in s && z.x != Ptr(t)
      && At(z.x).Link(z.side) == Ptr(t) && At(z.x).Link(z.side.Other()) == Ptr(z.sib)
      && z.x.parent == Up(z.up) && z.x.color == z.c
      && (Ptr(t) == Ptr(z.sib) ==> t.Nil? && z.sib.Nil?)
      && (z.sib.Fork? ==> z.sib.x in s && At(z.sib.x) == Cell(Ptr(z.sib.l), Ptr(z.sib.r), z.x, z.sib.c))
  {
    var m := Snap(s);
    if t.Fork? { assert m[t.x] == At(t.x); }
    if z.Step? {
      assert m[z.x] == At(z.x);
      assert z.x in PathElems(z);
      if z.sib.Fork? { assert z.sib.x in PathElems(z) && m[z.sib.x] == At(z.sib.x); }
    }
  }

  lemma {:induction false} RootIsAbove(m: Mem, z: Path, hole: Node?, root: Node?)
    requires PathRep(m, z, hole, root) && z.Step?
    ensures root != null && root in PathElems(z)
  {
    if z.up.Step? {
      RootIsAbove(m, z.up, z.x, root);
    }
  }

  // The focus is at the root exactly when it holds the root pointer.
  lemma AtRoot(m: Mem, root: Node?, z: Path, t: Tree)
    requires Focus(m, root, z, t)
    ensures z.Top? <==> Ptr(t) == root
  {
    if z.Step? {
      RootIsAbove(m, z, Ptr(t), root);
      assert t.Fork? ==> t.x in Elems(t);
    }
  }

  lemma LookNephews(s: set<Node>, root: Node?, z: Path, t: Tree)
    requires Focus(Snap(s), root, z, t) && z.Step? && z.sib.Fork?
    ensures z.sib.l.Fork? ==> z.sib.l.x in s && z.sib.l.x.color == z.sib.l.c
    ensures z.sib.r.Fork? ==> z.sib.r.x in s && z.sib.r.x.color == z.sib.r.c
  {
    var m := Snap(s);
    assert Rep(m, z.sib, z.x);
    assert Rep(m, z.sib.l, z.sib.x) && Rep(m, z.sib.r, z.sib.x);
    assert z.sib.l.Fork? ==> m[z.sib.l.x] == At(z.sib.l.x);
    assert z.sib.r.Fork? ==> m[z.sib.r.x] == At(z.sib.r.x);
  }

  // --- One assignment at the focus ---

  lemma Paint(m: Mem, root: Node?, z: Path, t: Tree, c: Color)
    requires t.Fork? && Focus(m, root, z, t)
    ensures Focus(m[t.x := m[t.x].(color := c)], root, z, t.(c := c))
  {
    var m' := m[t.x := m[t.x].(color := c)];
    Keep(m, m', t.l, t.x, t.x);
    Keep(m, m', t.r, t.x, t.x);
    KeepPath(m, m', z, t.x, root);
  }

  ghost function Coloured(m: Mem, x: Node, c: Color): Mem
    requires x in m
  {
    m[x := m[x].(color := c)]
  }

  lemma PaintParent(m: Mem, root: Node?, z: Path, t: Tree, c: Color)
    requires z.Step? && Focus(m, root, z, t)
    ensures Focus(Coloured(m, z.x, c), root, z.(c := c), t)
  {
    Zip(m, root, z, t);
    Paint(m, root, z.up, ZipUp(z, t), c);
    Zip(Coloured(m, z.x, c), root, z.(c := c), t);
  }

  lemma PaintSibling(m: Mem, root: Node?, z: Path, t: Tree, c: Color)
    requires z.Step? && z.sib.Fork? && Focus(m, root, z, t)
    ensures Focus(Coloured(m, z.sib.x, c), root, z.(sib := z.sib.(c := c)), t)
  {
    SwingFocus(m, root, z, t);
    Paint(m, root, Swing(z, t), z.sib, c);
    SwingFocus(Coloured(m, z.sib.x, c), root, Swing(z, t), z.sib.(c := c));
  }

  // The hole of z is filled with another pointer.
  lemma Rehang(m: Mem, m': Mem, z: Path, hole: Node?, hole': Node?, root: Node?, root': Node?)
    requires PathRep(m, z, hole, root)
    requires Same(m, m', PathElems(z) - {Up(z)})
    requires if z.Top? then root' == hole' else root' == root && z.x in m' && m'[z.x] == m[z.x].To(z.side, hole')
    ensures PathRep(m', z, hole', root')
  {
    if z.Step? {
      Keep(m, m', z.sib, z.x, z.x);
      KeepPath(m, m', z.up, z.x, root);
    }
  }

  // Whoever pointed down at e now points at y: its parent p, or the head.
  ghost predicate Redirected(m: Mem, m': Mem, p: Node?, e: Node?, y: Node?, root: Node?, root': Node?) {
    if p == null then
      root' == y
    else
      && root' == root && p in m && p in m'
      && m'[p] == if m[p].left == e then m[p].(left := y) else m[p].(right := y)
  }

  lemma Redirect(m: Mem, m': Mem, z: Path, e: Node, y: Node?, root: Node?, root': Node?)
    requires PathRep(m, z, e, root) && e !in PathElems(z)
    requires Same(m, m', PathElems(z) - {Up(z)})
    requires Redirected(m, m', Up(z), e, y, root, root')
    ensures PathRep(m', z, y, root')
  {
    Rehang(m, m', z, e, y, root, root');
  }

  // --- Rotations ---

  // The memory after e has gone down on the given side and its other child y has come up.
  ghost predicate Rotated(side: Side, m: Mem, m': Mem, e: Node, root: Node?, root': Node?)
    requires e in m
  {
    var y, p := m[e].Link(side.Other()), m[e].parent;
    && y != null && y in m && m'.Keys == m.Keys
    && var b := m[y].Link(side);
    && m'[e] == m[e].To(side.Other(), b).(parent := y)
    && m'[y] == m[y].To(side, e).(parent := p)
    && (b != null ==> b in m && m'[b] == m[b].(parent := e))
    && Redirected(m, m', p, e, y, root, root')
    && forall n | n in m && n != e && n != y && n != b && n != p :: m'[n] == m[n]
  }

  // The nodes a rotation touches are distinct.
  ghost predicate Rotatable(side: Side, m: Mem, e: Node) {
    && e in m && var y, p := m[e].Link(side.Other()), m[e].parent;
    && y != null && y in m && y != e && p != e && p != y
    && (p != null ==> p in m)
    && var b := m[y].Link(side);
    && (b != null ==> b in m && b != e && b != y && b != p)
  }

  lemma RotationBelow(side: Side, m: Mem, m': Mem, root: Node?, root': Node?, par: Node?,
                      a: Tree, e: Node, ce: Color, b: Tree, y: Node, cy: Color, d: Tree)
    requires Rep(m, Make(side, a, e, ce, Make(side, b, y, cy, d)), par)
    requires par !in Elems(a) + Elems(b) + Elems(d)
    requires Rotatable(side, m, e) && Rotated(side, m, m', e, root, root')
    ensures Rep(m', Make(side, Make(side, a, e, ce, b), y, cy, d), par)
  {
    var t := Make(side, b, y, cy, d);
    assert Rep(m, t, e);
    assert Elems(t) == Elems(b) + {y} + Elems(d);
    Keep(m, m', a, e, e);
    Keep(m, m', b, y, e);
    Keep(m, m', d, y, y);
  }

  lemma UpIsOutside(z: Path, s: set<Node>)
    requires s !! PathElems(z)
    ensures Up(z) !in s
  {
    assert z.Step? ==> z.x in PathElems(z);
  }

  lemma RotationAbove(side: Side, m: Mem, m': Mem, root: Node?, root': Node?, z: Path, e: Node, below: set<Node>)
    requires PathRep(m, z, e, root) && below !! PathElems(z) && e in below
    requires Rotatable(side, m, e) && Rotated(side, m, m', e, root, root') && m[e].parent == Up(z)
    requires var y := m[e].Link(side.Other()); y in below && (m[y].Link(side) != null ==> m[y].Link(side) in below)
    ensures PathRep(m', z, m[e].Link(side.Other()), root')
  {
    Redirect(m, m', z, e, m[e].Link(side.Other()), root, root');
  }

  lemma MakeElems(side: Side, a: Tree, e: Node, ce: Color, b: Tree, y: Node, cy: Color, d: Tree)
    ensures Elems(Make(side, a, e, ce, Make(side, b, y, cy, d))) == Elems(a) + Elems(b) + Elems(d) + {e, y}
    ensures Elems(Make(side, Make(side, a, e, ce, b), y, cy, d)) == Elems(a) + Elems(b) + Elems(d) + {e, y}
  {
  }

  lemma RotationLinks(side: Side, m: Mem, a: Tree, e: Node, ce: Color, b: Tree, y: Node, cy: Color, d: Tree, par: Node?)
    requires Rep(m, Make(side, a, e, ce, Make(side, b, y, cy, d)), par)
    ensures e in m && y in m && m[e].Link(side.Other()) == y && m[e].parent == par && m[y].Link(side) == Ptr(b)
    ensures e != y && (b.Fork? ==> b.x in Elems(b) && b.x in m && b.x != e && b.x != y)
  {
    assert Rep(m, Make(side, b, y, cy, d), e);
    assert Rep(m, b, y);
  }

  lemma RotationReady(side: Side, m: Mem, root: Node?, z: Path, a: Tree, e: Node, ce: Color, b: Tree, y: Node,
      cy: Color, d: Tree)
    requires Focus(m, root, z, Make(side, a, e, ce, Make(side, b, y, cy, d)))
    ensures Rotatable(side, m, e)
  {
    MakeElems(side, a, e, ce, b, y, cy, d);
    RotationLinks(side, m, a, e, ce, b, y, cy, d, Up(z));
    UpIsOutside(z, Elems(a) + Elems(b) + Elems(d) + {e, y});
  }

  lemma Rotation(side: Side, m: Mem, m': Mem, root: Node?, root': Node?, z: Path,
                 a: Tree, e: Node, ce: Color, b: Tree, y: Node, cy: Color, d: Tree)
    requires Focus(m, root, z, Make(side, a, e, ce, Make(side, b, y, cy, d)))
    requires Rotatable(side, m, e) && Rotated(side, m, m', e, root, root')
    ensures Focus(m', root', z, Make(side, Make(side, a, e, ce, b), y, cy, d))
  {
    MakeElems(side, a, e, ce, b, y, cy, d);
    var s := Elems(a) + Elems(b) + Elems(d) + {e, y};
    UpIsOutside(z, s);
    RotationBelow(side, m, m', root, root', Up(z), a, e, ce, b, y, cy, d);
    RotationLinks(side, m, a, e, ce, b, y, cy, d, Up(z));
    RotationAbove(side, m, m', root, root', z, e, s);
  }
}
