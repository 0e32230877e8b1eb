module RbFix {
  import opened RbShape
  import opened RbBalance

  // The focus tree t is red; all is in order but for the edge above it.
  ghost predicate RedFocus(z: Path, t: Tree, n: nat) {
    IsRed(t) && Sound(t, n) && SoundPath(z, n)
  }

  ghost function Recoloured(z: Path, t: Tree): Tree
    requires z.Step? && z.up.Step? && z.up.sib.Fork?
  {
    Make(z.up.side, ZipUp(z.(c := Black), t), z.up.x, Red, z.up.sib.(c := Black))
  }

  lemma RedLeaf(e: Node, z: Path)
    requires SoundPath(z, 0)
    ensures RedFocus(z, Fork(Nil, e, Red, Nil), 0) && Inorder(Fork(Nil, e, Red, Nil)) == [e]
  {
    assert Sound(Nil, 0);
  }

  lemma BlackRoot(t: Tree, n: nat) returns (t': Tree)
    requires t.Fork? && Sound(t, n)
    ensures t' == t.(c := Black) && RedBlack(t') && Inorder(t') == Inorder(t)
  {
    t' := t.(c := Black);
    HeightIsUnique(t', if t.c == Red then n + 1 else n);
  }

  lemma PlugFork(z: Path, t: Tree)
    requires t.Fork?
    ensures Plug(z, t).Fork?
  {
    if z.Step? { PlugFork(z.up, ZipUp(z, t)); }
  }

  lemma RecolourFocus(m: Mem, root: Node?, z: Path, t: Tree)
    requires Focus(m, root, z, t) && t.Fork? && z.Step? && z.up.Step? && z.up.sib.Fork?
    ensures z.up.x in m && z.x in m && z.up.sib.x in m
    ensures Focus(Coloured(Coloured(Coloured(m, z.up.sib.x, Black), z.x, Black), z.up.x, Red), root, z.up.up,
      Recoloured(z, t))
  {
    var t1 := ZipUp(z, t);
    Zip(m, root, z, t);
    PaintSibling(m, root, z.up, t1, Black);
    var m1, z1 := Coloured(m, z.up.sib.x, Black), z.up.(sib := z.up.sib.(c := Black));
    Paint(m1, root, z1, t1, Black);
    var m2, t2 := Coloured(m1, z.x, Black), t1.(c := Black);
    Zip(m2, root, z1, t2);
    Paint(m2, root, z1.up, ZipUp(z1, t2), Red);
  }

  lemma RecolourSound(z: Path, t: Tree, n: nat)
    requires RedFocus(z, t, n) && z.Step? && z.c == Red && IsRed(z.up.sib)
    ensures RedFocus(z.up.up, Recoloured(z, t), n + 1)
  {
    assert SoundPath(z.up, n);
    assert Sound(z.up.sib.(c := Black), n + 1);
    assert Sound(ZipUp(z.(c := Black), t), n + 1);
  }

  lemma RecolourOrder(z: Path, t: Tree)
    requires z.Step? && z.up.Step? && z.up.sib.Fork?
    ensures Whole(z.up.up, Recoloured(z, t)) == Whole(z, t)
  {
    ZipWhole(z, t);
    ZipWhole(z.up, ZipUp(z, t));
    assert Inorder(z.up.sib.(c := Black)) == Inorder(z.up.sib);
    assert Inorder(ZipUp(z.(c := Black), t)) == Inorder(ZipUp(z, t));
  }
}

module RbFixInsert {
  import opened Ordering
  import opened RbShape
  import opened RbBalance
  import opened RbFix

  // elm is the inner grandchild: after a rotation at its parent the two change places.
  ghost function InnerPath(z: Path, t: Tree): Path
    requires z.Step? && z.up.Step? && t.Fork? && z.side == z.up.side.Other()
  {
    Step(z.up.side, t.x, Red, if z.side == L then t.l else t.r, z.up)
  }

  ghost function InnerTree(z: Path, t: Tree): Tree
    requires z.Step? && z.up.Step? && t.Fork? && z.side == z.up.side.Other()
  {
    Make(z.up.side, z.sib, z.x, Red, if z.side == L then t.r else t.l)
  }

  lemma InnerStep(z: Path, t: Tree, n: nat)
    requires RedFocus(z, t, n) && z.Step? && z.c == Red && z.side == z.up.side.Other()
    ensures RedFocus(InnerPath(z, t), InnerTree(z, t), n)
    ensures Whole(InnerPath(z, t), InnerTree(z, t)) == Whole(z, t)
  {
    assert SoundPath(z.up, n);
    ZipWhole(z, t);
    ZipWhole(InnerPath(z, t), InnerTree(z, t));
    if z.side == R {
      RotationOrder(L, z.sib, z.x, Red, t.l, t.x, Red, t.r);
    } else {
      RotationOrder(R, z.sib, z.x, Red, t.r, t.x, Red, t.l);
    }
  }

  // elm is the outer grandchild: parent and grandparent change colours and places.
  ghost function OuterPath(z: Path): Path
    requires z.Step? && z.up.Step?
  {
    Step(z.side, z.x, Black, Make(z.side.Other(), z.up.sib, z.up.x, Red, z.sib), z.up.up)
  }

  lemma OuterStep(z: Path, t: Tree, n: nat)
    requires RedFocus(z, t, n) && z.Step? && z.c == Red && z.side == z.up.side && !IsRed(z.up.sib)
    ensures RedFocus(OuterPath(z), t, n)
    ensures Whole(OuterPath(z), t) == Whole(z, t)
  {
    assert SoundPath(z.up, n);
    ZipWhole(z, t);
    ZipWhole(z.up, ZipUp(z, t));
    ZipWhole(OuterPath(z), t);
    var o := z.side.Other();
    RotationOrder(o, z.up.sib, z.up.x, Red, z.sib, z.x, Black, t);
    assert Inorder(ZipUp(z.(c := Black), t)) == Inorder(ZipUp(z, t));
    assert ZipUp(z.(c := Black), t) == Make(o, z.sib, z.x, Black, t);
  }

  // The pointers of both rotations, from the parent's and the grandparent's subtree.
  lemma SwapColours(m: Mem, root: Node?, z: Path, t: Tree)
    requires Focus(m, root, z, t) && z.Step? && z.up.Step?
    ensures z.x in m && z.up.x in m
    ensures Focus(Coloured(Coloured(m, z.x, Black), z.up.x, Red), root, z.up.up,
                  Make(z.up.side, ZipUp(z.(c := Black), t), z.up.x, Red, z.up.sib))
  {
    Zip(m, root, z, t);
    Paint(m, root, z.up, ZipUp(z, t), Black);
    var m1, t1 := Coloured(m, z.x, Black), ZipUp(z.(c := Black), t);
    Zip(m1, root, z.up, t1);
    Paint(m1, root, z.up.up, ZipUp(z.up, t1), Red);
  }
}

module RbFixRemove {
  import opened Ordering
  import opened RbShape
  import opened RbBalance

  // t has black height n, and n + 1 once its root is painted black if it is red.
  ghost predicate Short(t: Tree, n: nat) {
    if IsRed(t) then Sound(t.(c := Black), n + 1) else Sound(t, n)
  }

  // The focus is one black node short of what the path around it expects.
  ghost predicate ShortFocus(z: Path, t: Tree, n: nat) {
    Short(t, n) && SoundPath(z, n + 1)
  }

  ghost function Near(z: Path): Tree
    requires z.Step? && z.sib.Fork?
  {
    if z.side == L then z.sib.l else z.sib.r
  }

  ghost function Far(z: Path): Tree
    requires z.Step? && z.sib.Fork?
  {
    if z.side == L then z.sib.r else z.sib.l
  }

  // The sibling of a short subtree is never missing.
  lemma SiblingExists(z: Path, n: nat)
    requires SoundPath(z, n + 1) && z.Step?
    ensures z.sib.Fork?
    ensures IsRed(z.sib) ==> z.c == Black && Near(z).Fork? && Far(z).Fork? && !IsRed(Near(z)) && !IsRed(Far(z))
  {
    if IsRed(z.sib) {
      assert Sound(Near(z), n + 1) && Sound(Far(z), n + 1);
    }
  }

  // Case 1: the red sibling is rotated above the parent.
  ghost function LoweredPath(z: Path): Path
    requires z.Step? && z.sib.Fork?
  {
    Step(z.side, z.x, Red, Near(z), Step(z.side, z.sib.x, Black, Far(z), z.up))
  }

  lemma LowerStep(z: Path, t: Tree, n: nat)
    requires ShortFocus(z, t, n) && z.Step? && IsRed(z.sib)
    ensures ShortFocus(LoweredPath(z), t, n) && !IsRed(Near(z))
    ensures Whole(LoweredPath(z), t) == Whole(z, t)
  {
    SiblingExists(z, n);
    ZipWhole(z, t);
    ZipWhole(LoweredPath(z), t);
    ZipWhole(LoweredPath(z).up, ZipUp(LoweredPath(z), t));
    RotationOrder(z.side, t, z.x, Red, Near(z), z.sib.x, Black, Far(z));
  }

  // Case 2: both nephews are black, so the shortage moves up to the parent.
  ghost function Reddened(z: Path, t: Tree): Tree
    requires z.Step? && z.sib.Fork?
  {
    ZipUp(z.(sib := z.sib.(c := Red)), t)
  }

  lemma ReddenStep(z: Path, t: Tree, n: nat)
    requires ShortFocus(z, t, n) && !IsRed(t) && z.Step? && z.sib.Fork? && !IsRed(z.sib)
    requires !IsRed(Near(z)) && !IsRed(Far(z))
    ensures ShortFocus(z.up, Reddened(z, t), if z.c == Black then n + 1 else n)
    ensures Whole(z.up, Reddened(z, t)) == Whole(z, t)
  {
    ZipWhole(z, t);
    assert Sound(z.sib.(c := Red), n);
    assert Inorder(z.sib.(c := Red)) == Inorder(z.sib);
  }

  // Case 3: the far nephew is black, so the red near one takes the sibling's place.
  ghost function TurnedPath(z: Path): Path
    requires z.Step? && z.sib.Fork? && Near(z).Fork?
  {
    var o := Near(z);
    var near, far := if z.side == L then o.l else o.r, if z.side == L then o.r else o.l;
    z.(sib := Make(z.side, near, o.x, Black, Make(z.side, far, z.sib.x, Red, Far(z))))
  }

  lemma TurnStep(z: Path, t: Tree, n: nat)
    requires ShortFocus(z, t, n) && z.Step? && z.sib.Fork? && !IsRed(z.sib)
    requires IsRed(Near(z)) && !IsRed(Far(z))
    ensures ShortFocus(TurnedPath(z), t, n) && IsRed(Far(TurnedPath(z))) && !IsRed(TurnedPath(z).sib)
    ensures Whole(TurnedPath(z), t) == Whole(z, t)
  {
    var o := Near(z);
    var near, far := if z.side == L then o.l else o.r, if z.side == L then o.r else o.l;
    var outer := z.side.Other();
    assert Sound(o, n) && Sound(near, n) && Sound(far, n);
    assert Sound(Make(z.side, far, z.sib.x, Red, Far(z)), n);
    ZipWhole(z, t);
    ZipWhole(TurnedPath(z), t);
    RotationOrder(outer, Far(z), z.sib.x, Red, far, o.x, Black, near);
    assert Inorder(Make(outer, far, o.x, Black, near)) == Inorder(o);
    assert Inorder(z.sib) == Inorder(Make(outer, Far(z), z.sib.x, Red, Make(outer, far, o.x, Black, near)));
  }

  lemma BlackenStep(m: Mem, root: Node?, z: Path, t: Tree, n: nat)
    requires Focus(m, root, z, t) && ShortFocus(z, t, n) && t.Fork? && (z.Top? || IsRed(t))
    ensures Focus(Coloured(m, t.x, Black), root, Top, Plug(z, t.(c := Black)))
    ensures RedBlack(Plug(z, t.(c := Black))) && Inorder(Plug(z, t.(c := Black))) == Whole(z, t)
  {
    var t' := t.(c := Black);
    Paint(m, root, z, t, Black);
    PlugFocus(Coloured(m, t.x, Black), root, z, t');
    PlugWhole(z, t');
    assert Inorder(t') == Inorder(t);
    var k := PlugSound(z, t', if IsRed(t) then n + 1 else n);
    HeightIsUnique(Plug(z, t'), k);
  }

  lemma ZipToTop(m: Mem, root: Node?, z: Path, t: Tree, k: nat) returns (n: nat)
    requires Focus(m, root, z, t) && Sound(t, k) && SoundPath(z, k) && EdgeOk(z, t) && (z.Top? ==> !IsRed(t))
    ensures Focus(m, root, Top, Plug(z, t)) && ShortFocus(Top, Plug(z, t), n) && Whole(Top, Plug(z, t)) == Whole(z, t)
  {
    PlugFocus(m, root, z, t);
    PlugWhole(z, t);
    n := PlugSound(z, t, k);
  }

  // Painting a nephew.
  lemma PaintNephew(m: Mem, root: Node?, z: Path, t: Tree, side: Side, near: Tree, far: Tree, c: Color)
    requires z.Step? && z.sib.Fork? && Focus(m, root, z, t)
    requires z.sib == Make(side, near, z.sib.x, z.sib.c, far) && near.Fork?
    ensures near.x in m
    ensures Focus(Coloured(m, near.x, c), root, z.(sib := Make(side, near.(c := c), z.sib.x, z.sib.c, far)), t)
  {
    SwingFocus(m, root, z, t);
    var z1 := Step(side, z.sib.x, z.sib.c, far, Swing(z, t));
    Zip(m, root, z1, near);
    Paint(m, root, z1, near, c);
    var m' := Coloured(m, near.x, c);
    Zip(m', root, z1, near.(c := c));
    SwingFocus(m', root, Swing(z, t), ZipUp(z1, near.(c := c)));
  }

  // The near nephew turns black and the sibling red, before they are rotated.
  lemma TurnColours(m: Mem, root: Node?, z: Path, t: Tree)
    requires Focus(m, root, z, t) && z.Step? && z.sib.Fork? && Near(z).Fork?
    ensures Near(z).x in m && z.sib.x in m
    ensures var o := Near(z);
      var a, b := if z.side == L then o.l else o.r, if z.side == L then o.r else o.l;
      Focus(Coloured(Coloured(m, o.x, Black), z.sib.x, Red), root, Step(z.side.Other(), z.x, z.c, t, z.up),
        Make(z.side, Make(z.side, a, o.x, Black, b), z.sib.x, Red, Far(z)))
  {
    var o := Near(z);
    PaintNephew(m, root, z, t, z.side, o, Far(z), Black);
    var m1, z1 := Coloured(m, o.x, Black), z.(sib := Make(z.side, o.(c := Black), z.sib.x, z.sib.c, Far(z)));
    PaintSibling(m1, root, z1, t, Red);
    SwingFocus(Coloured(m1, z.sib.x, Red), root, z1.(sib := z1.sib.(c := Red)), t);
  }

  // Case 4: the far nephew is red; the sibling takes the parent's place and colour.
  ghost function LiftedTree(z: Path, t: Tree): Tree
    requires z.Step? && z.sib.Fork? && Far(z).Fork?
  {
    Make(z.side, Make(z.side, t, z.x, Black, Near(z)), z.sib.x, z.c, Far(z).(c := Black))
  }

  // The colours of case 4, before the sibling is rotated above the parent.
  lemma LiftColours(m: Mem, root: Node?, z: Path, t: Tree)
    requires Focus(m, root, z, t) && z.Step? && z.sib.Fork? && Far(z).Fork?
    ensures z.sib.x in m && z.x in m && Far(z).x in m && z.x != z.sib.x
    ensures Focus(Coloured(Coloured(Coloured(m, z.sib.x, z.c), z.x, Black), Far(z).x, Black), root, z.up,
      Make(z.side, t, z.x, Black, Make(z.side, Near(z), z.sib.x, z.c, Far(z).(c := Black))))
  {
    PaintSibling(m, root, z, t, z.c);
    var m1, z1 := Coloured(m, z.sib.x, z.c), z.(sib := z.sib.(c := z.c));
    PaintParent(m1, root, z1, t, Black);
    var m2, z2 := Coloured(m1, z.x, Black), z1.(c := Black);
    PaintNephew(m2, root, z2, t, z.side.Other(), Far(z), Near(z), Black);
    var z3 := z2.(sib := Make(z.side, Near(z), z.sib.x, z.c, Far(z).(c := Black)));
    Zip(Coloured(m2, Far(z).x, Black), root, z3, t);
  }

  lemma LiftStep(z: Path, t: Tree, n: nat) returns (k: nat)
    requires ShortFocus(z, t, n) && !IsRed(t) && z.Step? && z.sib.Fork? && !IsRed(z.sib) && IsRed(Far(z))
    ensures Sound(LiftedTree(z, t), k) && SoundPath(z.up, k) && EdgeOk(z.up, LiftedTree(z, t))
    ensures z.up.Top? ==> !IsRed(LiftedTree(z, t))
    ensures Whole(z.up, LiftedTree(z, t)) == Whole(z, t)
  {
    k := if z.c == Black then n + 2 else n + 1;
    ZipWhole(z, t);
    RotationOrder(z.side, t, z.x, Black, Near(z), z.sib.x, z.c, Far(z).(c := Black));
    assert Sound(Far(z), n) && Sound(Far(z).(c := Black), n + 1);
    assert Inorder(Far(z).(c := Black)) == Inorder(Far(z));
  }
}

/** The pointer changes of insertion and removal before any recolouring. */
module RbLink {
  import opened Ordering
  import opened RbShape
  import opened RbBalance
  import opened RbFixRemove

  // A new red leaf hangs in an empty place.
  lemma Attach(m: Mem, m': Mem, root: Node?, root': Node?, z: Path, e: Node)
    requires Focus(m, root, z, Nil) && e !in PathElems(z)
    requires e in m' && m'[e] == Cell(null, null, Up(z), Red)
    requires if z.Top? then root' == e else root' == root && z.x in m' && m'[z.x] == m[z.x].To(z.side, e)
    requires forall n | n in m && n != e && n != Up(z) :: n in m' && m'[n] == m[n]
    ensures Focus(m', root', z, Fork(Nil, e, Red, Nil))
  {
    Rehang(m, m', z, null, e, root, root');
  }

  // e is cut out and its only child takes its place.
  ghost predicate Unlinked(m: Mem, m': Mem, e: Node, child: Node?, root: Node?, root': Node?)
    requires e in m
  {
    && (child != null ==> child in m && child in m' && m'[child] == m[child].(parent := m[e].parent))
    && Redirected(m, m', m[e].parent, e, child, root, root')
    && forall n | n in m && n != child && n != m[e].parent :: n in m' && m'[n] == m[n]
  }

  lemma Excise(m: Mem, m': Mem, root: Node?, root': Node?, z: Path, t: Tree, c: Tree)
    requires t.Fork? && Focus(m, root, z, t)
    requires (t.l.Nil? && c == t.r) || (t.r.Nil? && c == t.l)
    requires Unlinked(m, m', t.x, Ptr(c), root, root')
    ensures Focus(m', root', z, c)
  {
    UpIsOutside(z, Elems(t));
    Keep(m, m', c, t.x, Up(z));
    Redirect(m, m', z, t.x, Ptr(c), root, root');
  }

  lemma ExciseReady(m: Mem, root: Node?, z: Path, t: Tree, c: Tree)
    requires t.Fork? && Focus(m, root, z, t) && (c == t.r || c == t.l)
    ensures m[t.x].parent == Up(z) && (z.Step? ==> z.x in m && z.x != t.x)
    ensures c.Fork? ==> c.x in m && c.x != t.x && c.x != Up(z)
  {
    UpIsOutside(z, Elems(t));
    assert Rep(m, c, t.x);
    assert c.Fork? ==> c.x in Elems(c);
  }

  lemma ExciseColours(z: Path, t: Tree, n: nat, c: Tree)
    requires t.Fork? && Sound(t, n) && SoundPath(z, n) && EdgeOk(z, t)
    requires c == t.l || c == t.r
    ensures t.c == Black ==> n > 0 && ShortFocus(z, c, n - 1)
    ensures t.c == Red ==> Sound(c, n) && EdgeOk(z, c)
  {
  }

  // What is left where a node of the given colour was cut out.
  ghost predicate CutOut(color: Color, z: Path, c: Tree, n: nat) {
    if color == Black then n > 0 && ShortFocus(z, c, n - 1)
    else Sound(c, n) && SoundPath(z, n) && EdgeOk(z, c) && z.Step?
  }

  lemma ExciseOrder(z: Path, t: Tree, c: Tree)
    requires t.Fork? && ((t.l.Nil? && c == t.r) || (t.r.Nil? && c == t.l))
    ensures var p, q := Before(z) + Inorder(t.l), Inorder(t.r) + After(z);
      Whole(z, t) == p + [t.x] + q && Whole(z, c) == p + q
  {
    var a, b := Inorder(t.l), Inorder(t.r);
    var p, q := RootInOrder(z, t);
    assert a + b == Inorder(c);
    Concat3(Before(z), a + b, After(z));
    Concat3(a, b, After(z));
    Concat3(Before(z), a, b + After(z));
  }

  // e takes the place, the links and the colour of another node, which leaves the tree.
  ghost predicate Transplanted(m: Mem, m': Mem, old_: Node, e: Node, root: Node?, root': Node?)
    requires old_ in m
  {
    var c := m[old_];
    && e in m' && m'[e] == c
    && Redirected(m, m', c.parent, old_, e, root, root')
    && (c.left != null ==> c.left in m && c.left in m' && m'[c.left] == m[c.left].(parent := e))
    && (c.right != null ==> c.right in m && c.right in m' && m'[c.right] == m[c.right].(parent := e))
    && forall n | n in m && n != e && n != c.parent && n != c.left && n != c.right :: n in m' && m'[n] == m[n]
  }

  lemma TransplantReady(m: Mem, root: Node?, z: Path, t: Tree)
    requires t.Fork? && Focus(m, root, z, t)
    ensures m[t.x] == Cell(Ptr(t.l), Ptr(t.r), Up(z), t.c) && (z.Step? ==> z.x in m && z.x != t.x)
    ensures t.l.Fork? ==> t.l.x in Elems(t) && t.l.x in m && t.l.x != t.x && t.l.x != Up(z)
    ensures t.r.Fork? ==> t.r.x in Elems(t) && t.r.x in m && t.r.x != t.x && t.r.x != Up(z)
    ensures t.l.Fork? ==> t.l.x != Ptr(t.r)
    ensures z.Step? ==> z.x in PathElems(z)
  {
    UpIsOutside(z, Elems(t));
    assert Rep(m, t.l, t.x) && Rep(m, t.r, t.x);
    assert t.l.Fork? ==> t.l.x in Elems(t.l);
    assert t.r.Fork? ==> t.r.x in Elems(t.r);
  }

  lemma Transplant(m: Mem, m': Mem, root: Node?, root': Node?, z: Path, t: Tree, e: Node)
    requires t.Fork? && Focus(m, root, z, t) && e !in Elems(t) && e !in PathElems(z)
    requires Transplanted(m, m', t.x, e, root, root')
    ensures Focus(m', root', z, t.(x := e))
  {
    UpIsOutside(z, Elems(t));
    Keep(m, m', t.l, t.x, e);
    Keep(m, m', t.r, t.x, e);
    Redirect(m, m', z, t.x, e, root, root');
  }

  // --- Going down and coming back ---

  // The focus lies in a red-black tree whose nodes are, from left to right, the given ones.
  ghost predicate Placed(m: Mem, root: Node?, z: Path, t: Tree, n: nat, nodes: seq<Node>) {
    && Focus(m, root, z, t) && Whole(z, t) == nodes
    && Sound(t, n) && SoundPath(z, n) && EdgeOk(z, t) && (z.Top? ==> !IsRed(t))
  }

  ghost function DownPath(side: Side, z: Path, t: Tree): Path
    requires t.Fork?
  {
    Step(side, t.x, t.c, if side == L then t.r else t.l, z)
  }

  ghost function DownTree(side: Side, t: Tree): Tree
    requires t.Fork?
  {
    if side == L then t.l else t.r
  }

  lemma PlacedDown(side: Side, m: Mem, root: Node?, z: Path, t: Tree, n: nat, nodes: seq<Node>) returns (n': nat)
    requires Placed(m, root, z, t, n, nodes) && t.Fork?
    ensures Placed(m, root, DownPath(side, z, t), DownTree(side, t), n', nodes)
  {
    n' := if t.c == Red then n else n - 1;
    Zip(m, root, DownPath(side, z, t), DownTree(side, t));
    ZipWhole(DownPath(side, z, t), DownTree(side, t));
  }

  ghost function Join(rel: Path, base: Path): Path {
    if rel.Top? then base else rel.(up := Join(rel.up, base))
  }

  ghost predicate AllLeft(rel: Path) {
    rel.Step? ==> rel.side == L && AllLeft(rel.up)
  }

  lemma {:induction false} JoinDepth(rel: Path, base: Path)
    ensures Depth(Join(rel, base)) == Depth(rel) + Depth(base)
  {
    if rel.Step? { JoinDepth(rel.up, base); }
  }

  lemma {:induction false} JoinFocus(m: Mem, root: Node?, rel: Path, base: Path, t: Tree)
    ensures Focus(m, root, Join(rel, base), t) <==> Focus(m, root, base, Plug(rel, t))
  {
    if rel.Step? {
      Zip(m, root, Join(rel, base), t);
      JoinFocus(m, root, rel.up, base, ZipUp(rel, t));
    }
  }

  lemma {:induction false} JoinWhole(rel: Path, base: Path, t: Tree)
    ensures Whole(Join(rel, base), t) == Whole(base, Plug(rel, t))
  {
    if rel.Step? {
      ZipWhole(Join(rel, base), t);
      JoinWhole(rel.up, base, ZipUp(rel, t));
    }
  }

  // Another base with the same colours expects the same black height.
  lemma {:induction false} JoinSound(rel: Path, base: Path, e: Node, n: nat)
    requires base.Step? && SoundPath(Join(rel, base), n)
    ensures SoundPath(Join(rel, base.(x := e)), n)
  {
    if rel.Step? {
      JoinSound(rel.up, base, e, if rel.c == Black then n + 1 else n);
    }
  }

  lemma {:induction false} JoinElems(rel: Path, base: Path, t: Tree)
    ensures PathElems(Join(rel, base)) == PathElems(rel) + PathElems(base)
    ensures Elems(Plug(rel, t)) == Elems(t) + PathElems(rel)
  {
    if rel.Step? {
      JoinElems(rel.up, base, ZipUp(rel, t));
    }
  }

  // Along a path of left children nothing comes before the hole but what precedes the base.
  lemma {:induction false} JoinLeft(rel: Path, base: Path, e: Node)
    requires AllLeft(rel) && base.Step? && base.side == R
    ensures Before(Join(rel, base)) == Before(base)
    ensures After(Join(rel, base)) == After(Join(rel, base.(x := e)))
  {
    if rel.Step? {
      JoinLeft(rel.up, base, e);
    }
  }

  lemma SpliceColours(rel: Path, base: Path, t: Tree, n: nat)
    requires t.Fork? && base.Step? && Sound(t, n) && SoundPath(Join(rel, base), n) && EdgeOk(Join(rel, base), t)
    ensures CutOut(t.c, Join(rel, base.(x := t.x)), t.r, n)
  {
    ExciseColours(Join(rel, base), t, n, t.r);
    JoinSound(rel, base, t.x, n);
  }

  // Dropping old_ from the order when its successor e has moved into its place.
  lemma SpliceOrder(rel: Path, base: Path, e: Node, ce: Color, c: Tree)
    requires AllLeft(rel) && base.Step? && base.side == R
    ensures var p, q := Before(base.up) + Inorder(base.sib), [e] + Inorder(c) + After(Join(rel, base));
      && Whole(Join(rel, base), Fork(Nil, e, ce, c)) == p + [base.x] + q
      && Whole(Join(rel, base.(x := e)), c) == p + q
  {
    JoinLeft(rel, base, e);
    JoinLeft(rel, base.(x := e), e);
    var p, a, i := Before(base.up) + Inorder(base.sib), After(Join(rel, base)), Inorder(c);
    assert Before(base) == p + [base.x] && Before(base.(x := e)) == p + [e];
    assert Inorder(Fork(Nil, e, ce, c)) == [e] + i by { assert [] + [e] == [e]; }
    hide Inorder, Before, After, AllLeft, Join;
    Concat3(p + [base.x], [e] + i, a);
    Concat3(p + [e], i, a);
    Concat3(p, [e], i + a);
    Concat3([e], i, a);
  }

  lemma {:induction false} Covers(s: set<Node>, t: Tree, par: Node?)
    requires Rep(Snap(s), t, par)
    ensures Elems(t) <= s
  {
    if t.Fork? {
      Covers(s, t.l, t.x);
      Covers(s, t.r, t.x);
    }
  }

  // The memory of the tree's own nodes is enough.
  lemma Restrict(s: set<Node>, root: Node?, t: Tree)
    requires Focus(Snap(s), root, Top, t)
    ensures Focus(Snap(Elems(t)), root, Top, t)
  {
    Covers(s, t, null);
    Keep(Snap(s), Snap(Elems(t)), t, null, null);
  }

  lemma {:induction false} PathCovers(s: set<Node>, z: Path, hole: Node?, root: Node?)
    requires PathRep(Snap(s), z, hole, root)
    ensures PathElems(z) <= s
  {
    if z.Step? {
      Covers(s, z.sib, z.x);
      PathCovers(s, z.up, z.x, root);
    }
  }

  // Every node of the tree can be brought into focus.
  lemma {:induction false} Locate(m: Mem, root: Node?, z0: Path, t0: Tree, n0: nat, nodes: seq<Node>, e: Node)
    returns (z: Path, t: Tree, n: nat)
    requires Placed(m, root, z0, t0, n0, nodes) && e in Elems(t0)
    ensures Placed(m, root, z, t, n, nodes) && t.Fork? && t.x == e
    ensures Depth(z) + Height(t) <= Depth(z0) + Height(t0)
    decreases t0
  {
    if e == t0.x {
      z, t, n := z0, t0, n0;
    } else {
      var side := if e in Elems(t0.l) then L else R;
      n := PlacedDown(side, m, root, z0, t0, n0, nodes);
      z, t, n := Locate(m, root, DownPath(side, z0, t0), DownTree(side, t0), n, nodes, e);
    }
  }
}

/** Search order under the caller's comparison function. */
module RbOrder {
  import opened Ordering
  import opened RbShape
  import opened RbBalance
  import opened RbLink

  ghost predicate AllLess(cmp: (Key, Key) -> int, a: seq<Node>, b: seq<Node>) {
    forall x, y | x in a && y in b :: cmp(x.key, y.key) < 0
  }

  ghost function Less(cmp: (Key, Key) -> int): (Node, Node) -> bool {
    (x: Node, y: Node) => cmp(x.key, y.key) < 0
  }

  ghost predicate Sorted(cmp: (Key, Key) -> int, q: seq<Node>) {
    Pairwise(Less(cmp), q)
  }

  lemma SortedConcat(cmp: (Key, Key) -> int, a: seq<Node>, b: seq<Node>)
    ensures Sorted(cmp, a + b) <==> Sorted(cmp, a) && Sorted(cmp, b) && AllLess(cmp, a, b)
  {
    PairwiseConcat(Less(cmp), a, b);
    forall x, y | x in a && y in b ensures Less(cmp)(x, y) <==> cmp(x.key, y.key) < 0 {
    }
  }

  lemma KeyIsUnique(cmp: (Key, Key) -> int, q: seq<Node>, x: Node, y: Node)
    requires Comparator(cmp) && Sorted(cmp, q) && x in q && y in q && cmp(x.key, y.key) == 0
    ensures x == y
  {
    PairwiseTotal(Less(cmp), q, x, y);
    assert cmp(y.key, x.key) < 0 <==> cmp(x.key, y.key) > 0;
  }

  // The search position: everything left of the hole is smaller than key, everything right is larger.
  ghost predicate Between(cmp: (Key, Key) -> int, z: Path, key: Key) {
    && (forall x | x in Before(z) :: cmp(x.key, key) < 0)
    && (forall x | x in After(z) :: cmp(key, x.key) < 0)
  }

  // The root separates its subtree.
  lemma RootSeparates(cmp: (Key, Key) -> int, z: Path, t: Tree)
    requires t.Fork? && Sorted(cmp, Whole(z, t))
    ensures AllLess(cmp, Inorder(t.l), [t.x]) && AllLess(cmp, [t.x], Inorder(t.r))
  {
    var a, b, x := Inorder(t.l), Inorder(t.r), t.x;
    SortedConcat(cmp, Before(z) + Inorder(t), After(z));
    SortedConcat(cmp, Before(z), Inorder(t));
    SortedConcat(cmp, a + [x], b);
    SortedConcat(cmp, a, [x]);
    assert x in a + [x];
  }

  lemma Below(cmp: (Key, Key) -> int, a: seq<Node>, x: Node, key: Key)
    requires Comparator(cmp) && AllLess(cmp, a, [x]) && cmp(key, x.key) > 0
    ensures forall y | y in a + [x] :: cmp(y.key, key) < 0
  {
    forall y | y in a ensures cmp(y.key, key) < 0 {
      assert x in [x];
      assert cmp(y.key, x.key) < 0 && cmp(x.key, key) < 0;
    }
  }

  lemma Above(cmp: (Key, Key) -> int, x: Node, b: seq<Node>, key: Key)
    requires Comparator(cmp) && AllLess(cmp, [x], b) && cmp(key, x.key) < 0
    ensures forall y | y in [x] + b :: cmp(key, y.key) < 0
  {
    forall y | y in b ensures cmp(key, y.key) < 0 {
      assert x in [x];
      assert cmp(key, x.key) < 0 && cmp(x.key, y.key) < 0;
    }
  }

  lemma BetweenLeft(cmp: (Key, Key) -> int, z: Path, t: Tree, key: Key)
    requires t.Fork? && Between(cmp, z, key) && forall y | y in [t.x] + Inorder(t.r) :: cmp(key, y.key) < 0
    ensures Between(cmp, Step(L, t.x, t.c, t.r, z), key)
  {
    var step := Step(L, t.x, t.c, t.r, z);
    assert Before(step) == Before(z) && After(step) == [t.x] + Inorder(t.r) + After(z);
    hide Inorder, Before, After;
    forall y | y in [t.x] + Inorder(t.r) + After(z) ensures cmp(key, y.key) < 0 {
      assert y in [t.x] + Inorder(t.r) || y in After(z);
    }
  }

  lemma BetweenRight(cmp: (Key, Key) -> int, z: Path, t: Tree, key: Key)
    requires t.Fork? && Between(cmp, z, key) && forall y | y in Inorder(t.l) + [t.x] :: cmp(y.key, key) < 0
    ensures Between(cmp, Step(R, t.x, t.c, t.l, z), key)
  {
    var step := Step(R, t.x, t.c, t.l, z);
    assert After(step) == After(z) && Before(step) == Before(z) + (Inorder(t.l) + [t.x]) by {
      Concat3(Before(z), Inorder(t.l), [t.x]);
    }
    hide Inorder, Before, After;
    forall y | y in Before(z) + (Inorder(t.l) + [t.x]) ensures cmp(y.key, key) < 0 {
      assert y in Before(z) || y in Inorder(t.l) + [t.x];
    }
  }

  lemma Descend(cmp: (Key, Key) -> int, z: Path, t: Tree, key: Key)
    requires Comparator(cmp) && t.Fork? && Sorted(cmp, Whole(z, t)) && Between(cmp, z, key)
    ensures cmp(key, t.x.key) < 0 ==> Between(cmp, Step(L, t.x, t.c, t.r, z), key)
    ensures cmp(key, t.x.key) > 0 ==> Between(cmp, Step(R, t.x, t.c, t.l, z), key)
  {
    hide Between, Sorted, AllLess, Comparator;
    RootSeparates(cmp, z, t);
    if cmp(key, t.x.key) < 0 {
      Above(cmp, t.x, Inorder(t.r), key);
      BetweenLeft(cmp, z, t, key);
    } else if cmp(key, t.x.key) > 0 {
      Below(cmp, Inorder(t.l), t.x, key);
      BetweenRight(cmp, z, t, key);
    }
  }

  // A search for key in the tree with the given nodes has come to the focus (z, t).
  ghost predicate Searching(cmp: (Key, Key) -> int, m: Mem, root: Node?, z: Path, t: Tree, n: nat, key: Key,
      nodes: seq<Node>) {
    Placed(m, root, z, t, n, nodes) && Between(cmp, z, key)
  }

  lemma SearchDown(cmp: (Key, Key) -> int, m: Mem, root: Node?, z: Path, t: Tree, n: nat, key: Key, nodes: seq<Node>,
      side: Side)
    returns (n': nat)
    requires Comparator(cmp) && Sorted(cmp, nodes) && Searching(cmp, m, root, z, t, n, key, nodes) && t.Fork?
    requires if side == L then cmp(key, t.x.key) < 0 else cmp(key, t.x.key) > 0
    ensures Searching(cmp, m, root, DownPath(side, z, t), DownTree(side, t), n', key, nodes)
  {
    n' := PlacedDown(side, m, root, z, t, n, nodes);
    Descend(cmp, z, t, key);
  }

  lemma SearchHit(cmp: (Key, Key) -> int, m: Mem, root: Node?, z: Path, t: Tree, n: nat, key: Key, nodes: seq<Node>)
    requires Searching(cmp, m, root, z, t, n, key, nodes) && t.Fork?
    ensures t.x in nodes
  {
    assert t.x in Inorder(t);
  }

  lemma SearchMiss(cmp: (Key, Key) -> int, m: Mem, root: Node?, z: Path, n: nat, key: Key, nodes: seq<Node>)
    requires Comparator(cmp) && Searching(cmp, m, root, z, Nil, n, key, nodes)
    ensures forall x | x in nodes :: cmp(key, x.key) != 0
    ensures nodes == Before(z) + After(z)
  {
    assert Whole(z, Nil) == Before(z) + After(z);
  }

  // Putting e at the place where a search for its key ends keeps the order.
  lemma InsertOrder(cmp: (Key, Key) -> int, z: Path, e: Node)
    requires Sorted(cmp, Before(z) + After(z)) && Between(cmp, z, e.key)
    ensures Sorted(cmp, Before(z) + [e] + After(z))
  {
    SortedConcat(cmp, Before(z), After(z));
    SortedConcat(cmp, Before(z), [e]);
    SortedConcat(cmp, Before(z) + [e], After(z));
  }

  lemma CutSequence(nodes: seq<Node>, p: seq<Node>, e: Node, q: seq<Node>)
    requires nodes == p + [e] + q
    ensures |p| < |nodes| && nodes[|p|] == e && nodes[..|p|] == p && nodes[|p| + 1..] == q
  {
  }

  lemma RemoveOrder(cmp: (Key, Key) -> int, a: seq<Node>, e: Node, b: seq<Node>)
    requires Sorted(cmp, a + [e] + b)
    ensures Sorted(cmp, a + b)
  {
    SortedConcat(cmp, a + [e], b);
    SortedConcat(cmp, a, [e]);
    assert forall x | x in a :: x in a + [e];
    SortedConcat(cmp, a, b);
  }

  // What follows the node at index i, which is the one in focus.
  lemma RestAfter(cmp: (Key, Key) -> int, z: Path, t: Tree, nodes: seq<Node>, i: nat) returns (q: seq<Node>)
    requires Comparator(cmp) && Sorted(cmp, nodes) && Whole(z, t) == nodes && t.Fork?
    requires i < |nodes| && nodes[i] == t.x
    ensures q == Inorder(t.r) + After(z)
    ensures if i + 1 < |nodes| then q != [] && q[0] == nodes[i + 1] else q == []
  {
    var p;
    p, q := RootInOrder(z, t);
    CutSequence(nodes, p, t.x, q);
    var x := t.x.key;
    assert cmp(x, x) == 0 by {
      assert cmp(x, x) < 0 <==> cmp(x, x) > 0;
    }
    assert i == |p|;
  }

  lemma NextInOrder(z: Path, t: Tree, rel: Path, t1: Tree)
    requires t.Fork? && AllLeft(rel) && t1.Fork? && t1.l.Nil?
    requires Whole(Join(rel, DownPath(R, z, t)), t1) == Whole(z, t)
    ensures var q := Inorder(t.r) + After(z); q != [] && q[0] == t1.x
  {
    var base := DownPath(R, z, t);
    var p, q := RootInOrder(z, t);
    JoinLeft(rel, base, t.x);
    var p1, q1 := RootInOrder(Join(rel, base), t1);
    assert Whole(z, t)[|p1|] == t1.x;
  }
}
