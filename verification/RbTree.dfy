module RbTree {
  import opened Ordering
  import opened RbShape
  import opened RbBalance
  import opened RbFix
  import opened RbFixInsert
  import opened RbFixRemove
  import opened RbLink
  import opened RbOrder

  class Head {
    const cmp: (Key, Key) -> int
    var root: Node?
    ghost var shape: Tree
    ghost var members: set<Node>

    // The links, colours and order that hold between calls.
    ghost predicate Valid()
      reads this, members
    {
      && Comparator(cmp)
      && members == Elems(shape) && Focus(Snap(members), root, Top, shape)
      && RedBlack(shape)
      && Sorted(cmp, Nodes())
    }

    ghost function Nodes(): seq<Node>
      reads this
    {
      Inorder(shape)
    }

    constructor (cmp: (Key, Key) -> int)
      requires Comparator(cmp)
      ensures Valid() && Nodes() == [] && this.cmp == cmp
    {
      this.cmp, root, shape, members := cmp, null, Nil, {};
    }

    // The pointer writes of a rotation to the left.
    method TurnLeft(elm: Node, ghost s: set<Node>) returns (tmp: Node)
      requires Rotatable(L, Snap(s), elm)
      modifies `root, s
      ensures tmp == old(elm.right) && Rotated(L, old(Snap(s)), Snap(s), elm, old(root), root)
    {
      ghost var m := Snap(s);
      assert m[elm] == At(elm) && m[elm.right] == At(elm.right);
      tmp := elm.right;
      elm.right := tmp.left;
      if elm.right != null {
        tmp.left.parent := elm;
      }
      tmp.parent := elm.parent;
      if tmp.parent != null {
        if elm == elm.parent.left {
          elm.parent.left := tmp;
        } else {
          elm.parent.right := tmp;
        }
      } else {
        root := tmp;
      }
      tmp.left := elm;
      elm.parent := tmp;
    }

    method RotateLeft(elm: Node, ghost s: set<Node>, ghost z: Path, ghost t: Tree) returns (tmp: Node)
      requires t.Fork? && t.r.Fork? && t.x == elm && Focus(Snap(s), root, z, t)
      modifies `root, s
      ensures tmp == t.r.x
      ensures Focus(Snap(s), root, z, Fork(Fork(t.l, t.x, t.c, t.r.l), t.r.x, t.r.c, t.r.r))
    {
      hide Rotated, Rotatable;
      ghost var m, root0 := Snap(s), root;
      assert m[elm] == At(elm);
      hide Focus, Snap;
      RotationReady(L, m, root, z, t.l, elm, t.c, t.r.l, t.r.x, t.r.c, t.r.r);
      tmp := TurnLeft(elm, s);
      Rotation(L, m, Snap(s), root0, root, z, t.l, elm, t.c, t.r.l, t.r.x, t.r.c, t.r.r);
    }

    // The pointer writes of a rotation to the right.
    method TurnRight(elm: Node, ghost s: set<Node>) returns (tmp: Node)
      requires Rotatable(R, Snap(s), elm)
      modifies `root, s
      ensures tmp == old(elm.left) && Rotated(R, old(Snap(s)), Snap(s), elm, old(root), root)
    {
      ghost var m := Snap(s);
      assert m[elm] == At(elm) && m[elm.left] == At(elm.left);
      tmp := elm.left;
      elm.left := tmp.right;
      if elm.left != null {
        tmp.right.parent := elm;
      }
      tmp.parent := elm.parent;
      if tmp.parent != null {
        if elm == elm.parent.left {
          elm.parent.left := tmp;
        } else {
          elm.parent.right := tmp;
        }
      } else {
        root := tmp;
      }
      tmp.right := elm;
      elm.parent := tmp;
    }

    method RotateRight(elm: Node, ghost s: set<Node>, ghost z: Path, ghost t: Tree) returns (tmp: Node)
      requires t.Fork? && t.l.Fork? && t.x == elm && Focus(Snap(s), root, z, t)
      modifies `root, s
      ensures tmp == t.l.x
      ensures Focus(Snap(s), root, z, Fork(t.l.l, t.l.x, t.l.c, Fork(t.l.r, t.x, t.c, t.r)))
    {
      hide Rotated, Rotatable;
      ghost var m, root0 := Snap(s), root;
      assert m[elm] == At(elm);
      hide Focus, Snap;
      RotationReady(R, m, root, z, t.r, elm, t.c, t.l.r, t.l.x, t.l.c, t.l.l);
      tmp := TurnRight(elm, s);
      Rotation(R, m, Snap(s), root0, root, z, t.r, elm, t.c, t.l.r, t.l.x, t.l.c, t.l.l);
    }

    method SetColor(x: Node, c: Color, ghost s: set<Node>)
      requires x in s
      modifies x
      ensures Snap(s) == Coloured(old(Snap(s)), x, c)
    {
      x.color := c;
    }

    method SetBlackRed(black: Node, red: Node, ghost s: set<Node>)
      requires black in s && red in s
      modifies black, red
      ensures Snap(s) == Coloured(Coloured(old(Snap(s)), black, Black), red, Red)
    {
      black.color := Black;
      red.color := Red;
    }

    method FixUncle(parent: Node, gparent: Node, uncle: Node, ghost s: set<Node>, ghost z: Path, ghost t: Tree,
        ghost n: nat)
      requires Focus(Snap(s), root, z, t) && RedFocus(z, t, n)
      requires z.Step? && z.c == Red && IsRed(z.up.sib)
      requires parent == z.x && gparent == z.up.x && uncle == z.up.sib.x
      modifies s
      ensures Focus(Snap(s), root, z.up.up, Recoloured(z, t)) && RedFocus(z.up.up, Recoloured(z, t), n + 1)
      ensures Whole(z.up.up, Recoloured(z, t)) == Whole(z, t) && Depth(z.up.up) < Depth(z)
    {
      ghost var m := Snap(s);
      RecolourFocus(m, root, z, t);
      RecolourSound(z, t, n);
      RecolourOrder(z, t);
      SetColor(uncle, Black, s);
      SetBlackRed(parent, gparent, s);
    }

    // Either rotation, stated once for both sides.
    method Rotate(side: Side, elm: Node, ghost s: set<Node>, ghost z: Path,
                  ghost a: Tree, ghost ce: Color, ghost b: Tree, ghost y: Node, ghost cy: Color, ghost d: Tree)
      requires Focus(Snap(s), root, z, Make(side, a, elm, ce, Make(side, b, y, cy, d)))
      modifies this, s
      ensures Focus(Snap(s), root, z, Make(side, Make(side, a, elm, ce, b), y, cy, d))
    {
      if side == L {
        var tmp := RotateLeft(elm, s, z, Fork(a, elm, ce, Fork(b, y, cy, d)));
      } else {
        var tmp := RotateRight(elm, s, z, Fork(Fork(d, y, cy, b), elm, ce, a));
      }
    }

    method TurnInner(side: Side, parent: Node, ghost s: set<Node>, ghost z: Path, ghost t: Tree, ghost n: nat)
      requires Focus(Snap(s), root, z, t) && RedFocus(z, t, n) && z.Step? && z.c == Red
      requires z.up.side == side && z.side == side.Other() && parent == z.x
      modifies this, s
      ensures Focus(Snap(s), root, InnerPath(z, t), InnerTree(z, t))
    {
      Zip(Snap(s), root, z, t);
      var near, far := if side == L then t.l else t.r, if side == L then t.r else t.l;
      Rotate(side, parent, s, z.up, z.sib, Red, near, t.x, Red, far);
      Zip(Snap(s), root, InnerPath(z, t), InnerTree(z, t));
    }

    method TurnOuter(side: Side, parent: Node, gparent: Node, ghost s: set<Node>, ghost z: Path, ghost t: Tree,
        ghost n: nat)
      requires Focus(Snap(s), root, z, t) && RedFocus(z, t, n) && z.Step? && z.c == Red && !IsRed(z.up.sib)
      requires z.up.side == side && z.side == side && parent == z.x && gparent == z.up.x
      modifies this, s
      ensures Focus(Snap(s), root, OuterPath(z), t)
    {
      SwapColours(Snap(s), root, z, t);
      SetBlackRed(parent, gparent, s);
      Rotate(side.Other(), gparent, s, z.up.up, z.up.sib, Red, z.sib, z.x, Black, t);
      Zip(Snap(s), root, OuterPath(z), t);
    }

    // One round of the loop when the red parent is a left child.
    method FixLeft(elm0: Node, ghost s: set<Node>, ghost z: Path, ghost t: Tree, ghost n: nat)
      returns (elm: Node, ghost z': Path, ghost t': Tree, ghost n': nat)
      requires Focus(Snap(s), root, z, t) && RedFocus(z, t, n) && elm0 == t.x
      requires z.Step? && z.c == Red && z.up.side == L
      modifies this, s
      ensures Focus(Snap(s), root, z', t') && RedFocus(z', t', n') && elm == t'.x
      ensures Whole(z', t') == Whole(z, t) && Depth(z') < Depth(z)
    {
      elm, z', t', n' := elm0, z, t, n;
      Look(s, root, z, t);
      Zip(Snap(s), root, z, t);
      Look(s, root, z.up, ZipUp(z, t));
      var parent := elm.parent;
      var gparent := parent.parent;
      var tmp := gparent.right;
      if tmp != null && tmp.color == Red {
        FixUncle(parent, gparent, tmp, s, z, t, n);
        elm := gparent;
        z', t', n' := z.up.up, Recoloured(z, t), n + 1;
        return;
      }
      if parent.right == elm {
        InnerStep(z, t, n);
        TurnInner(L, parent, s, z, t, n);
        parent, elm := elm, parent;
        z', t' := InnerPath(z, t), InnerTree(z, t);
      }
      OuterStep(z', t', n);
      TurnOuter(L, parent, gparent, s, z', t', n);
      z' := OuterPath(z');
    }

    // One round of the loop when the red parent is a right child.
    method FixRight(elm0: Node, ghost s: set<Node>, ghost z: Path, ghost t: Tree, ghost n: nat)
      returns (elm: Node, ghost z': Path, ghost t': Tree, ghost n': nat)
      requires Focus(Snap(s), root, z, t) && RedFocus(z, t, n) && elm0 == t.x
      requires z.Step? && z.c == Red && z.up.side == R
      modifies this, s
      ensures Focus(Snap(s), root, z', t') && RedFocus(z', t', n') && elm == t'.x
      ensures Whole(z', t') == Whole(z, t) && Depth(z') < Depth(z)
    {
      elm, z', t', n' := elm0, z, t, n;
      Look(s, root, z, t);
      Zip(Snap(s), root, z, t);
      Look(s, root, z.up, ZipUp(z, t));
      var parent := elm.parent;
      var gparent := parent.parent;
      var tmp := gparent.left;
      if tmp != null && tmp.color == Red {
        FixUncle(parent, gparent, tmp, s, z, t, n);
        elm := gparent;
        z', t', n' := z.up.up, Recoloured(z, t), n + 1;
        return;
      }
      if parent.left == elm {
        InnerStep(z, t, n);
        TurnInner(R, parent, s, z, t, n);
        parent, elm := elm, parent;
        z', t' := InnerPath(z, t), InnerTree(z, t);
      }
      OuterStep(z', t', n);
      TurnOuter(R, parent, gparent, s, z', t', n);
      z' := OuterPath(z');
    }

    method BlackenRoot(ghost s: set<Node>, ghost z: Path, ghost t: Tree, ghost n: nat) returns (ghost whole: Tree)
      requires Focus(Snap(s), root, z, t) && RedFocus(z, t, n) && EdgeOk(z, t)
      modifies s
      ensures Focus(Snap(s), root, Top, whole) && RedBlack(whole) && Inorder(whole) == Whole(z, t)
    {
      ghost var k := PlugSound(z, t, n);
      PlugFocus(Snap(s), root, z, t);
      PlugWhole(z, t);
      PlugFork(z, t);
      whole := Plug(z, t);
      Look(s, root, Top, whole);
      Paint(Snap(s), root, Top, whole, Black);
      ghost var m := Snap(s);
      SetColor(root, Black, s);
      whole := BlackRoot(whole, k);
    }

    // The loop visits ever higher focuses, one a step; a red parent always has a black grandparent.
    method InsertColor(elm0: Node, ghost s: set<Node>, ghost z0: Path, ghost t0: Tree, ghost n0: nat)
      returns (ghost whole: Tree, ghost steps: nat)
      requires Focus(Snap(s), root, z0, t0) && RedFocus(z0, t0, n0) && elm0 == t0.x
      modifies this, s
      ensures Focus(Snap(s), root, Top, whole) && RedBlack(whole) && Inorder(whole) == Whole(z0, t0)
      ensures steps <= Depth(z0)
    {
      hide Focus, Snap, Whole, RedBlack;
      steps := 0;
      var elm := elm0;
      ghost var z, t, n := z0, t0, n0;
      Look(s, root, z, t);
      while elm.parent != null && elm.parent.color == Red
        invariant Focus(Snap(s), root, z, t) && RedFocus(z, t, n) && elm == t.x && elm.parent == Up(z)
        invariant z.Step? ==> z.x in s && z.x.color == z.c
        invariant Whole(z, t) == Whole(z0, t0) && steps + Depth(z) <= Depth(z0)
        decreases Depth(z)
      {
        steps := steps + 1;
        var parent := elm.parent;
        var gparent := parent.parent;
        Zip(Snap(s), root, z, t);
        Look(s, root, z.up, ZipUp(z, t));
        if parent == gparent.left {
          elm, z, t, n := FixLeft(elm, s, z, t, n);
        } else {
          elm, z, t, n := FixRight(elm, s, z, t, n);
        }
        Look(s, root, z, t);
      }
      whole := BlackenRoot(s, z, t, n);
    }

    // --- Removal fix-up ---

    method LowerSibling(side: Side, parent: Node, tmp: Node, ghost s: set<Node>, ghost z: Path, ghost t: Tree)
      requires Focus(Snap(s), root, z, t) && z.Step? && z.side == side && z.sib.Fork?
      requires parent == z.x && tmp == z.sib.x
      modifies this, s
      ensures Focus(Snap(s), root, LoweredPath(z), t)
    {
      ghost var m := Snap(s);
      PaintSibling(m, root, z, t, Black);
      ghost var z1 := z.(sib := z.sib.(c := Black));
      PaintParent(Coloured(m, tmp, Black), root, z1, t, Red);
      SetBlackRed(tmp, parent, s);
      Zip(Snap(s), root, z1.(c := Red), t);
      Rotate(side, parent, s, z.up, t, Red, Near(z), tmp, Black, Far(z));
      Zip(Snap(s), root, LoweredPath(z).up, ZipUp(LoweredPath(z), t));
      Zip(Snap(s), root, LoweredPath(z), t);
    }

    method ReddenSibling(tmp: Node, ghost s: set<Node>, ghost z: Path, ghost t: Tree)
      requires Focus(Snap(s), root, z, t) && z.Step? && z.sib.Fork? && tmp == z.sib.x
      modifies s
      ensures Focus(Snap(s), root, z.up, Reddened(z, t))
    {
      PaintSibling(Snap(s), root, z, t, Red);
      SetColor(tmp, Red, s);
      Zip(Snap(s), root, z.(sib := z.sib.(c := Red)), t);
    }

    method TurnSibling(side: Side, tmp: Node, near: Node, ghost s: set<Node>, ghost z: Path, ghost t: Tree)
      requires Focus(Snap(s), root, z, t) && z.Step? && z.side == side && z.sib.Fork? && Near(z).Fork?
      requires tmp == z.sib.x && near == Near(z).x
      modifies this, s
      ensures Focus(Snap(s), root, TurnedPath(z), t)
    {
      hide Focus, Rep;
      TurnColours(Snap(s), root, z, t);
      assert near in s && tmp in s;
      hide Snap, Coloured;
      ghost var o := Near(z);
      ghost var a, b := if side == L then o.l else o.r, if side == L then o.r else o.l;
      SetColor(near, Black, s);
      SetColor(tmp, Red, s);
      ghost var above := Step(side.Other(), z.x, z.c, t, z.up);
      Rotate(side.Other(), tmp, s, above, Far(z), Red, b, near, Black, a);
      SwingFocus(Snap(s), root, above, TurnedPath(z).sib);
    }

    method LiftSibling(side: Side, parent: Node, tmp: Node, far: Node, ghost s: set<Node>, ghost z: Path, ghost t: Tree)
      requires Focus(Snap(s), root, z, t) && z.Step? && z.side == side && z.sib.Fork? && Far(z).Fork?
      requires parent == z.x && parent.color == z.c && tmp == z.sib.x && far == Far(z).x
      modifies this, s
      ensures Focus(Snap(s), root, z.up, LiftedTree(z, t))
    {
      hide Focus, Rep;
      LiftColours(Snap(s), root, z, t);
      assert tmp in s && parent in s && far in s && tmp != parent;
      hide Snap, Coloured;
      SetColor(tmp, parent.color, s);
      SetColor(parent, Black, s);
      SetColor(far, Black, s);
      Rotate(side, parent, s, z.up, t, Black, Near(z), tmp, z.c, Far(z).(c := Black));
    }

    // The sibling has a red child: after at most two rotations nothing is missing any more.
    method Absorb(side: Side, parent: Node, tmp0: Node, ghost s: set<Node>, ghost z0: Path, ghost t0: Tree,
        ghost n0: nat)
      returns (ghost z: Path, ghost t: Tree, ghost n: nat)
      requires Focus(Snap(s), root, z0, t0) && ShortFocus(z0, t0, n0) && !IsRed(t0)
      requires z0.Step? && z0.side == side && parent == z0.x && z0.sib.Fork? && !IsRed(z0.sib) && tmp0 == z0.sib.x
      requires IsRed(Near(z0)) || IsRed(Far(z0))
      modifies this, s
      ensures Focus(Snap(s), root, Top, t) && z == Top && ShortFocus(z, t, n)
      ensures Whole(z, t) == Whole(z0, t0)
    {
      hide Focus, Snap, Whole, Sound, SoundPath;
      z, t, n := z0, t0, n0;
      var tmp := tmp0;
      Look(s, root, z, t);
      LookNephews(s, root, z, t);
      var far := if side == L then tmp.right else tmp.left;
      if far == null || far.color == Black {
        TurnStep(z, t, n);
        TurnSibling(side, tmp, if side == L then tmp.left else tmp.right, s, z, t);
        z := TurnedPath(z);
        Look(s, root, z, t);
        tmp := if side == L then parent.right else parent.left;
      }
      ghost var k := LiftStep(z, t, n);
      LiftSibling(side, parent, tmp, if side == L then tmp.right else tmp.left, s, z, t);
      n := ZipToTop(Snap(s), root, z.up, LiftedTree(z, t), k);
      z, t := Top, Plug(z.up, LiftedTree(z, t));
    }

    // One round of the loop when the short subtree is a left child.
    method RemoveLeft(elm0: Node?, parent0: Node, ghost s: set<Node>, ghost z0: Path, ghost t0: Tree, ghost n0: nat)
      returns (elm: Node?, parent: Node?, ghost z: Path, ghost t: Tree, ghost n: nat)
      requires Focus(Snap(s), root, z0, t0) && ShortFocus(z0, t0, n0) && !IsRed(t0)
      requires z0.Step? && z0.side == L && elm0 == Ptr(t0) && parent0 == z0.x
      modifies this, s
      ensures Focus(Snap(s), root, z, t) && ShortFocus(z, t, n) && elm == Ptr(t) && (z.Step? ==> parent == z.x)
      ensures Whole(z, t) == Whole(z0, t0) && (IsRed(t) || Depth(z) < Depth(z0))
    {
      hide Focus, Whole, Sound, SoundPath, Elems, PathElems;
      elm, parent, z, t, n := elm0, parent0, z0, t0, n0;
      Look(s, root, z, t);
      SiblingExists(z, n);
      var tmp := parent0.right;
      if tmp.color == Red {
        LowerStep(z, t, n);
        LowerSibling(L, parent0, tmp, s, z, t);
        z := LoweredPath(z);
        Look(s, root, z, t);
        SiblingExists(z, n);
        tmp := parent0.right;
      }
      LookNephews(s, root, z, t);
      if (tmp.left == null || tmp.left.color == Black) && (tmp.right == null || tmp.right.color == Black) {
        ReddenStep(z, t, n);
        ReddenSibling(tmp, s, z, t);
        elm := parent;
        z, t, n := z.up, Reddened(z, t), if z.c == Black then n + 1 else n;
        Look(s, root, z, t);
        parent := elm.parent;
      } else {
        z, t, n := Absorb(L, parent0, tmp, s, z, t, n);
        Look(s, root, z, t);
        elm := root;
      }
    }

    // One round of the loop when the short subtree is a right child.
    method RemoveRight(elm0: Node?, parent0: Node, ghost s: set<Node>, ghost z0: Path, ghost t0: Tree, ghost n0: nat)
      returns (elm: Node?, parent: Node?, ghost z: Path, ghost t: Tree, ghost n: nat)
      requires Focus(Snap(s), root, z0, t0) && ShortFocus(z0, t0, n0) && !IsRed(t0)
      requires z0.Step? && z0.side == R && elm0 == Ptr(t0) && parent0 == z0.x
      modifies this, s
      ensures Focus(Snap(s), root, z, t) && ShortFocus(z, t, n) && elm == Ptr(t) && (z.Step? ==> parent == z.x)
      ensures Whole(z, t) == Whole(z0, t0) && (IsRed(t) || Depth(z) < Depth(z0))
    {
      hide Focus, Whole, Sound, SoundPath, Elems, PathElems;
      elm, parent, z, t, n := elm0, parent0, z0, t0, n0;
      Look(s, root, z, t);
      SiblingExists(z, n);
      var tmp := parent0.left;
      if tmp.color == Red {
        LowerStep(z, t, n);
        LowerSibling(R, parent0, tmp, s, z, t);
        z := LoweredPath(z);
        Look(s, root, z, t);
        SiblingExists(z, n);
        tmp := parent0.left;
      }
      LookNephews(s, root, z, t);
      if (tmp.left == null || tmp.left.color == Black) && (tmp.right == null || tmp.right.color == Black) {
        ReddenStep(z, t, n);
        ReddenSibling(tmp, s, z, t);
        elm := parent;
        z, t, n := z.up, Reddened(z, t), if z.c == Black then n + 1 else n;
        Look(s, root, z, t);
        parent := elm.parent;
      } else {
        z, t, n := Absorb(R, parent0, tmp, s, z, t, n);
        Look(s, root, z, t);
        elm := root;
      }
    }

    // The shortage moves up until a red node, the root, or a lifted sibling absorbs it.
    method RemoveColor(parent0: Node?, elm0: Node?, ghost s: set<Node>, ghost z0: Path, ghost t0: Tree, ghost n0: nat)
      returns (ghost whole: Tree, ghost steps: nat)
      requires Focus(Snap(s), root, z0, t0) && ShortFocus(z0, t0, n0) && elm0 == Ptr(t0) && parent0 == Up(z0)
      modifies this, s
      ensures Focus(Snap(s), root, Top, whole) && RedBlack(whole) && Inorder(whole) == Whole(z0, t0)
      ensures steps <= 1 + Depth(z0)
    {
      hide Rep, Elems, PathRep, Snap;
      steps := 0;
      hide Focus, Snap, Inorder, Plug;
      var elm, parent := elm0, parent0;
      ghost var z, t, n := z0, t0, n0;
      Look(s, root, z, t);
      AtRoot(Snap(s), root, z, t);
      while (elm == null || elm.color == Black) && elm != root
        invariant Focus(Snap(s), root, z, t) && ShortFocus(z, t, n) && elm == Ptr(t) && (z.Step? ==> parent == z.x)
        invariant elm != null ==> elm in s && elm.color == t.c
        invariant elm == root <==> z.Top?
        invariant Whole(z, t) == Whole(z0, t0) && steps + (if IsRed(t) then 0 else 1 + Depth(z)) <= 1 + Depth(z0)
        decreases if IsRed(t) then 0 else 1 + Depth(z)
      {
        steps := steps + 1;
        Look(s, root, z, t);
        if parent.left == elm {
          elm, parent, z, t, n := RemoveLeft(elm, parent, s, z, t, n);
        } else {
          elm, parent, z, t, n := RemoveRight(elm, parent, s, z, t, n);
        }
        Look(s, root, z, t);
        AtRoot(Snap(s), root, z, t);
      }
      if elm != null {
        BlackenStep(Snap(s), root, z, t, n);
        SetColor(elm, Black, s);
      }
      whole := if t.Nil? then Nil else Plug(z, t.(c := Black));
      assert whole.Nil? ==> RedBlack(whole);
    }

    // --- The operations on the whole tree ---

    // A new red leaf below parent, on the side the last comparison chose.
    method Link(elm: Node, parent: Node?, comp: int, ghost s: set<Node>, ghost z: Path)
      requires Focus(Snap(s), root, z, Nil) && elm !in s
      requires parent == Up(z) && (z.Step? ==> (z.side == L <==> comp < 0))
      modifies `root, s, elm
      ensures Focus(Snap(s + {elm}), root, z, Fork(Nil, elm, Red, Nil))
    {
      ghost var m, root0 := Snap(s), root;
      PathCovers(s, z, null, root);
      Look(s, root, z, Nil);
      elm.parent := parent;
      elm.left, elm.right := null, null;
      elm.color := Red;
      if parent != null {
        if comp < 0 {
          parent.left := elm;
        } else {
          parent.right := elm;
        }
      } else {
        root := elm;
      }
      Attach(m, Snap(s + {elm}), root0, root, z, elm);
    }

    // The descent of an insertion: the node already holding an equal key, or the parent for a new leaf.
    method FindPlace(key: Key)
      returns (tmp: Node?, parent: Node?, comp: int, ghost z: Path, ghost n: nat, ghost steps: nat)
      requires Valid()
      ensures Valid() && Snap(members) == old(Snap(members))
      ensures tmp != null ==> tmp in Nodes() && cmp(key, tmp.key) == 0
      ensures tmp == null ==>
        && Searching(cmp, Snap(members), root, z, Nil, n, key, Nodes())
        && parent == Up(z) && (z.Step? ==> (z.side == L <==> comp < 0)) && Depth(z) == steps
      ensures steps <= Height(shape)
    {
      hide Elems, Snap;
      steps := 0;
      tmp, parent, comp := root, null, 0;
      ghost var t, s := shape, members;
      z, n := Top, BlackHeight(shape);
      assert Whole(Top, shape) == Nodes();
      while tmp != null
        invariant Searching(cmp, Snap(s), root, z, t, n, key, Nodes()) && tmp == Ptr(t) && parent == Up(z)
        invariant z.Step? ==> (z.side == L <==> comp < 0)
        invariant Depth(z) == steps && steps + Height(t) <= Height(shape)
        decreases t
      {
        steps := steps + 1;
        Look(s, root, z, t);
        parent := tmp;
        comp := cmp(key, parent.key);
        if comp < 0 {
          tmp := tmp.left;
          n := SearchDown(cmp, Snap(s), root, z, t, n, key, Nodes(), L);
          z, t := DownPath(L, z, t), DownTree(L, t);
        } else if comp > 0 {
          tmp := tmp.right;
          n := SearchDown(cmp, Snap(s), root, z, t, n, key, Nodes(), R);
          z, t := DownPath(R, z, t), DownTree(R, t);
        } else {
          SearchHit(cmp, Snap(s), root, z, t, n, key, Nodes());
          return;
        }
      }
    }

    method AddLeaf(elm: Node, parent: Node?, comp: int, ghost z: Path) returns (ghost steps: nat)
      requires Comparator(cmp) && elm !in members
      requires Focus(Snap(members), root, z, Nil) && SoundPath(z, 0) && Sorted(cmp, Before(z) + [elm] + After(z))
      requires parent == Up(z) && (z.Step? ==> (z.side == L <==> comp < 0))
      modifies this, members, elm
      ensures Valid() && Nodes() == Before(z) + [elm] + After(z) && steps <= Depth(z)
    {
      hide Focus, Rep, Snap, Before, After, RedBlack, Elems, Sorted, Comparator;
      ghost var s := members + {elm};
      Link(elm, parent, comp, members, z);
      ghost var leaf := Fork(Nil, elm, Red, Nil);
      RedLeaf(elm, z);
      shape, steps := InsertColor(elm, s, z, leaf, 0);
      Restrict(s, root, shape);
      members := Elems(shape);
    }

    // The descent and the loop behind it make no more than twice as many steps as the tree was high.
    method Insert(elm: Node) returns (r: Node?, ghost steps: nat)
      requires Valid()
      modifies this, members, elm
      ensures Valid()
      ensures elm in old(Nodes()) ==> r == elm
      ensures r != null ==> r in old(Nodes()) && cmp(elm.key, r.key) == 0
      ensures r != null ==> unchanged(this) && unchanged(elm) && old(Snap(members)) == Snap(members)
      ensures r == null ==> forall x | x in old(Nodes()) :: cmp(elm.key, x.key) != 0
      ensures r == null ==> Inserted(old(Nodes()), elm, Nodes())
      ensures steps <= 2 * Height(old(shape))
    {
      ghost var z, n;
      var parent, comp;
      r, parent, comp, z, n, steps := FindPlace(elm.key);
      if r != null {
        if elm in Nodes() { KeyIsUnique(cmp, Nodes(), elm, r); }
        return;
      }
      SearchMiss(cmp, Snap(members), root, z, n, elm.key, Nodes());
      ComparesEqual(cmp, elm.key);
      InorderElems(shape);
      InsertedBetween(Before(z), elm, After(z));
      InsertOrder(cmp, z, elm);
      ghost var more := AddLeaf(elm, parent, comp, z);
      steps := steps + more;
    }

    // --- Removal ---

    // The pointer writes that put child in the place of elm.
    method Bypass(elm: Node, child: Node?, ghost s: set<Node>)
      requires elm in s && (child != null ==> child in s && child != elm && child != elm.parent)
      requires elm.parent != null ==> elm.parent in s && elm.parent != elm
      modifies `root, s
      ensures Unlinked(old(Snap(s)), Snap(s), elm, child, old(root), root)
      ensures elm.parent == old(elm.parent) && elm.color == old(elm.color)
    {
      ghost var m := Snap(s);
      assert m[elm] == At(elm);
      var parent := elm.parent;
      if child != null {
        child.parent := parent;
      }
      if parent != null {
        if parent.left == elm {
          parent.left := child;
        } else {
          parent.right := child;
        }
      } else {
        root := child;
      }
    }

    // elm, which has at most one child, is cut out.
    method Unlink(elm: Node, child: Node?, ghost s: set<Node>, ghost z: Path, ghost t: Tree, ghost c: Tree)
      requires Focus(Snap(s), root, z, t) && t.Fork? && t.x == elm && child == Ptr(c)
      requires (t.l.Nil? && c == t.r) || (t.r.Nil? && c == t.l)
      modifies `root, s
      ensures Focus(Snap(s), root, z, c)
      ensures elm.parent == old(elm.parent) && elm.color == old(elm.color)
    {
      hide Unlinked;
      ghost var m, root0 := Snap(s), root;
      ExciseReady(m, root, z, t, c);
      assert m[elm] == At(elm);
      hide Focus, Elems, PathElems;
      Bypass(elm, child, s);
      Excise(m, Snap(s), root0, root, z, t, c);
    }

    // The writes that give elm the links and the colour of old_ and turn its neighbours' links to elm.
    method TakePlace(old_: Node, elm: Node, ghost s: set<Node>)
      requires old_ in s && elm in s && elm != old_
      requires old_.parent != null ==> old_.parent in s && old_.parent != old_ && old_.parent != elm
      requires old_.left != null && old_.left in s && old_.left !in {old_, elm} && old_.left != old_.parent
      requires old_.right != null ==>
        old_.right in s && old_.right !in {old_, elm, old_.left} && old_.right != old_.parent
      modifies `root, s
      ensures Transplanted(old(Snap(s)), Snap(s), old_, elm, old(root), root)
    {
      ghost var m := Snap(s);
      assert m[old_] == At(old_);
      elm.left, elm.right, elm.parent, elm.color := old_.left, old_.right, old_.parent, old_.color;
      if old_.parent != null {
        if old_.parent.left == old_ {
          old_.parent.left := elm;
        } else {
          old_.parent.right := elm;
        }
      } else {
        root := elm;
      }
      old_.left.parent := elm;
      if old_.right != null {
        old_.right.parent := elm;
      }
    }

    // elm, already cut out, takes over the place of old_.
    method Replace(old_: Node, elm: Node, ghost s: set<Node>, ghost z: Path, ghost t: Tree)
      requires Focus(Snap(s), root, z, t) && t.Fork? && t.x == old_ && t.l.Fork?
      requires elm in s && elm !in Elems(t) && elm !in PathElems(z)
      modifies `root, s
      ensures Focus(Snap(s), root, z, t.(x := elm))
    {
      hide Transplanted;
      ghost var m, root0 := Snap(s), root;
      TransplantReady(m, root, z, t);
      assert m[old_] == At(old_);
      assert old_ in Elems(t);
      hide Focus, Elems, PathElems;
      TakePlace(old_, elm, s);
      Transplant(m, Snap(s), root0, root, z, t, elm);
    }

    // The leftmost node below old_'s right child.
    method Successor(old_: Node, ghost s: set<Node>, ghost z: Path, ghost t: Tree, ghost n: nat, ghost nodes: seq<Node>)
      returns (elm: Node, ghost rel: Path, ghost t1: Tree, ghost k: nat, ghost steps: nat)
      requires Placed(Snap(s), root, z, t, n, nodes) && t.Fork? && t.x == old_ && t.r.Fork?
      ensures Placed(Snap(s), root, Join(rel, DownPath(R, z, t)), t1, k, nodes) && AllLeft(rel)
      ensures t1.Fork? && t1.l.Nil? && t1.x == elm
      ensures Depth(rel) == steps && steps + Height(t1) < Height(t)
    {
      hide PathElems, Sound;
      steps := 0;
      ghost var base := DownPath(R, z, t);
      Look(s, root, z, t);
      elm := old_.right;
      k := PlacedDown(R, Snap(s), root, z, t, n, nodes);
      rel, t1 := Top, t.r;
      Look(s, root, base, t1);
      while elm.left != null
        invariant Placed(Snap(s), root, Join(rel, base), t1, k, nodes) && AllLeft(rel) && t1.Fork? && t1.x == elm
        invariant elm.left == Ptr(t1.l) && Depth(rel) == steps && steps + Height(t1) < Height(t)
        decreases t1
      {
        steps := steps + 1;
        elm := elm.left;
        k := PlacedDown(L, Snap(s), root, Join(rel, base), t1, k, nodes);
        rel, t1 := DownPath(L, rel, t1), t1.l;
        Look(s, root, Join(rel, base), t1);
      }
    }

    method ReplaceAbove(old_: Node, elm: Node, ghost s: set<Node>, ghost z: Path, ghost t: Tree, ghost rel: Path,
        ghost c: Tree)
      requires t.Fork? && t.x == old_ && t.l.Fork? && Focus(Snap(s), root, Join(rel, DownPath(R, z, t)), c)
      requires elm in s && elm !in Elems(c) && elm !in PathElems(Join(rel, DownPath(R, z, t)))
      modifies `root, s
      ensures Focus(Snap(s), root, Join(rel, DownPath(R, z, t).(x := elm)), c)
      ensures rel.Step? ==> rel.x != old_
    {
      ghost var base, rest := DownPath(R, z, t), Plug(rel, c);
      JoinFocus(Snap(s), root, rel, base, c);
      JoinElems(rel, base, c);
      Zip(Snap(s), root, base, rest);
      Replace(old_, elm, s, z, Fork(t.l, old_, t.c, rest));
      Zip(Snap(s), root, base.(x := elm), rest);
      JoinFocus(Snap(s), root, rel, base.(x := elm), c);
    }

    // A node with two children: its successor is cut out and takes its place.
    method SpliceSuccessor(old_: Node, ghost s: set<Node>, ghost z: Path, ghost t: Tree, ghost n: nat,
        ghost nodes: seq<Node>)
      returns (child: Node?, parent: Node?, color: Color, ghost z': Path, ghost c: Tree, ghost k: nat,
        ghost p: seq<Node>, ghost q: seq<Node>, ghost steps: nat)
      requires Placed(Snap(s), root, z, t, n, nodes) && t.Fork? && t.x == old_ && t.l.Fork? && t.r.Fork?
      modifies `root, s
      ensures Depth(z') == Depth(z) + 1 + steps < Depth(z) + Height(t)
      ensures Focus(Snap(s), root, z', c) && child == Ptr(c) && parent == Up(z') && CutOut(color, z', c, k)
      ensures nodes == p + [old_] + q && Whole(z', c) == p + q
    {
      ghost var base := DownPath(R, z, t);
      var elm;
      ghost var rel, t1;
      elm, rel, t1, k, steps := Successor(old_, s, z, t, n, nodes);
      JoinDepth(rel, base.(x := elm));
      c, z' := t1.r, Join(rel, base.(x := elm));
      p, q := Before(z) + Inorder(t.l), [elm] + Inorder(c) + After(Join(rel, base));
      SpliceOrder(rel, base, elm, t1.c, c);
      SpliceColours(rel, base, t1, k);
      Look(s, root, Join(rel, base), t1);
      child := elm.right;
      parent := elm.parent;
      color := elm.color;
      Unlink(elm, child, s, Join(rel, base), t1, c);
      if elm.parent == old_ {
        parent := elm;
      }
      ReplaceAbove(old_, elm, s, z, t, rel, c);
    }

    // The tree is closed up again after a node of the given colour was cut out at z.
    method CloseUp(color: Color, parent: Node?, child: Node?, ghost s: set<Node>, ghost z: Path, ghost c: Tree,
        ghost n: nat)
      returns (ghost steps: nat)
      requires Focus(Snap(s), root, z, c) && CutOut(color, z, c, n) && child == Ptr(c) && parent == Up(z)
      modifies this, s
      ensures Focus(Snap(members), root, Top, shape) && members == Elems(shape) && RedBlack(shape)
      ensures Nodes() == Whole(z, c) && steps <= 1 + Depth(z)
    {
      hide Depth, Rep, PathRep;
      steps := 0;
      hide Focus, Snap, Whole, Inorder, Sound, SoundPath, ShortFocus, Elems, EdgeOk;
      if color == Black {
        shape, steps := RemoveColor(parent, child, s, z, c, n - 1);
      } else {
        PlugFocus(Snap(s), root, z, c);
        PlugWhole(z, c);
        ghost var k := PlugSound(z, c, n);
        HeightIsUnique(Plug(z, c), k);
        shape := Plug(z, c);
      }
      Restrict(s, root, shape);
      members := Elems(shape);
    }

    // A node with at most one child.
    method SpliceNode(elm: Node, ghost s: set<Node>, ghost z: Path, ghost t: Tree, ghost n: nat, ghost nodes: seq<Node>)
      returns (child: Node?, parent: Node?, color: Color, ghost c: Tree, ghost p: seq<Node>, ghost q: seq<Node>)
      requires Placed(Snap(s), root, z, t, n, nodes) && t.Fork? && t.x == elm && (t.l.Nil? || t.r.Nil?)
      modifies `root, s
      ensures Focus(Snap(s), root, z, c) && child == Ptr(c) && parent == Up(z) && CutOut(color, z, c, n)
      ensures nodes == p + [elm] + q && Whole(z, c) == p + q
    {
      Look(s, root, z, t);
      child := if elm.left == null then elm.right else elm.left;
      parent := elm.parent;
      color := elm.color;
      c, p, q := if t.l.Nil? then t.r else t.l, Before(z) + Inorder(t.l), Inorder(t.r) + After(z);
      ExciseColours(z, t, n, c);
      ExciseOrder(z, t, c);
      Unlink(elm, child, s, z, t, c);
    }

    // The way to the successor and the loop behind it make no more than twice as many steps as the tree was high.
    method Remove(elm: Node) returns (r: Node, ghost steps: nat)
      requires Valid() && elm in members
      modifies this, members
      ensures Valid() && r == elm
      ensures Removed(old(Nodes()), elm, Nodes())
      ensures steps <= 2 * Height(old(shape))
    {
      steps := 0;
      ghost var s, nodes := members, Nodes();
      assert Whole(Top, shape) == nodes;
      ghost var z, t, n := Locate(Snap(s), root, Top, shape, BlackHeight(shape), nodes, elm);
      Look(s, root, z, t);
      var child, parent, color;
      ghost var c, p, q;
      if elm.left == null || elm.right == null {
        child, parent, color, c, p, q := SpliceNode(elm, s, z, t, n, nodes);
      } else {
        child, parent, color, z, c, n, p, q, steps := SpliceSuccessor(elm, s, z, t, n, nodes);
      }
      InsertedBetween(p, elm, q);
      RemoveOrder(cmp, p, elm, q);
      ghost var more := CloseUp(color, parent, child, s, z, c, n);
      r, steps := elm, steps + more;
    }

    // --- Lookup and traversal ---

    // Every tree the operations produce keeps the documented bound height <= 2 lg(n + 1).
    lemma HeightIsLogarithmic()
      requires Valid()
      ensures Pow2(Height(shape)) <= (|Nodes()| + 1) * (|Nodes()| + 1)
    {
      HeightBound(shape);
    }

    // The loop makes no more steps than the tree is high.
    method Find(key: Key) returns (r: Node?, ghost steps: nat)
      requires Valid()
      ensures r != null ==> r in Nodes() && cmp(key, r.key) == 0
      ensures r == null ==> forall x | x in Nodes() :: cmp(key, x.key) != 0
      ensures steps <= Height(shape)
    {
      var tmp := root;
      ghost var z, t, n, s := Top, shape, BlackHeight(shape), members;
      steps := 0;
      assert Whole(Top, shape) == Nodes();
      while tmp != null
        invariant Searching(cmp, Snap(s), root, z, t, n, key, Nodes()) && tmp == Ptr(t)
        invariant steps + Height(t) <= Height(shape)
        decreases t
      {
        Look(s, root, z, t);
        steps := steps + 1;
        var comp := cmp(key, tmp.key);
        if comp < 0 {
          tmp := tmp.left;
          n := SearchDown(cmp, Snap(s), root, z, t, n, key, Nodes(), L);
          z, t := DownPath(L, z, t), DownTree(L, t);
        } else if comp > 0 {
          tmp := tmp.right;
          n := SearchDown(cmp, Snap(s), root, z, t, n, key, Nodes(), R);
          z, t := DownPath(R, z, t), DownTree(R, t);
        } else {
          SearchHit(cmp, Snap(s), root, z, t, n, key, Nodes());
          return tmp, steps;
        }
      }
      SearchMiss(cmp, Snap(s), root, z, n, key, Nodes());
      r := null;
    }

    method MinMax(val: int) returns (parent: Node?, ghost steps: nat)
      requires Valid()
      ensures parent == null <==> Nodes() == []
      ensures parent != null ==> parent == Nodes()[if val < 0 then 0 else |Nodes()| - 1]
      ensures steps <= Height(shape)
    {
      hide Snap, Elems;
      steps := 0;
      var tmp := root;
      parent := null;
      ghost var z, t, n, s := Top, shape, BlackHeight(shape), members;
      assert Whole(Top, shape) == Nodes();
      while tmp != null
        invariant Placed(Snap(s), root, z, t, n, Nodes()) && tmp == Ptr(t) && parent == Up(z)
        invariant if val < 0 then Before(z) == [] else After(z) == []
        invariant z.Step? ==> z.side == if val < 0 then L else R
        invariant steps + Height(t) <= Height(shape)
        decreases t
      {
        steps := steps + 1;
        Look(s, root, z, t);
        parent := tmp;
        if val < 0 {
          tmp := tmp.left;
          n := PlacedDown(L, Snap(s), root, z, t, n, Nodes());
          z, t := DownPath(L, z, t), DownTree(L, t);
        } else {
          tmp := tmp.right;
          n := PlacedDown(R, Snap(s), root, z, t, n, Nodes());
          z, t := DownPath(R, z, t), DownTree(R, t);
        }
      }
      assert Whole(z, Nil) == Before(z) + After(z);
    }

    method NextBelow(elm0: Node, ghost z: Path, ghost t: Tree, ghost n: nat, ghost q: seq<Node>)
      returns (elm: Node, ghost steps: nat)
      requires Valid() && Placed(Snap(members), root, z, t, n, Nodes()) && t.Fork? && t.x == elm0 && t.r.Fork?
      requires q == Inorder(t.r) + After(z)
      ensures q != [] && elm == q[0] && steps < Height(t)
    {
      ghost var rel, t1, k;
      elm, rel, t1, k, steps := Successor(elm0, members, z, t, n, Nodes());
      NextInOrder(z, t, rel, t1);
    }

    method NextAbove(elm0: Node, ghost z0: Path, ghost t0: Tree) returns (elm: Node?, ghost steps: nat)
      requires Focus(Snap(members), root, z0, t0) && t0.Fork? && t0.x == elm0
      ensures elm == if After(z0) == [] then null else After(z0)[0]
      ensures steps <= Depth(z0)
    {
      elm, steps := elm0, 0;
      ghost var z, t, s := z0, t0, members;
      Look(s, root, z, t);
      if elm.parent != null && elm == elm.parent.left {
        elm := elm.parent;
      } else {
        while elm.parent != null && elm == elm.parent.right
          invariant Focus(Snap(s), root, z, t) && t.Fork? && elm == t.x && After(z) == After(z0) && elm.parent == Up(z)
          invariant z.Step? ==> (z.x.right == elm <==> z.side == R)
          invariant steps + Depth(z) <= Depth(z0)
          decreases Depth(z)
        {
          steps := steps + 1;
          Zip(Snap(s), root, z, t);
          elm := elm.parent;
          z, t := z.up, ZipUp(z, t);
          Look(s, root, z, t);
        }
        elm := elm.parent;
      }
    }

    // The successor in order, found through child and parent links only.
    method Next(elm: Node, ghost i: nat) returns (r: Node?, ghost steps: nat)
      requires Valid() && i < |Nodes()| && Nodes()[i] == elm
      ensures r == if i + 1 < |Nodes()| then Nodes()[i + 1] else null
      ensures steps <= Height(shape)
    {
      ghost var nodes, s := Nodes(), members;
      InorderElems(shape);
      assert Whole(Top, shape) == nodes;
      ghost var z, t, n := Locate(Snap(s), root, Top, shape, BlackHeight(shape), nodes, elm);
      ghost var q := RestAfter(cmp, z, t, nodes, i);
      Look(s, root, z, t);
      if elm.right != null {
        r, steps := NextBelow(elm, z, t, n, q);
      } else {
        r, steps := NextAbove(elm, z, t);
      }
    }

    // Minimum first, then successors: every node once, in increasing order.
    method Foreach() returns (visited: seq<Node>)
      requires Valid()
      ensures visited == Nodes()
    {
      visited := [];
      ghost var nodes := Nodes();
      ghost var steps;
      var x;
      x, steps := MinMax(-1);
      while x != null
        invariant Valid() && Nodes() == nodes && |visited| <= |nodes| && visited == nodes[..|visited|]
        invariant if |visited| < |nodes| then x == nodes[|visited|] else x == null
        decreases |nodes| - |visited|
      {
        visited := visited + [x];
        x, steps := Next(x, |visited| - 1);
      }
    }
  }
}
