/** The colour conditions of a red-black tree, stated on the trees of RbShape alone: what every
    fix-up step keeps, and the height bound they give. */
module RbBalance {
  import opened Ordering
  import opened RbShape

  ghost predicate IsRed(t: Tree) {
    t.Fork? && t.c == Red
  }

  // Every path down from the root of t meets n black nodes, and no red node has a red child.
  ghost predicate Sound(t: Tree, n: nat) {
    match t
    case Nil => n == 0
    case Fork(l, _, c, r) =>
      if c == Red then
        !IsRed(l) && !IsRed(r) && Sound(l, n) && Sound(r, n)
      else
        n > 0 && Sound(l, n - 1) && Sound(r, n - 1)
  }

  // Filling the hole of z with a sound tree of black height n gives a sound tree with a black root,
  // but for the edge at the hole itself.
  ghost predicate SoundPath(z: Path, n: nat) {
    match z
    case Top => true
    case Step(_, _, c, sib, up) =>
      && Sound(sib, n)
      && (c == Red ==> up.Step? && up.c == Black && !IsRed(sib))
      && SoundPath(up, if c == Black then n + 1 else n)
  }

  ghost predicate EdgeOk(z: Path, t: Tree) {
    z.Step? && z.c == Red ==> !IsRed(t)
  }

  ghost function BlackHeight(t: Tree): nat {
    match t
    case Nil => 0
    case Fork(l, _, c, _) => BlackHeight(l) + if c == Black then 1 else 0
  }

  ghost predicate RedBlack(t: Tree) {
    !IsRed(t) && Sound(t, BlackHeight(t))
  }

  lemma {:induction false} HeightIsUnique(t: Tree, n: nat)
    requires Sound(t, n)
    ensures n == BlackHeight(t)
  {
    if t.Fork? {
      HeightIsUnique(t.l, if t.c == Red then n else n - 1);
    }
  }

  // --- Zipping a focused tree up to the root ---

  ghost function Plug(z: Path, t: Tree): Tree {
    if z.Top? then t else Plug(z.up, ZipUp(z, t))
  }

  lemma {:induction false} PlugFocus(m: Mem, root: Node?, z: Path, t: Tree)
    requires Focus(m, root, z, t)
    ensures Focus(m, root, Top, Plug(z, t))
  {
    if z.Step? {
      Zip(m, root, z, t);
      PlugFocus(m, root, z.up, ZipUp(z, t));
    }
  }

  lemma {:induction false} PlugSound(z: Path, t: Tree, n: nat) returns (k: nat)
    requires Sound(t, n) && SoundPath(z, n) && EdgeOk(z, t)
    ensures Sound(Plug(z, t), k) && (z.Step? ==> !IsRed(Plug(z, t)))
  {
    if z.Top? {
      k := n;
    } else {
      k := PlugSound(z.up, ZipUp(z, t), if z.c == Black then n + 1 else n);
    }
  }

  // --- Order: the nodes from left to right ---

  ghost function Inorder(t: Tree): seq<Node> {
    match t
    case Nil => []
    case Fork(l, x, _, r) => Inorder(l) + [x] + Inorder(r)
  }

  ghost function Before(z: Path): seq<Node> {
    match z
    case Top => []
    case Step(side, x, _, sib, up) => if side == L then Before(up) else Before(up) + Inorder(sib) + [x]
  }

  ghost function After(z: Path): seq<Node> {
    match z
    case Top => []
    case Step(side, x, _, sib, up) => if side == R then After(up) else [x] + Inorder(sib) + After(up)
  }

  ghost function Whole(z: Path, t: Tree): seq<Node> {
    Before(z) + Inorder(t) + After(z)
  }

  lemma Reassociate<T>(a: seq<T>, b: seq<T>, c: seq<T>, d: seq<T>, e: seq<T>)
    ensures a + (b + c + d) + e == a + b + (c + d + e)
    ensures a + (b + c + d) + e == (a + b + c) + d + e
  {
  }

  lemma ZipWhole(z: Path, t: Tree)
    requires z.Step?
    ensures Whole(z, t) == Whole(z.up, ZipUp(z, t))
  {
    if z.side == L {
      Reassociate(Before(z.up), Inorder(t), [z.x], Inorder(z.sib), After(z.up));
    } else {
      Reassociate(Before(z.up), Inorder(z.sib), [z.x], Inorder(t), After(z.up));
    }
  }

  lemma RootInOrder(z: Path, t: Tree) returns (p: seq<Node>, q: seq<Node>)
    requires t.Fork?
    ensures p == Before(z) + Inorder(t.l) && q == Inorder(t.r) + After(z) && Whole(z, t) == p + [t.x] + q
  {
    p, q := Before(z) + Inorder(t.l), Inorder(t.r) + After(z);
    var a, b := Inorder(t.l), Inorder(t.r);
    Concat3(Before(z), a + [t.x] + b, After(z));
    Concat3(a + [t.x], b, After(z));
    Concat3(Before(z), a, [t.x]);
    Concat3(Before(z), a + [t.x], b + After(z));
  }

  lemma {:induction false} PlugWhole(z: Path, t: Tree)
    ensures Inorder(Plug(z, t)) == Whole(z, t)
  {
    if z.Step? {
      ZipWhole(z, t);
      PlugWhole(z.up, ZipUp(z, t));
    }
  }

  lemma RotationOrder(side: Side, a: Tree, e: Node, ce: Color, b: Tree, y: Node, cy: Color, d: Tree)
    ensures Inorder(Make(side, a, e, ce, Make(side, b, y, cy, d))) ==
      Inorder(Make(side, Make(side, a, e, ce, b), y, cy, d))
  {
    if side == L {
      Reassociate(Inorder(a) + [e], Inorder(b), [y], Inorder(d), []);
    } else {
      Reassociate([], Inorder(d), [y], Inorder(b), [e] + Inorder(a));
    }
  }

  lemma {:induction false} InorderElems(t: Tree)
    ensures forall n :: n in Elems(t) <==> n in Inorder(t)
  {
    if t.Fork? {
      InorderElems(t.l);
      InorderElems(t.r);
    }
  }

  // A rotation at any place keeps the order of the whole tree around it.
  lemma RotationInPlace(z: Path, side: Side, a: Tree, e: Node, ce: Color, b: Tree, y: Node, cy: Color, d: Tree)
    ensures Inorder(Plug(z, Make(side, a, e, ce, Make(side, b, y, cy, d)))) ==
      Inorder(Plug(z, Make(side, Make(side, a, e, ce, b), y, cy, d)))
  {
    RotationOrder(side, a, e, ce, b, y, cy, d);
    PlugWhole(z, Make(side, a, e, ce, Make(side, b, y, cy, d)));
    PlugWhole(z, Make(side, Make(side, a, e, ce, b), y, cy, d));
  }

  // --- The height bound ---

  function Pow2(n: nat): nat {
    if n == 0 then 1 else 2 * Pow2(n - 1)
  }

  ghost function Height(t: Tree): nat {
    match t
    case Nil => 0
    case Fork(l, _, _, r) => 1 + if Height(l) > Height(r) then Height(l) else Height(r)
  }

  ghost function Depth(z: Path): nat {
    if z.Top? then 0 else 1 + Depth(z.up)
  }

  lemma DoubleProduct(x: nat, y: nat)
    ensures 2 * (x * y) == (2 * x) * y
  {
  }

  lemma {:induction false} PowAdd(a: nat, b: nat)
    ensures Pow2(a + b) == Pow2(a) * Pow2(b)
  {
    if a > 0 {
      PowAdd(a - 1, b);
      DoubleProduct(Pow2(a - 1), Pow2(b));
      assert Pow2(a) == 2 * Pow2(a - 1) && Pow2(a + b) == 2 * Pow2(a - 1 + b);
    }
  }

  lemma {:induction false} PowMonotone(a: nat, b: nat)
    requires a <= b
    ensures Pow2(a) <= Pow2(b)
  {
    if a < b {
      PowMonotone(a, b - 1);
    }
  }

  lemma {:induction false} SoundSize(t: Tree, n: nat)
    requires Sound(t, n)
    ensures Pow2(n) <= |Inorder(t)| + 1
    ensures Height(t) <= 2 * n + if IsRed(t) then 1 else 0
  {
    if t.Fork? {
      var k := if t.c == Red then n else n - 1;
      SoundSize(t.l, k);
      SoundSize(t.r, k);
    }
  }

  lemma Squares(a: nat, b: nat)
    requires a <= b
    ensures a * a <= b * b
  {
  }

  // The documented bound height <= 2 lg(n + 1), with both sides raised to powers of two.
  lemma HeightBound(t: Tree)
    requires RedBlack(t)
    ensures Pow2(Height(t)) <= (|Inorder(t)| + 1) * (|Inorder(t)| + 1)
  {
    var n, k := BlackHeight(t), |Inorder(t)| + 1;
    SoundSize(t, n);
    PowMonotone(Height(t), n + n);
    PowAdd(n, n);
    Squares(Pow2(n), k);
  }
}
