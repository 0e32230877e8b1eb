/** Runs of operations on a splay tree, and the Balance Theorem: however the operations are chosen, the nodes they
    meet are at most logarithmically many for each of them. */
module SplayRuns {
  import opened Ordering
  import opened SplayShape
  import opened SplayOrder
  import opened SplayDepth
  import opened SplayCost
  import opened Products

  // Search for a key, insertion of a node, deletion by key, search for an end of the tree.
  datatype Op = Seek(key: Key) | Add(x: Node) | Drop(key: Key) | End(val: int)

  ghost function Splay(cmp: (Key, Key) -> int, key: Key, t: Tree): (u: Tree)
    ensures t.Fork? ==> u == Together(Part(cmp, key, t))
  {
    if t.Nil? then t
    else
      SplayedIsPart(cmp, key, Header, t, Header);
      Splayed(cmp, key, Header, t, Header)
  }

  // A new root splits the splayed tree, unless its key is there.
  ghost function Placed(cmp: (Key, Key) -> int, u: Tree, x: Node): Tree
    requires u.Fork?
  {
    var comp := cmp(x.key, u.x.key);
    if comp == 0 then u else Split(u, x, comp)
  }

  // The root of the splayed tree is taken out if it has the key; splaying the left subtree makes room for the right.
  ghost function Uprooted(cmp: (Key, Key) -> int, u: Tree, key: Key): Tree
    requires u.Fork?
  {
    if cmp(key, u.x.key) != 0 then u
    else if u.l.Nil? then u.r
    else
      var v := Splay(cmp, key, u.l);
      Fork(v.l, v.x, u.r)
  }

  // The tree behind an operation.
  ghost function After(cmp: (Key, Key) -> int, t: Tree, op: Op): Tree {
    match op
    case Seek(key) => Splay(cmp, key, t)
    case Add(x) => if t.Nil? then Fork(Nil, x, Nil) else Placed(cmp, Splay(cmp, x.key, t), x)
    case Drop(key) => if t.Nil? then t else Uprooted(cmp, Splay(cmp, key, t), key)
    case End(val) => if t.Nil? then t else Splay(Towards(val), t.x.key, t)
  }

  // How many nodes the splays of an operation meet.
  ghost function Cost(cmp: (Key, Key) -> int, t: Tree, op: Op): nat {
    match op
    case Seek(key) => |Way(cmp, key, t)|
    case Add(x) => |Way(cmp, x.key, t)|
    case Drop(key) =>
      |Way(cmp, key, t)| + (
        if t.Fork? && cmp(key, Splay(cmp, key, t).x.key) == 0 then |Way(cmp, key, Splay(cmp, key, t).l)| else 0
      )
    case End(val) => if t.Nil? then 0 else |Way(Towards(val), t.x.key, t)|
  }

  ghost function Run(cmp: (Key, Key) -> int, t: Tree, ops: seq<Op>): Tree
    decreases |ops|
  {
    if ops == [] then t else Run(cmp, After(cmp, t, ops[0]), ops[1..])
  }

  ghost function Total(cmp: (Key, Key) -> int, t: Tree, ops: seq<Op>): nat
    decreases |ops|
  {
    if ops == [] then 0 else Cost(cmp, t, ops[0]) + Total(cmp, After(cmp, t, ops[0]), ops[1..])
  }

  function Adds(ops: seq<Op>): nat {
    if ops == [] then 0 else (if ops[0].Add? then 1 else 0) + Adds(ops[1..])
  }

  // --- Powers of two ---

  lemma Twice(a: int, b: int)
    ensures 2 * (a * b) == (2 * a) * b
  {
  }

  lemma {:induction false} Pow2Sum(a: nat, b: nat)
    ensures Pow2(a + b) == Pow2(a) * Pow2(b)
  {
    if a > 0 {
      Pow2Sum(a - 1, b);
      Twice(Pow2(a - 1), Pow2(b));
    }
  }

  lemma {:induction false} Pow2Grows(a: nat, b: nat)
    requires a < b
    ensures Pow2(a) < Pow2(b)
  {
    if a < b - 1 { Pow2Grows(a, b - 1); }
  }

  // --- One operation ---

  ghost predicate Fits(t: Tree, k: nat) { Size(t) <= Pow2(k) }

  // k is the logarithm of a size that is never exceeded.
  ghost predicate Affords(k: nat, c: nat, t: Tree, u: Tree) {
    Times(Pow2(c), Potential(u)) <= Times(Potential(t), Pow2(5 * k))
  }

  lemma Fifth(k: nat)
    ensures Pow2(5 * k) == (Pow2(k) * Pow2(k) * Pow2(k)) * (Pow2(k) * Pow2(k))
  {
    hide Pow2;
    Pow2Sum(k, k);
    Pow2Sum(k + k, k);
    Pow2Sum(k + k + k, k + k);
  }

  lemma Cube(n: nat)
    requires n >= 1
    ensures n <= n * n <= n * n * n
  {
    Scale(1, n, n);
    Scale(n, n * n, n);
  }

  lemma Swap3(x: int, y: int, z: int)
    ensures (x * y) * z == x * (z * y)
  {
  }

  lemma SpareChain(w: int, p: int, b: int, m: int, n: int)
    requires 0 <= w * p <= b && 0 <= m <= n
    ensures w * (m * p) <= b * n
  {
    Mul(w * p, b, m, n);
    assert w * (m * p) == (w * p) * m;
  }

  // Three factors of size are to spare behind a splay.
  lemma Spare(w: nat, p: nat, before: nat, s: nat, m: nat, n: nat)
    requires w * p <= before * (s * s) && s <= n && m <= n * n * n
    ensures w * (m * p) <= before * ((n * n * n) * (n * n))
  {
    Mul(s, n, s, n);
    Scale(s * s, n * n, before);
    NotNegative(w, p, 1);
    SpareChain(w, p, before * (n * n), m, n * n * n);
    Swap3(before, n * n, n * n * n);
  }

  lemma Factored(a: nat, b: nat, u: nat, p: int)
    requires b * u <= p
    ensures (a * b) * u <= a * p
  {
    Scale(b * u, p, a);
    assert (a * b) * u == (b * u) * a;
  }

  // What an operation makes of the parts of a splayed tree, and meets on doing so, weighs at most three sizes more.
  lemma AffordsMore(k: nat, c: nat, more: nat, t: Tree, a: Tree, b: Tree, m: nat, u: Tree)
    requires Pays(c, a, b, t) && Fits(t, k)
    requires Times(Pow2(more), Potential(u)) <= Times(m, Times(Potential(a), Potential(b)))
    requires m <= Pow2(k) * Pow2(k) * Pow2(k)
    ensures Affords(k, c + more, t, u)
  {
    hide Pow2, Weigh;
    var p := Times(Potential(a), Potential(b));
    NotNegative(Potential(a), Potential(b), 1);
    Spare(Pow2(c), p, Potential(t), Size(t), m, Pow2(k));
    Fifth(k);
    Pow2Sum(c, more);
    Factored(Pow2(c), Pow2(more), Potential(u), m * p);
  }

  lemma AffordsParts(k: nat, c: nat, t: Tree, a: Tree, b: Tree, m: nat, u: Tree)
    requires Pays(c, a, b, t) && Fits(t, k)
    requires Potential(u) <= Times(m, Times(Potential(a), Potential(b))) && m <= Pow2(k) * Pow2(k) * Pow2(k)
    ensures Affords(k, c, t, u)
  {
    assert Times(Pow2(0), Potential(u)) == Potential(u);
    AffordsMore(k, c, 0, t, a, b, m, u);
  }

  lemma WeighFork(l: Tree, x: Node, r: Tree)
    ensures Size(Fork(l, x, r)) == Size(l) + Size(r)
    ensures Potential(Fork(l, x, r)) == Times(Size(l) + Size(r), Times(Potential(l), Potential(r)))
    ensures Size(Nil) == Potential(Nil) == 1
  {
  }

  lemma FindAffords(cmp: (Key, Key) -> int, key: Key, t: Tree, k: nat)
    requires t.Fork? && Fits(t, k)
    ensures Affords(k, |Way(cmp, key, t)|, t, Splay(cmp, key, t)) && Size(Splay(cmp, key, t)) == Size(t)
  {
    hide Affords, Pays, Pow2, Way, Part, Times, Size, Potential, Splay;
    var p := Part(cmp, key, t);
    SplayIsPaid(cmp, key, t);
    PartSize(cmp, key, t);
    WeighFork(p.a, p.x, p.b);
    Cube(Pow2(k));
    AffordsParts(k, |Way(cmp, key, t)|, t, p.a, p.b, Size(t), Splay(cmp, key, t));
  }

  lemma FourFactors(s: int, b: int, p: int, q: int)
    ensures s * (p * (b * q)) == (s * b) * (p * q) && s * ((b * p) * q) == (s * b) * (p * q)
  {
  }

  // What a split adds to the weight.
  lemma SplitProduct(s: nat, b: nat, p: nat, q: nat, n: nat)
    requires s <= n && b <= n && n >= 1
    ensures Times(s, Times(p, Times(b, Times(1, q)))) == Times(s * b, Times(p, q))
    ensures Times(s, Times(Times(b, Times(p, 1)), q)) == Times(s * b, Times(p, q))
    ensures 0 <= s * b <= n * n * n
  {
    NotNegative(s, b, 1);
    Mul(s, n, b, n);
    Cube(n);
    FourFactors(s, b, p, q);
  }

  lemma AddAffords(cmp: (Key, Key) -> int, t: Tree, x: Node, k: nat)
    requires t.Fork? && Size(t) + 1 <= Pow2(k)
    ensures var u := Placed(cmp, Splay(cmp, x.key, t), x);
      Affords(k, |Way(cmp, x.key, t)|, t, u) && Size(u) <= Size(t) + 1
  {
    hide Affords, Pays, Pow2, Way, Part, Times, Size, Potential, Splay;
    var p, w := Part(cmp, x.key, t), |Way(cmp, x.key, t)|;
    var comp := cmp(x.key, p.x.key);
    FindAffords(cmp, x.key, t, k);
    SplayIsPaid(cmp, x.key, t);
    PartSize(cmp, x.key, t);
    if comp < 0 {
      WeighFork(Nil, p.x, p.b);
      WeighFork(p.a, x, Fork(Nil, p.x, p.b));
      SplitProduct(Size(t) + 1, 1 + Size(p.b), Potential(p.a), Potential(p.b), Pow2(k));
      AffordsParts(k, w, t, p.a, p.b, (Size(t) + 1) * (1 + Size(p.b)), Fork(p.a, x, Fork(Nil, p.x, p.b)));
    } else if comp > 0 {
      WeighFork(p.a, p.x, Nil);
      WeighFork(Fork(p.a, p.x, Nil), x, p.b);
      SplitProduct(Size(t) + 1, Size(p.a) + 1, Potential(p.a), Potential(p.b), Pow2(k));
      AffordsParts(k, w, t, p.a, p.b, (Size(t) + 1) * (Size(p.a) + 1), Fork(Fork(p.a, p.x, Nil), x, p.b));
    }
  }

  // Of what the second splay leaves, only one part is kept.
  lemma OnePart(w: nat, a: nat, b: nat, whole: nat, s: nat)
    requires Pay(w, a, b, whole, s) && b >= 1
    ensures w * a <= whole * (s * s)
  {
    Scale(1, b, a);
    Scale(a, a * b, w);
  }

  lemma FourWays(a: int, b: int, c: int, d: int)
    ensures (a * b) * (c * d) == (a * c) * (b * d) == (c * b) * (a * d)
  {
  }

  lemma Distributed(x: int, y: int, top: nat, r: nat, w: nat, a: nat, whole: nat, z: int)
    requires x == w * a && y == whole * z && x <= y
    ensures Times(w, Times(top, Times(a, r))) <= Times(top * z, Times(whole, r))
  {
    NotNegative(top, r, 1);
    Scale(x, y, top * r);
    FourFactors(w, top, a, r);
    FourFactors(top, z, whole, r);
    assert (w * a) * (top * r) == (w * top) * (a * r) by { FourWays(w, a, top, r); }
    assert (whole * z) * (top * r) == (top * z) * (whole * r) by { FourWays(whole, z, top, r); }
  }

  lemma SizesFit(top: nat, s: nat, n: nat)
    requires top <= n && s <= n
    ensures 0 <= top * (s * s) <= n * n * n
  {
    Mul(s, n, s, n);
    NotNegative(s, s, 1);
    NotNegative(top, s * s, 1);
    Mul(top, n, s * s, n * n);
  }

  lemma Second(k: nat, a: Tree, b: Tree, whole: Tree, top: nat, r: nat)
    requires Pays(k, a, b, whole)
    ensures Times(Pow2(k), Times(top, Times(Potential(a), r))) <=
      Times(top * (Size(whole) * Size(whole)), Times(Potential(whole), r))
  {
    Positive(b);
    OnePart(Pow2(k), Potential(a), Potential(b), Potential(whole), Size(whole));
    var z := Size(whole) * Size(whole);
    Distributed(Pow2(k) * Potential(a), Potential(whole) * z, top, r, Pow2(k), Potential(a), Potential(whole), z);
  }

  lemma DropBoth(cmp: (Key, Key) -> int, key: Key, t: Tree, k: nat)
    requires t.Fork? && Fits(t, k) && Part(cmp, key, t).a.Fork?
    ensures var p := Part(cmp, key, t);
      var q := Part(cmp, key, p.a);
      var u := Fork(q.a, q.x, p.b);
      Affords(k, |Way(cmp, key, t)| + |Way(cmp, key, p.a)|, t, u) && Size(u) <= Size(t)
  {
    hide Affords, Pays, Pow2, Way, Part, Times, Size, Potential, Splay;
    var p := Part(cmp, key, t);
    var q, c, more := Part(cmp, key, p.a), |Way(cmp, key, t)|, |Way(cmp, key, p.a)|;
    SplayIsPaid(cmp, key, t);
    PartSize(cmp, key, t);
    SplayIsPaid(cmp, key, p.a);
    PartSize(cmp, key, p.a);
    var u := Fork(q.a, q.x, p.b);
    WeighFork(q.a, q.x, p.b);
    var top, s := Size(q.a) + Size(p.b), Size(p.a);
    Second(more, q.a, q.b, p.a, top, Potential(p.b));
    SizesFit(top, s, Pow2(k));
    AffordsMore(k, c, more, t, p.a, p.b, top * (s * s), u);
  }

  lemma OneSide(a: nat, b: nat)
    requires a >= 1
    ensures b <= Times(1, Times(a, b))
  {
    Scale(1, a, b);
  }

  lemma DropAffords(cmp: (Key, Key) -> int, key: Key, t: Tree, k: nat)
    requires t.Fork? && Fits(t, k)
    ensures Affords(k, Cost(cmp, t, Drop(key)), t, After(cmp, t, Drop(key)))
      && Size(After(cmp, t, Drop(key))) <= Size(t)
  {
    var p, w := Part(cmp, key, t), |Way(cmp, key, t)|;
    FindAffords(cmp, key, t, k);
    if cmp(key, p.x.key) == 0 {
      hide Affords, Pays, Pow2, Way, Part, Times, Size, Potential, Splay;
      SplayIsPaid(cmp, key, t);
      PartSize(cmp, key, t);
      NoStep(cmp, key);
      Positive(p.a);
      if p.a.Nil? {
        OneSide(Potential(p.a), Potential(p.b));
        Cube(Pow2(k));
        AffordsParts(k, w, t, p.a, p.b, 1, p.b);
      } else {
        DropBoth(cmp, key, t, k);
      }
    }
  }

  lemma EmptyAffords(op: Op, k: nat)
    requires op.Add? ==> 2 <= Pow2(k)
    ensures Affords(k, 0, Nil, Nil)
    ensures op.Add? ==> Affords(k, 0, Nil, Fork(Nil, op.x, Nil)) && Size(Fork(Nil, op.x, Nil)) == 2
  {
    assert Pow2(0) == 1;
    if op.Add? {
      WeighFork(Nil, op.x, Nil);
      if 5 * k > k { Pow2Grows(k, 5 * k); }
    }
  }

  // What the potential pays for, whatever the operation.
  lemma OperationAffords(cmp: (Key, Key) -> int, t: Tree, op: Op, k: nat)
    requires Size(t) + (if op.Add? then 1 else 0) <= Pow2(k)
    ensures Affords(k, Cost(cmp, t, op), t, After(cmp, t, op))
    ensures Size(After(cmp, t, op)) <= Size(t) + (if op.Add? then 1 else 0)
  {
    Positive(t);
    if t.Nil? {
      EmptyAffords(op, k);
    } else {
      match op
      case Seek(key) => FindAffords(cmp, key, t, k);
      case Add(x) => AddAffords(cmp, t, x, k);
      case Drop(key) => DropAffords(cmp, key, t, k);
      case End(val) => FindAffords(Towards(val), t.x.key, t, k);
    }
  }

  // --- Runs ---

  ghost function Budget(k: nat, m: nat): nat { 5 * (k * m) }

  lemma OneMore(k: nat, m: nat)
    ensures 5 * k + Budget(k, m) == Budget(k, m + 1)
  {
  }

  lemma ChainedProducts(c: nat, d: nat, p: nat, q: nat, r: nat, e: nat, f: nat)
    requires c * q <= p * e && d * r <= q * f
    ensures (c * d) * r <= p * (e * f)
  {
    Scale(d * r, q * f, c);
    Scale(c * q, p * e, f);
    assert (c * d) * r == (d * r) * c && (q * f) * c == (c * q) * f && p * (e * f) == (p * e) * f;
  }

  lemma Chained(c: nat, d: nat, p: nat, q: nat, r: nat, e: nat, f: nat)
    requires Times(Pow2(c), q) <= Times(p, Pow2(e)) && Times(Pow2(d), r) <= Times(q, Pow2(f))
    ensures Times(Pow2(c + d), r) <= Times(p, Pow2(e + f))
  {
    hide Pow2;
    Pow2Sum(c, d);
    Pow2Sum(e, f);
    ChainedProducts(Pow2(c), Pow2(d), p, q, r, Pow2(e), Pow2(f));
  }

  lemma {:induction false} RunAffords(cmp: (Key, Key) -> int, t: Tree, ops: seq<Op>, k: nat)
    requires Size(t) + Adds(ops) <= Pow2(k)
    ensures Times(Pow2(Total(cmp, t, ops)), Potential(Run(cmp, t, ops))) <=
      Times(Potential(t), Pow2(Budget(k, |ops|)))
    decreases |ops|
  {
    hide Way, Splay;
    if ops == [] {
      assert Pow2(0) == 1 && Budget(k, 0) == 0;
    } else {
      hide Times, Pow2, Size, Potential, Cost, After, Budget;
      var u, rest := After(cmp, t, ops[0]), ops[1..];
      OperationAffords(cmp, t, ops[0], k);
      RunAffords(cmp, u, rest, k);
      OneMore(k, |rest|);
      Chained(Cost(cmp, t, ops[0]), Total(cmp, u, rest), Potential(t), Potential(u), Potential(Run(cmp, u, rest)),
        5 * k, Budget(k, |rest|));
    }
  }

  lemma Spread(k: nat, n: nat, m: nat)
    ensures k + (k * n + k * m) == k * (n + 1 + m)
  {
  }

  lemma Product3(a: nat, b: nat, c: nat, x: nat, y: nat, z: nat)
    requires a <= x && b <= y && c <= z
    ensures Times(a, Times(b, c)) <= x * (y * z)
  {
    Mul(b, y, c, z);
    NotNegative(b, c, 1);
    Mul(a, x, b * c, y * z);
  }

  // A tree of n nodes has at most the product of n sizes for its potential.
  lemma {:induction false} PotentialBound(t: Tree, k: nat)
    requires Size(t) <= Pow2(k)
    ensures Potential(t) <= Pow2(k * |Inorder(t)|)
  {
    if t.Nil? {
      assert Pow2(0) == 1;
    } else {
      hide Times, Pow2, Size, Potential;
      WeighFork(t.l, t.x, t.r);
      Positive(t.l);
      Positive(t.r);
      PotentialBound(t.l, k);
      PotentialBound(t.r, k);
      var n, m := |Inorder(t.l)|, |Inorder(t.r)|;
      Product3(Size(t), Potential(t.l), Potential(t.r), Pow2(k), Pow2(k * n), Pow2(k * m));
      Pow2Sum(k * n, k * m);
      Pow2Sum(k, k * n + k * m);
      assert k + (k * n + k * m) == k * (n + 1 + m) by { Spread(k, n, m); }
    }
  }

  lemma BudgetKept(total: nat, end: nat, begin: nat, k: nat, n: nat, m: nat)
    requires Times(Pow2(total), end) <= Times(begin, Pow2(Budget(k, m))) && end >= 1 && begin <= Pow2(k * n)
    ensures total <= k * (n + 5 * m)
  {
    hide Pow2;
    var start, spent := k * n, Budget(k, m);
    Scale(1, end, Pow2(total));
    Scale(begin, Pow2(start), Pow2(spent));
    Pow2Sum(start, spent);
    if total > start + spent {
      Pow2Grows(start + spent, total);
    }
  }

  lemma {:induction false} SizeIsCount(t: Tree)
    ensures Size(t) == |Inorder(t)| + 1
  {
    if t.Fork? {
      SizeIsCount(t.l);
      SizeIsCount(t.r);
    }
  }

  /** The Balance Theorem. m operations on a tree of n nodes meet at most k * (n + 5 * m) nodes, where 2 to the
      power of k is more than the number of nodes there can be. */
  lemma BalanceTheorem(cmp: (Key, Key) -> int, t: Tree, ops: seq<Op>, k: nat)
    requires |Inorder(t)| + 1 + Adds(ops) <= Pow2(k)
    ensures Total(cmp, t, ops) <= k * (|Inorder(t)| + 5 * |ops|)
  {
    hide Pow2, Potential, Total, Run, Budget, Times, Inorder, Adds, Size;
    SizeIsCount(t);
    PotentialBound(t, k);
    RunAffords(cmp, t, ops, k);
    Positive(Run(cmp, t, ops));
    BudgetKept(Total(cmp, t, ops), Potential(Run(cmp, t, ops)), Potential(t), k, |Inorder(t)|, |ops|);
  }

  // From the empty tree on, every operation meets 5 * k nodes on average, k being the logarithm of the number of
  // insertions.
  lemma FromEmpty(cmp: (Key, Key) -> int, ops: seq<Op>, k: nat)
    requires 1 + Adds(ops) <= Pow2(k)
    ensures Total(cmp, Nil, ops) <= 5 * k * |ops|
  {
    BalanceTheorem(cmp, Nil, ops, k);
    assert k * (5 * |ops|) == 5 * k * |ops|;
  }

  // --- The walk to the successor ---

  // How many nodes lie on the way to the leftmost one.
  ghost function LeftEdge(t: Tree): nat { if t.Nil? then 0 else 1 + LeftEdge(t.l) }

  // A splay for the key of the root meets one node and changes nothing.
  lemma {:induction false} RootStays(cmp: (Key, Key) -> int, t: Tree, ops: seq<Op>)
    requires Comparator(cmp) && t.Fork? && forall op | op in ops :: op == Seek(t.x.key)
    ensures Run(cmp, t, ops) == t && Total(cmp, t, ops) == |ops|
    decreases |ops|
  {
    if ops != [] {
      assert ops[0] in ops;
      ComparesEqual(cmp, t.x.key);
      FoundAtRoot(cmp, t.x.key, Header, t, Header);
      assert After(cmp, t, ops[0]) == t;
      assert forall op | op in ops[1..] :: op in ops;
      RootStays(cmp, t, ops[1..]);
    }
  }

  // Every node is the right end of what is left of it.
  ghost function Chain(q: seq<Node>): (t: Tree)
    ensures Inorder(t) == q && LeftEdge(t) == |q|
  {
    if q == [] then Nil
    else
      var rest := q[..|q| - 1];
      assert q == rest + [q[|q| - 1]] + [];
      Fork(Chain(rest), q[|q| - 1], Nil)
  }

  function Again(op: Op, m: nat): seq<Op> { seq(m, _ => op) }

  // However often the key of the root is looked up, the tree stays as it is.
  ghost predicate AlwaysStays(cmp: (Key, Key) -> int, t: Tree)
    requires t.Fork?
  {
    forall m: nat :: Run(cmp, t, Again(Seek(t.x.key), m)) == t
  }

  // The walk to the successor is not made up for: there are trees on which it passes every node, however often the
  // successor of the same node is asked for.
  lemma WalkRepeats(cmp: (Key, Key) -> int, q: seq<Node>)
    requires Comparator(cmp) && q != []
    ensures exists t: Tree ::
      t.Fork? && t.x == q[0] && Inorder(t) == q && LeftEdge(t.r) == |q| - 1 && AlwaysStays(cmp, t)
  {
    var t := Fork(Nil, q[0], Chain(q[1..]));
    assert q == [] + [q[0]] + q[1..];
    forall m: nat ensures Run(cmp, t, Again(Seek(t.x.key), m)) == t {
      RootStays(cmp, t, Again(Seek(t.x.key), m));
    }
    assert AlwaysStays(cmp, t);
  }
}
