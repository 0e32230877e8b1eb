/** Inequalities between products, for weighing what a splay costs against what it improves. Each is put together
    from a regrouping of the factors and a bound on the sizes among them. */
module Products {
  // A cost w is paid: f is the potential before, pa and pb are the potentials of the parts, s is the size.
  ghost predicate Pay(w: int, pa: int, pb: int, f: int, s: int) {
    w * (pa * pb) <= f * (s * s)
  }

  ghost function Times(a: int, b: int): int { a * b }

  ghost predicate Covers(m: int, n: int) { m <= n }

  lemma Mul(a: int, b: int, c: int, d: int)
    requires a <= b && 0 <= c <= d && 0 <= b
    ensures a * c <= b * d
  {
  }

  // The geometric mean is at most half the sum.
  lemma Means(a: nat, b: nat)
    ensures 4 * (a * b) <= (a + b) * (a + b)
  {
    assert (a + b) * (a + b) - 4 * (a * b) == (a - b) * (a - b);
  }

  lemma Scale(a: int, b: int, h: int)
    requires a <= b && h >= 0
    ensures a * h <= b * h
  {
  }

  lemma NotNegative(a: int, b: int, c: int)
    requires a >= 0 && b >= 0 && c >= 0
    ensures a * b >= 0 && a * b * c >= 0
  {
    Mul(0, a, b, b);
    Mul(0, a * b, c, c);
  }

  lemma Chain(left: int, a: int, b: int, h: int, g: int, m: int, n: int, right: int)
    requires h >= 0 && g >= 0 && left == a * h && a <= b && b * h == g * m && m <= n && g * n == right
    ensures left <= right
  {
    Scale(a, b, h);
    Scale(m, n, g);
  }

  lemma AtLeastOne(a: nat, b: nat)
    requires a >= 1 && b >= 1
    ensures Times(a, b) >= 1
  {
  }

  // --- Two steps to the same side ---

  lemma AlikeSizes(below: nat, low: nat, side: nat, child: nat, s: nat)
    requires below + low == s && below <= child && side <= s
    ensures Covers((4 * (below * low)) * (below * side), (s * s) * (child * s))
  {
    Means(below, low);
    Mul(below, child, side, s);
    Mul(4 * (below * low), s * s, below * side, child * s);
  }

  lemma AlikeTerms(w: nat, pa: nat, pb: nat, q: nat, r: nat, side: nat, low: nat, f: nat, below: nat, child: nat,
      s: nat)
    ensures (4 * w) * (pa * (side * (pb * (low * (q * r))))) == (w * (pa * pb)) * (4 * side * low * (q * r))
    ensures (f * (below * below)) * (4 * side * low * (q * r)) == (f * (q * r)) * ((4 * (below * low)) * (below * side))
    ensures (f * (q * r)) * ((s * s) * (child * s)) == (s * ((child * (f * q)) * r)) * (s * s)
  {
  }

  lemma AlikeProducts(
      w: nat, pa: nat, pb: nat, q: nat, r: nat, side: nat, low: nat, f: nat, below: nat, child: nat, s: nat)
    requires Pay(w, pa, pb, f, below) && Covers((4 * (below * low)) * (below * side), (s * s) * (child * s))
    ensures Pay(4 * w, pa, side * (pb * (low * (q * r))), s * ((child * (f * q)) * r), s)
  {
    AlikeTerms(w, pa, pb, q, r, side, low, f, below, child, s);
    NotNegative(q, r, 1);
    NotNegative(4 * side, low, q * r);
    NotNegative(f, q * r, 1);
    Chain((4 * w) * (pa * (side * (pb * (low * (q * r))))), w * (pa * pb), f * (below * below),
      4 * side * low * (q * r), f * (q * r), (4 * (below * low)) * (below * side), (s * s) * (child * s),
      (s * ((child * (f * q)) * r)) * (s * s));
  }

  lemma Alike(w: nat, pa: nat, pb: nat, q: nat, r: nat, side: nat, low: nat, f: nat, below: nat, child: nat, s: nat)
    requires Pay(w, pa, pb, f, below) && below + low == s && below <= child && side <= s
    ensures Pay(4 * w, pa, Times(side, Times(pb, Times(low, Times(q, r)))),
      Times(s, Times(Times(child, Times(f, q)), r)), s)
  {
    AlikeSizes(below, low, side, child, s);
    AlikeProducts(w, pa, pb, q, r, side, low, f, below, child, s);
  }

  // --- Two steps to different sides ---

  lemma ApartSizes(left: nat, right: nat, below: nat, child: nat, s: nat)
    requires left + right == s && below <= child && below <= s
    ensures Covers((4 * (left * right)) * (below * below), (s * s) * (child * s))
  {
    Means(left, right);
    Mul(below, child, below, s);
    Mul(4 * (left * right), s * s, below * below, child * s);
  }

  lemma ApartTerms(w: nat, pa: nat, pb: nat, q: nat, r: nat, left: nat, right: nat, f: nat, below: nat, child: nat,
      s: nat)
    ensures (4 * w) * ((left * (q * pa)) * (right * (pb * r))) == (w * (pa * pb)) * (4 * left * right * (q * r))
    ensures (f * (below * below)) * (4 * left * right * (q * r)) ==
      (f * (q * r)) * ((4 * (left * right)) * (below * below))
    ensures (f * (q * r)) * ((s * s) * (child * s)) == (s * ((child * (q * f)) * r)) * (s * s)
  {
  }

  lemma ApartProducts(
      w: nat, pa: nat, pb: nat, q: nat, r: nat, left: nat, right: nat, f: nat, below: nat, child: nat, s: nat)
    requires Pay(w, pa, pb, f, below) && Covers((4 * (left * right)) * (below * below), (s * s) * (child * s))
    ensures Pay(4 * w, left * (q * pa), right * (pb * r), s * ((child * (q * f)) * r), s)
  {
    ApartTerms(w, pa, pb, q, r, left, right, f, below, child, s);
    NotNegative(q, r, 1);
    NotNegative(4 * left, right, q * r);
    NotNegative(f, q * r, 1);
    Chain((4 * w) * ((left * (q * pa)) * (right * (pb * r))), w * (pa * pb), f * (below * below),
      4 * left * right * (q * r), f * (q * r), (4 * (left * right)) * (below * below), (s * s) * (child * s),
      (s * ((child * (q * f)) * r)) * (s * s));
  }

  lemma Apart(w: nat, pa: nat, pb: nat, q: nat, r: nat, left: nat, right: nat, f: nat, below: nat, child: nat, s: nat)
    requires Pay(w, pa, pb, f, below) && left + right == s && below <= child && below <= s
    ensures Pay(4 * w, Times(left, Times(q, pa)), Times(right, Times(pb, r)),
      Times(s, Times(Times(child, Times(q, f)), r)), s)
  {
    ApartSizes(left, right, below, child, s);
    ApartProducts(w, pa, pb, q, r, left, right, f, below, child, s);
  }

  // --- One step to one side, two to the other ---

  lemma MixedHalf(near: nat, below: nat, child: nat, grand: nat, s: nat)
    requires near + below == child && below <= grand && child <= s
    ensures 4 * (near * below) * below <= (child * s) * grand
  {
    Means(near, below);
    Mul(child, child, child, s);
    Mul(4 * (near * below), child * s, below, grand);
  }

  lemma HalvesCover(left: nat, right: nat, s: nat, u: int, v: int)
    requires left + right == s && 0 <= u <= v
    ensures Covers((4 * (left * right)) * u, (s * s) * v)
  {
    Means(left, right);
    NotNegative(left, right, 1);
    NotNegative(s, s, 1);
    Mul(4 * (left * right), s * s, u, v);
  }

  lemma MixedBefore(w: nat, pa: nat, pb: nat, q: nat, g: nat, r: nat, left: nat, right: nat, near: nat)
    ensures (16 * w) * ((left * ((near * (q * g)) * pa)) * (right * (pb * r))) ==
      (w * (pa * pb)) * ((16 * left * right * near) * (q * g * r))
  {
  }

  lemma MixedBetween(q: nat, g: nat, r: nat, left: nat, right: nat, near: nat, f: nat, below: nat)
    ensures (f * (below * below)) * ((16 * left * right * near) * (q * g * r)) ==
      (f * (q * g * r)) * ((4 * (left * right)) * (4 * (near * below) * below))
  {
  }

  lemma Regroup(x: int, y: int, z: int)
    ensures x * (y * z) == (z * x) * y
  {
  }

  lemma MixedAfter(q: nat, g: nat, r: nat, f: nat, child: nat, grand: nat, s: nat)
    ensures ((child * s) * grand) * (f * (q * g * r)) == s * ((child * (q * (grand * (g * f)))) * r)
  {
  }

  lemma MixedProducts(w: nat, pa: nat, pb: nat, q: nat, g: nat, r: nat, left: nat, right: nat, near: nat, f: nat,
      below: nat, child: nat, grand: nat, s: nat)
    requires Pay(w, pa, pb, f, below)
    requires Covers((4 * (left * right)) * (4 * (near * below) * below), (s * s) * ((child * s) * grand))
    ensures Pay(16 * w, left * ((near * (q * g)) * pa), right * (pb * r),
      s * ((child * (q * (grand * (g * f)))) * r), s)
  {
    MixedBefore(w, pa, pb, q, g, r, left, right, near);
    MixedBetween(q, g, r, left, right, near, f, below);
    MixedAfter(q, g, r, f, child, grand, s);
    Regroup(f * (q * g * r), s * s, (child * s) * grand);
    NotNegative(q, g, r);
    NotNegative(16 * left, right, near);
    NotNegative(16 * left * right, near, q * g * r);
    NotNegative(f, q * g * r, 1);
    Chain((16 * w) * ((left * ((near * (q * g)) * pa)) * (right * (pb * r))), w * (pa * pb), f * (below * below),
      (16 * left * right * near) * (q * g * r), f * (q * g * r),
      (4 * (left * right)) * (4 * (near * below) * below), (s * s) * ((child * s) * grand),
      (s * ((child * (q * (grand * (g * f)))) * r)) * (s * s));
  }

  lemma Mixed(w: nat, pa: nat, pb: nat, q: nat, g: nat, r: nat, left: nat, right: nat, near: nat, f: nat,
      below: nat, child: nat, grand: nat, s: nat)
    requires Pay(w, pa, pb, f, below)
    requires left + right == s && near + below == child && below <= grand && child <= s
    ensures Pay(16 * w, Times(left, Times(Times(near, Times(q, g)), pa)), Times(right, Times(pb, r)),
      Times(s, Times(Times(child, Times(q, Times(grand, Times(g, f)))), r)), s)
  {
    MixedHalf(near, below, child, grand, s);
    NotNegative(near, below, below);
    HalvesCover(left, right, s, 4 * (near * below) * below, (child * s) * grand);
    MixedProducts(w, pa, pb, q, g, r, left, right, near, f, below, child, grand, s);
  }

  // --- Weights of trees ---

  datatype Weight = Weight(size: nat, product: nat)

  ghost function Join(a: Weight, b: Weight): (w: Weight)
    ensures w.size == a.size + b.size
  {
    NotNegative(a.product, b.product, 1);
    NotNegative(a.size + b.size, a.product * b.product, 1);
    Weight(a.size + b.size, Times(a.size + b.size, Times(a.product, b.product)))
  }

  lemma JoinCommutes(a: Weight, b: Weight)
    ensures Join(a, b) == Join(b, a)
  {
    assert a.product * b.product == b.product * a.product;
  }

  ghost predicate Covered(w: nat, a: Weight, b: Weight, t: Weight) {
    Pay(w, a.product, b.product, t.product, t.size)
  }

  lemma AlikeWeights(w: nat, a: Weight, b: Weight, c: Weight, q: Weight, r: Weight)
    requires Covered(w, a, b, c) && a.size + b.size == c.size
    ensures Covered(4 * w, a, Join(b, Join(q, r)), Join(Join(c, q), r))
  {
    hide Pay, Times;
    var low := q.size + r.size;
    Alike(w, a.product, b.product, q.product, r.product, b.size + low, low, c.product, c.size, c.size + q.size,
      c.size + q.size + r.size);
  }

  lemma ApartWeights(w: nat, a: Weight, b: Weight, c: Weight, q: Weight, r: Weight)
    requires Covered(w, a, b, c) && a.size + b.size == c.size
    ensures Covered(4 * w, Join(q, a), Join(b, r), Join(Join(q, c), r))
  {
    hide Pay, Times;
    Apart(w, a.product, b.product, q.product, r.product, q.size + a.size, b.size + r.size, c.product, c.size,
      q.size + c.size, q.size + c.size + r.size);
  }

  lemma MixedWeights(w: nat, a: Weight, b: Weight, d: Weight, g: Weight, q: Weight, r: Weight)
    requires Covered(w, a, b, d) && a.size + b.size == d.size
    ensures Covered(16 * w, Join(Join(q, g), a), Join(b, r), Join(Join(q, Join(g, d)), r))
  {
    hide Pay, Times;
    Mixed(w, a.product, b.product, q.product, g.product, r.product, q.size + g.size + a.size, b.size + r.size,
      q.size + g.size, d.product, d.size, q.size + (g.size + d.size), g.size + d.size,
      q.size + (g.size + d.size) + r.size);
  }

  // --- Where a splay ends ---

  lemma Lighter(w: nat, a: Weight, b: Weight, w': nat, a': Weight, b': Weight, t: Weight)
    requires Covered(w, a, b, t) && w' <= w && a'.product <= a.product && b'.product <= b.product
    ensures Covered(w', a', b', t)
  {
    NotNegative(a'.product, b'.product, 1);
    NotNegative(a.product, b.product, 1);
    Mul(a'.product, a.product, b'.product, b.product);
    Mul(w', w, a'.product * b'.product, a.product * b.product);
  }

  lemma JoinNothing(a: Weight)
    requires a.size >= 1
    ensures Join(a, Weight(0, 1)).product >= a.product && Join(Weight(0, 1), a).product >= a.product
  {
    assert Times(a.product, 1) == Times(1, a.product) == a.product;
    Scale(1, a.size, a.product);
  }

  lemma Reorder(x: int, y: int, z: int)
    ensures (x * z) * y == (x * y) * z
  {
  }

  lemma EndAlone(l: Weight, r: Weight)
    requires l.size >= 1 && r.size >= 1
    ensures Covered(2, l, r, Join(l, r))
  {
    var s, p := l.size + r.size, l.product * r.product;
    NotNegative(l.product, r.product, 1);
    Mul(2, s, 2, s);
    Mul(2, s, 4, s * s);
    Scale(2, s * (s * s), p);
    assert Times(s, Times(l.product, r.product)) == s * p;
    Reorder(s, p, s * s);
  }

  lemma KeepWhole(c: Weight)
    requires c.size >= 1
    ensures Covered(1, c, Weight(0, 1), c)
  {
    Mul(1, c.size, 1, c.size);
    Scale(1, c.size * c.size, c.product);
  }

  lemma EndAlike(c: Weight, q: Weight, r: Weight)
    requires c.size >= 1 && q.size >= 1 && r.size >= 1
    ensures Covered(4, c, Join(q, r), Join(Join(c, q), r))
  {
    hide Times, Join, Covered;
    var none := Weight(0, 1);
    KeepWhole(c);
    AlikeWeights(1, c, none, c, q, r);
    JoinNothing(Join(q, r));
    Lighter(4, c, Join(none, Join(q, r)), 4, c, Join(q, r), Join(Join(c, q), r));
  }

  lemma EndMixed(g: Weight, q: Weight, r: Weight)
    requires g.size >= 1 && q.size >= 1 && r.size >= 1
    ensures Covered(8, Join(q, g), Join(Weight(1, 1), r), Join(Join(q, Join(g, Weight(1, 1))), r))
  {
    var none, leaf := Weight(0, 1), Weight(1, 1);
    assert Covered(1, none, leaf, leaf);
    hide Covered, Times;
    MixedWeights(1, none, leaf, leaf, g, q, r);
    JoinNothing(Join(q, g));
    Lighter(16, Join(Join(q, g), none), Join(leaf, r), 8, Join(q, g), Join(leaf, r),
      Join(Join(q, Join(g, leaf)), r));
  }
}
