/** What the two kinds of tree share: keys, the comparison function both headers take as a macro
    argument, and the two sides of a node. */
module Ordering {
  type Key(==,!new)

  datatype Side = L | R {
    function Other(): Side { if this == L then R else L }
  }

  // What the tree needs of cmp: a total preorder, of which cmp(a, b) == 0 is the equivalence.
  ghost predicate Comparator(cmp: (Key, Key) -> int) {
    && (forall a, b :: cmp(a, b) < 0 <==> cmp(b, a) > 0)
    && (forall a, b, c :: cmp(a, b) < 0 && cmp(b, c) <= 0 ==> cmp(a, c) < 0)
    && (forall a, b, c :: cmp(a, b) <= 0 && cmp(b, c) < 0 ==> cmp(a, c) < 0)
  }

  lemma ComparesEqual(cmp: (Key, Key) -> int, key: Key)
    requires Comparator(cmp)
    ensures cmp(key, key) == 0
  {
    assert cmp(key, key) < 0 <==> cmp(key, key) > 0;
  }

  lemma Concat3<T>(a: seq<T>, b: seq<T>, c: seq<T>)
    ensures a + b + c == a + (b + c)
  {
  }

  // Every element is below all later ones.
  ghost predicate Pairwise<N>(below: (N, N) -> bool, q: seq<N>) {
    forall i, j | 0 <= i < j < |q| :: below(q[i], q[j])
  }

  lemma PairwiseTotal<N>(below: (N, N) -> bool, q: seq<N>, x: N, y: N)
    requires Pairwise(below, q) && x in q && y in q
    ensures x == y || below(x, y) || below(y, x)
  {
    var i, j :| 0 <= i < |q| && 0 <= j < |q| && q[i] == x && q[j] == y;
  }

  lemma PairwiseConcat<N>(below: (N, N) -> bool, a: seq<N>, b: seq<N>)
    ensures Pairwise(below, a + b) <==>
      Pairwise(below, a) && Pairwise(below, b) && forall x, y | x in a && y in b :: below(x, y)
  {
    if Pairwise(below, a + b) {
      forall i, j | 0 <= i < j < |a| ensures below(a[i], a[j]) {
        assert (a + b)[i] == a[i] && (a + b)[j] == a[j];
      }
      forall i, j | 0 <= i < j < |b| ensures below(b[i], b[j]) {
        assert (a + b)[|a| + i] == b[i] && (a + b)[|a| + j] == b[j];
      }
      forall x, y | x in a && y in b ensures below(x, y) {
        var i :| 0 <= i < |a| && a[i] == x;
        var j :| 0 <= j < |b| && b[j] == y;
        assert (a + b)[i] == x && (a + b)[|a| + j] == y;
      }
    }
  }

  // q' is q with e put in somewhere, or with one occurrence of e taken out.
  ghost predicate Inserted<N>(q: seq<N>, e: N, q': seq<N>) {
    exists i :: 0 <= i <= |q| && q' == q[..i] + [e] + q[i..]
  }

  ghost predicate Removed<N>(q: seq<N>, e: N, q': seq<N>) {
    Inserted(q', e, q)
  }

  lemma InsertedBetween<N>(p: seq<N>, e: N, q: seq<N>)
    ensures Inserted(p + q, e, p + [e] + q)
  {
    assert (p + q)[..|p|] == p && (p + q)[|p|..] == q;
  }
}
