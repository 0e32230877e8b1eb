/** Top-down splaying as a function of the tree, and what it does for the balance: no node met on the way ends
    up deeper than about half the length of that way. */
module SplayDepth {
  import opened Ordering
  import opened SplayShape
  import opened SplayOrder

  // The tree a splay ends with, from the middle tree and the two spines it has come to.
  ghost function Splayed(cmp: (Key, Key) -> int, key: Key, lp: Spine, t: Tree, rp: Spine): Tree
    requires t.Fork?
    decreases t
  {
    var comp := cmp(key, t.x.key);
    if comp < 0 then
      if t.l.Nil? then Joined(lp, t, rp)
      else if cmp(key, t.l.x.key) >= 0 then Splayed(cmp, key, lp, t.l, Link(t.x, t.r, rp))
      else if t.l.l.Nil? then Joined(lp, Turned(L, t), rp)
      else Splayed(cmp, key, lp, t.l.l, Link(t.l.x, Fork(t.l.r, t.x, t.r), rp))
    else if comp > 0 then
      if t.r.Nil? then Joined(lp, t, rp)
      else if cmp(key, t.r.x.key) <= 0 then Splayed(cmp, key, Link(t.x, t.l, lp), t.r, rp)
      else if t.r.r.Nil? then Joined(lp, Turned(R, t), rp)
      else Splayed(cmp, key, Link(t.r.x, Fork(t.l, t.x, t.r.l), lp), t.r.r, rp)
    else Joined(lp, t, rp)
  }

  // The nodes a search for the key compares with.
  ghost function Way(cmp: (Key, Key) -> int, key: Key, t: Tree): seq<Node> {
    if t.Nil? then []
    else
      var comp := cmp(key, t.x.key);
      [t.x] + if comp < 0 then Way(cmp, key, t.l) else if comp > 0 then Way(cmp, key, t.r) else []
  }

  // x stands in t with d nodes above it.
  ghost predicate StandsAt(t: Tree, x: Node, d: nat) {
    t.Fork? && if d == 0 then t.x == x else StandsAt(t.l, x, d - 1) || StandsAt(t.r, x, d - 1)
  }

  ghost function Len(p: Spine): nat { if p.Header? then 0 else 1 + Len(p.up) }

  // A node of a spine, or the root of what hangs on one.
  ghost predicate OnSpine(p: Spine, x: Node) {
    p.Link? && (x == p.x || (p.sub.Fork? && x == p.sub.x) || OnSpine(p.up, x))
  }

  // Closing a spine puts what continues it below all of it.
  lemma {:induction false} CloseAt(side: Side, p: Spine, t: Tree, x: Node, d: nat)
    requires StandsAt(t, x, d)
    ensures StandsAt(Close(side, p, t), x, Len(p) + d)
  {
    if p.Link? {
      assert StandsAt(Make(side, p.sub, p.x, t), x, d + 1);
      CloseAt(side, p.up, Make(side, p.sub, p.x, t), x, d + 1);
    }
  }

  lemma {:induction false} SpineAt(side: Side, p: Spine, t: Tree, x: Node)
    requires OnSpine(p, x)
    ensures exists d: nat :: d <= Len(p) && StandsAt(Close(side, p, t), x, d)
  {
    var m := Make(side, p.sub, p.x, t);
    if x == p.x {
      assert StandsAt(m, x, 0);
      CloseAt(side, p.up, m, x, 0);
      assert StandsAt(Close(side, p, t), x, Len(p.up));
    } else if p.sub.Fork? && x == p.sub.x {
      assert StandsAt(m, x, 1);
      CloseAt(side, p.up, m, x, 1);
      assert StandsAt(Close(side, p, t), x, Len(p.up) + 1);
    } else {
      SpineAt(side, p.up, m, x);
      var d: nat :| d <= Len(p.up) && StandsAt(Close(side, p.up, m), x, d);
      assert StandsAt(Close(side, p, t), x, d);
    }
  }

  // With at most b / 2 nodes above it.
  ghost predicate Shallow(t: Tree, x: Node, b: nat) {
    exists d: nat :: 2 * d <= b && StandsAt(t, x, d)
  }

  // Every node of the spines is at most one deeper than its spine is long.
  lemma JoinedAt(lp: Spine, t: Tree, rp: Spine, x: Node, b: nat)
    requires t.Fork? && (OnSpine(lp, x) || OnSpine(rp, x)) && 2 * Len(lp) + 2 <= b && 2 * Len(rp) + 2 <= b
    ensures Shallow(Joined(lp, t, rp), x, b)
  {
    var w := Joined(lp, t, rp);
    if OnSpine(lp, x) {
      SpineAt(L, lp, t.l, x);
      var d: nat :| d <= Len(lp) && StandsAt(w.l, x, d);
      assert StandsAt(w, x, d + 1);
    } else {
      SpineAt(R, rp, t.r, x);
      var d: nat :| d <= Len(rp) && StandsAt(w.r, x, d);
      assert StandsAt(w, x, d + 1);
    }
  }

  lemma RootShallow(lp: Spine, t: Tree, rp: Spine, b: nat)
    requires t.Fork?
    ensures Shallow(Joined(lp, t, rp), t.x, b)
  {
    assert StandsAt(Joined(lp, t, rp), t.x, 0);
  }

  // The root that was turned down hangs below the other spine.
  lemma TurnedShallow(side: Side, lp: Spine, t: Tree, rp: Spine, b: nat)
    requires t.Fork? && (if side == L then t.l else t.r).Fork?
    requires 2 * Len(if side == L then rp else lp) + 2 <= b
    ensures Shallow(Joined(lp, Turned(side, t), rp), t.x, b)
  {
    var u := Turned(side, t);
    var w := Joined(lp, u, rp);
    if side == L {
      assert StandsAt(u.r, t.x, 0);
      CloseAt(R, rp, u.r, t.x, 0);
      assert StandsAt(w, t.x, Len(rp) + 1);
    } else {
      assert StandsAt(u.l, t.x, 0);
      CloseAt(L, lp, u.l, t.x, 0);
      assert StandsAt(w, t.x, Len(lp) + 1);
    }
  }

  // After k comparisons neither spine is longer than half of k; a spine that has just grown by a single node
  // may be one ahead, and then the search turns away from it.
  ghost predicate Halved(cmp: (Key, Key) -> int, key: Key, lp: Spine, t: Tree, rp: Spine, k: nat) {
    && t.Fork?
    && 2 * Len(lp) <= k + 1 && (2 * Len(lp) == k + 1 ==> cmp(key, t.x.key) <= 0)
    && 2 * Len(rp) <= k + 1 && (2 * Len(rp) == k + 1 ==> cmp(key, t.x.key) >= 0)
  }

  ghost predicate Met(cmp: (Key, Key) -> int, key: Key, lp: Spine, t: Tree, rp: Spine, x: Node) {
    OnSpine(lp, x) || OnSpine(rp, x) || x in Way(cmp, key, t)
  }

  // A round towards a smaller key.
  lemma HalvesLeft(cmp: (Key, Key) -> int, key: Key, lp: Spine, t: Tree, rp: Spine, k: nat, x: Node)
    requires Halved(cmp, key, lp, t, rp, k) && Met(cmp, key, lp, t, rp, x) && cmp(key, t.x.key) < 0 && t.l.Fork?
    ensures cmp(key, t.l.x.key) >= 0 ==>
      var rp1 := Link(t.x, t.r, rp);
      && Halved(cmp, key, lp, t.l, rp1, k + 1) && Met(cmp, key, lp, t.l, rp1, x)
      && |Way(cmp, key, t)| == 1 + |Way(cmp, key, t.l)|
    ensures cmp(key, t.l.x.key) < 0 && t.l.l.Fork? ==>
      var rp1 := Link(t.l.x, Fork(t.l.r, t.x, t.r), rp);
      && Halved(cmp, key, lp, t.l.l, rp1, k + 2) && Met(cmp, key, lp, t.l.l, rp1, x)
      && |Way(cmp, key, t)| == 2 + |Way(cmp, key, t.l.l)|
    ensures cmp(key, t.l.x.key) < 0 && t.l.l.Nil? ==>
      |Way(cmp, key, t)| == 2 && (OnSpine(lp, x) || OnSpine(rp, x) || x == t.x || x == t.l.x)
  {
    assert Way(cmp, key, t) == [t.x] + Way(cmp, key, t.l);
    if cmp(key, t.l.x.key) < 0 { assert Way(cmp, key, t.l) == [t.l.x] + Way(cmp, key, t.l.l); }
  }

  lemma HalvesRight(cmp: (Key, Key) -> int, key: Key, lp: Spine, t: Tree, rp: Spine, k: nat, x: Node)
    requires Halved(cmp, key, lp, t, rp, k) && Met(cmp, key, lp, t, rp, x) && cmp(key, t.x.key) > 0 && t.r.Fork?
    ensures cmp(key, t.r.x.key) <= 0 ==>
      var lp1 := Link(t.x, t.l, lp);
      && Halved(cmp, key, lp1, t.r, rp, k + 1) && Met(cmp, key, lp1, t.r, rp, x)
      && |Way(cmp, key, t)| == 1 + |Way(cmp, key, t.r)|
    ensures cmp(key, t.r.x.key) > 0 && t.r.r.Fork? ==>
      var lp1 := Link(t.r.x, Fork(t.l, t.x, t.r.l), lp);
      && Halved(cmp, key, lp1, t.r.r, rp, k + 2) && Met(cmp, key, lp1, t.r.r, rp, x)
      && |Way(cmp, key, t)| == 2 + |Way(cmp, key, t.r.r)|
    ensures cmp(key, t.r.x.key) > 0 && t.r.r.Nil? ==>
      |Way(cmp, key, t)| == 2 && (OnSpine(lp, x) || OnSpine(rp, x) || x == t.x || x == t.r.x)
  {
    assert Way(cmp, key, t) == [t.x] + Way(cmp, key, t.r);
    if cmp(key, t.r.x.key) > 0 { assert Way(cmp, key, t.r) == [t.r.x] + Way(cmp, key, t.r.r); }
  }

  lemma EndsHere(cmp: (Key, Key) -> int, key: Key, lp: Spine, t: Tree, rp: Spine, k: nat, x: Node)
    requires Halved(cmp, key, lp, t, rp, k) && Met(cmp, key, lp, t, rp, x)
    requires (cmp(key, t.x.key) < 0 ==> t.l.Nil?) && (cmp(key, t.x.key) > 0 ==> t.r.Nil?)
    ensures |Way(cmp, key, t)| == 1 && Shallow(Joined(lp, t, rp), x, k + 4)
  {
    hide Shallow, Joined;
    if OnSpine(lp, x) || OnSpine(rp, x) { JoinedAt(lp, t, rp, x, k + 4); } else { RootShallow(lp, t, rp, k + 4); }
  }

  lemma TurnEnds(side: Side, lp: Spine, t: Tree, rp: Spine, x: Node, b: nat)
    requires t.Fork? && (if side == L then t.l else t.r).Fork?
    requires OnSpine(lp, x) || OnSpine(rp, x) || x == t.x || x == (if side == L then t.l else t.r).x
    requires 2 * Len(lp) + 2 <= b && 2 * Len(rp) + 2 <= b
    ensures Shallow(Joined(lp, Turned(side, t), rp), x, b)
  {
    hide Shallow, Joined;
    if OnSpine(lp, x) || OnSpine(rp, x) {
      JoinedAt(lp, Turned(side, t), rp, x, b);
    } else if x == t.x {
      TurnedShallow(side, lp, t, rp, b);
    } else {
      RootShallow(lp, Turned(side, t), rp, b);
    }
  }

  lemma {:induction false} SplayedHalves(
      cmp: (Key, Key) -> int, key: Key, lp: Spine, t: Tree, rp: Spine, k: nat, x: Node)
    requires Halved(cmp, key, lp, t, rp, k) && Met(cmp, key, lp, t, rp, x)
    ensures Shallow(Splayed(cmp, key, lp, t, rp), x, k + |Way(cmp, key, t)| + 3)
    decreases t
  {
    assert 2 * Len(lp) <= k + 1 && 2 * Len(rp) <= k + 1;
    hide Shallow, Joined, Turned, Halved, Met, Way, OnSpine, Len, Close;
    var comp, b := cmp(key, t.x.key), k + |Way(cmp, key, t)| + 3;
    if comp < 0 && t.l.Fork? {
      HalvesLeft(cmp, key, lp, t, rp, k, x);
      if cmp(key, t.l.x.key) >= 0 {
        SplayedHalves(cmp, key, lp, t.l, Link(t.x, t.r, rp), k + 1, x);
      } else if t.l.l.Fork? {
        SplayedHalves(cmp, key, lp, t.l.l, Link(t.l.x, Fork(t.l.r, t.x, t.r), rp), k + 2, x);
      } else {
        TurnEnds(L, lp, t, rp, x, b);
      }
    } else if comp > 0 && t.r.Fork? {
      HalvesRight(cmp, key, lp, t, rp, k, x);
      if cmp(key, t.r.x.key) <= 0 {
        SplayedHalves(cmp, key, Link(t.x, t.l, lp), t.r, rp, k + 1, x);
      } else if t.r.r.Fork? {
        SplayedHalves(cmp, key, Link(t.r.x, Fork(t.l, t.x, t.r.l), lp), t.r.r, rp, k + 2, x);
      } else {
        TurnEnds(R, lp, t, rp, x, b);
      }
    } else {
      EndsHere(cmp, key, lp, t, rp, k, x);
    }
  }

  // Splaying leaves every node that was compared with at a depth of half the number of these, and a half
  // more, at the most.
  lemma SplayHalvesTheWay(cmp: (Key, Key) -> int, key: Key, t: Tree, x: Node)
    requires t.Fork? && x in Way(cmp, key, t)
    ensures exists d: nat :: 2 * d <= |Way(cmp, key, t)| + 3 && StandsAt(Splayed(cmp, key, Header, t, Header), x, d)
  {
    hide Splayed, Way;
    SplayedHalves(cmp, key, Header, t, Header, 0, x);
  }

  // --- One round ---

  // A round towards a smaller key.
  lemma RoundLeft(cmp: (Key, Key) -> int, key: Key, lp: Spine, t: Tree, rp: Spine)
    requires t.Fork? && cmp(key, t.x.key) < 0
    ensures Splayed(cmp, key, lp, t, rp) ==
      if t.l.Nil? then Joined(lp, t, rp)
      else
        var u := if cmp(key, t.l.x.key) < 0 then Turned(L, t) else t;
        if u.l.Nil? then Joined(lp, u, rp) else Splayed(cmp, key, lp, u.l, Link(u.x, u.r, rp))
    ensures t.l.Fork? ==>
      |Way(cmp, key, t)| == 1 + |Way(cmp, key, t.l)|
    ensures t.l.Fork? && cmp(key, t.l.x.key) < 0 ==> |Way(cmp, key, t)| == 2 + |Way(cmp, key, t.l.l)|
  {
  }

  lemma RoundRight(cmp: (Key, Key) -> int, key: Key, lp: Spine, t: Tree, rp: Spine)
    requires t.Fork? && cmp(key, t.x.key) > 0
    ensures Splayed(cmp, key, lp, t, rp) ==
      if t.r.Nil? then Joined(lp, t, rp)
      else
        var u := if cmp(key, t.r.x.key) > 0 then Turned(R, t) else t;
        if u.r.Nil? then Joined(lp, u, rp) else Splayed(cmp, key, Link(u.x, u.l, lp), u.r, rp)
    ensures t.r.Fork? ==>
      |Way(cmp, key, t)| == 1 + |Way(cmp, key, t.r)|
    ensures t.r.Fork? && cmp(key, t.r.x.key) > 0 ==> |Way(cmp, key, t)| == 2 + |Way(cmp, key, t.r.r)|
  {
  }

  lemma WayBegins(cmp: (Key, Key) -> int, key: Key, t: Tree)
    requires t.Fork?
    ensures |Way(cmp, key, t)| >= 1
  {
  }

  lemma FoundAtRoot(cmp: (Key, Key) -> int, key: Key, lp: Spine, t: Tree, rp: Spine)
    requires t.Fork? && cmp(key, t.x.key) == 0
    ensures Splayed(cmp, key, lp, t, rp) == Joined(lp, t, rp)
  {
  }

  // Every node is on the same side of the one looked for, as in the search for an end of the tree.
  ghost function Towards(val: int): (Key, Key) -> int {
    (a: Key, b: Key) => val
  }
}
