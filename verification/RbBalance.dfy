/**
 The red-black invariants (properties 1-5 named in the source's comments) on trees
 and on one-hole contexts, and the consistency of the augmented maximum.
 */
module RbBalance {
  import opened RbShape

  ghost predicate IsBlack(t: Tree) {
    t.Leaf? || t.c == Black
  }

  /** `t` has no red-red edge and `h` black nodes on every path to a leaf. */
  ghost predicate RB(t: Tree, h: nat) {
    match t
    case Leaf => h == 0
    case Bin(l, _, c, _, r) =>
      if c == Black then h > 0 && RB(l, h - 1) && RB(r, h - 1)
      else IsBlack(l) && IsBlack(r) && RB(l, h) && RB(r, h)
  }

  ghost predicate BlackTop(k: Ctx) {
    k.Step? && k.c == Black
  }

  /** Filling the hole with a tree of black height `h` gives equal black counts, a
      black root and no red-red edge, except perhaps at the hole itself. */
  ghost predicate RBC(k: Ctx, h: nat) {
    match k
    case Hole => true
    case Step(_, _, c, _, sib, up) =>
      && RB(sib, h)
      && (c == Red ==> IsBlack(sib) && BlackTop(up))
      && RBC(up, if c == Black then h + 1 else h)
  }

  /** A whole red-black tree: black root and all paths balanced. */
  ghost predicate RBTree(t: Tree) {
    IsBlack(t) && exists h: nat :: RB(t, h)
  }

  lemma {:induction false} PlugRB(k: Ctx, t: Tree, h: nat)
    requires RB(t, h) && RBC(k, h) && (IsBlack(t) || BlackTop(k))
    ensures RBTree(Plug(k, t))
  {
    if k.Step? {
      var t' := Mk(k.s, t, k.n, k.c, k.a, k.sib);
      PlugRB(k.up, t', if k.c == Black then h + 1 else h);
    }
  }

  /** Black height is a function of the tree, so a valid tree splits at any hole. */
  lemma {:induction false} UnplugRB(k: Ctx, t: Tree) returns (h: nat)
    requires RBTree(Plug(k, t))
    ensures RB(t, h) && RBC(k, h) && (IsBlack(t) || BlackTop(k))
  {
    if k.Hole? {
      h :| RB(t, h);
    } else {
      var t' := Mk(k.s, t, k.n, k.c, k.a, k.sib);
      var h' := UnplugRB(k.up, t');
      h := if k.c == Black then h' - 1 else h';
    }
  }

  // ------------------------------------------------- the augmented maximum

  /** The larger of `m` and the stored value at the root of `t`. */
  ghost function MaxWith(m: int, t: Tree): int {
    if t.Bin? && t.a > m then t.a else m
  }

  /** Every stored value agrees with the node's own value and its children's stored ones. */
  ghost predicate AugOK(t: Tree) {
    t.Bin? ==> t.a == MaxWith(MaxWith(t.n.val, t.l), t.r) && AugOK(t.l) && AugOK(t.r)
  }

  lemma {:induction false} AugMk(s: Side, near: Tree, n: Node, c: Color, a: int, far: Tree)
    ensures AugOK(Mk(s, near, n, c, a, far)) <==> a == MaxWith(MaxWith(n.val, near), far) && AugOK(near) && AugOK(far)
  {
  }

  /** Filling the hole with `t` leaves every frame's stored value consistent. */
  ghost predicate AugC(k: Ctx, t: Tree) {
    k.Step? ==>
      var t' := Mk(k.s, t, k.n, k.c, k.a, k.sib);
      k.a == MaxWith(MaxWith(k.n.val, t), k.sib) && AugOK(k.sib) && AugC(k.up, t')
  }

  /** As `AugC`, but the innermost frame's own stored value may be stale. */
  ghost predicate AugStale(k: Ctx) {
    k.Step? ==> AugOK(k.sib) && AugC(k.up, Mk(k.s, Leaf, k.n, k.c, k.a, k.sib))
  }

  /** A context only sees the stored value of what fills its hole. */
  lemma AugCong(k: Ctx, t: Tree, t': Tree)
    requires t.Bin? && t'.Bin? && t.a == t'.a
    ensures AugC(k, t) == AugC(k, t')
  {
    if k.Step? {
      AugCong(k.up, Mk(k.s, t, k.n, k.c, k.a, k.sib), Mk(k.s, t', k.n, k.c, k.a, k.sib));
    }
  }

  lemma {:induction false} PlugAug(k: Ctx, t: Tree)
    ensures AugOK(Plug(k, t)) <==> AugOK(t) && AugC(k, t)
  {
    if k.Step? {
      PlugAug(k.up, Mk(k.s, t, k.n, k.c, k.a, k.sib));
    }
  }

  /** Local consistency is global truth: the stored value is the subtree's maximum. */
  lemma {:induction false} AugIsMax(t: Tree)
    requires AugOK(t) && t.Bin?
    ensures exists x :: x in Nodes(t) && x.val == t.a
    ensures forall x :: x in Nodes(t) ==> x.val <= t.a
  {
    if t.l.Bin? { AugIsMax(t.l); }
    if t.r.Bin? { AugIsMax(t.r); }
    if t.l.Bin? && t.a == t.l.a {
      var x :| x in Nodes(t.l) && x.val == t.l.a;
      assert x in Nodes(t);
    } else if t.r.Bin? && t.a == t.r.a {
      var x :| x in Nodes(t.r) && x.val == t.r.a;
      assert x in Nodes(t);
    } else {
      assert t.n in Nodes(t) && t.n.val == t.a;
    }
  }

  // ------------------------------------------------------- logarithmic height

  function Pow2(n: nat): nat {
    if n == 0 then 1 else 2 * Pow2(n - 1)
  }

  ghost function Height(t: Tree): nat {
    if t.Leaf? then 0 else 1 + if Height(t.l) > Height(t.r) then Height(t.l) else Height(t.r)
  }

  lemma Pow2Mono(m: nat, n: nat)
    requires m <= n
    ensures Pow2(m) <= Pow2(n)
  {
    if m < n { Pow2Mono(m, n - 1); }
  }

  lemma {:induction false} HeightVsBlack(t: Tree, h: nat)
    requires RB(t, h)
    ensures Pow2(h) <= |Inorder(t)| + 1
    ensures Height(t) <= 2 * h + (if IsBlack(t) then 0 else 1)
  {
    if t.Bin? {
      var h' := if t.c == Black then h - 1 else h;
      HeightVsBlack(t.l, h');
      HeightVsBlack(t.r, h');
    }
  }

  /** n + 1 >= 2^ceil(height / 2), for every red-black tree of n nodes. */
  lemma {:induction false} HeightBound(t: Tree)
    requires RBTree(t)
    ensures Pow2((Height(t) + 1) / 2) <= |Inorder(t)| + 1
  {
    var h: nat :| RB(t, h);
    HeightVsBlack(t, h);
    Pow2Mono((Height(t) + 1) / 2, h);
  }
}
