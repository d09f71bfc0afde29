/**
 Nodes of the intrusive red-black tree, the trees and one-hole contexts that the
 heap can represent, and the representation predicates relating the two.

 The source packs a node's parent pointer and colour into one word
 (`__rb_parent_color`); here they are the two fields `parent` and `color`.

 A predicate that names its conjunction before returning it (`var all := a && b; all`) is proved
 and used as one fact.  Without the name, each of its clauses would be an obligation of its own
 wherever the predicate is a pre- or postcondition, which the larger proofs cannot afford.
 */
module RbShape {
  import opened Sequences

  datatype Color = Red | Black

  datatype Side = Left | Right {
    function Opp(): Side { if this == Left then Right else Left }
  }

  /** The contents of a node's mutable fields. */
  datatype Cell = Cell(parent: Node?, color: Color, left: Node?, right: Node?, aug: int) {
    ghost function Child(s: Side): Node? { if s == Left then left else right }
  }

  /** A snapshot of the fields of some nodes. */
  type Mem = map<Node, Cell>

  class Node {
    var parent: Node?
    var color: Color
    var left: Node?
    var right: Node?
    /** The augmented field of the enclosing structure (RBAUGMENTED). */
    var aug: int
    /** What RBCOMPUTE yields for the enclosing structure. */
    const val: int
    /** The bytes of the enclosing structure that comparison callbacks look at. */
    const payload: seq<int>

    constructor (val: int, payload: seq<int>)
      ensures this.val == val && this.payload == payload && aug == val
      ensures parent == null && left == null && right == null && color == Red
    {
      this.val, this.payload, this.aug := val, payload, val;
      parent, left, right, color := null, null, null, Red;
    }

    ghost function Content(): Cell
      reads this
    {
      Cell(parent, color, left, right, aug)
    }

    function Child(s: Side): Node?
      reads this
    {
      if s == Left then left else right
    }

    method SetChild(s: Side, x: Node?)
      modifies `left, `right
      ensures Child(s) == x && Child(s.Opp()) == old(Child(s.Opp()))
    {
      if s == Left {
        left := x;
      } else {
        right := x;
      }
    }
  }

  class Root {
    var node: Node?
    /** How often child pointers below this root have been rotated. */
    ghost var rotations: nat

    constructor ()
      ensures node == null && rotations == 0
    {
      node, rotations := null, 0;
    }
  }

  // ---------------------------------------------------------------- trees

  /** A binary tree of nodes with their colours and augmented values. */
  datatype Tree = Leaf | Bin(l: Tree, n: Node, c: Color, a: int, r: Tree)

  ghost function Nodes(t: Tree): set<Node> {
    match t
    case Leaf => {}
    case Bin(l, n, _, _, r) => Nodes(l) + {n} + Nodes(r)
  }

  ghost function Inorder(t: Tree): seq<Node> {
    match t
    case Leaf => []
    case Bin(l, n, _, _, r) => Inorder(l) + [n] + Inorder(r)
  }

  /** No node occurs twice in the tree. */
  ghost predicate Distinct(t: Tree) {
    t.Bin? ==>
      && t.n !in Nodes(t.l) && t.n !in Nodes(t.r) && Nodes(t.l) !! Nodes(t.r)
      && Distinct(t.l) && Distinct(t.r)
  }

  ghost function Top(t: Tree): Node? {
    if t.Leaf? then null else t.n
  }

  ghost function Mk(s: Side, near: Tree, n: Node, c: Color, a: int, far: Tree): Tree {
    if s == Left then Bin(near, n, c, a, far) else Bin(far, n, c, a, near)
  }

  ghost function Sub(t: Tree, s: Side): Tree
    requires t.Bin?
  {
    if s == Left then t.l else t.r
  }

  ghost function MkCell(s: Side, p: Node?, c: Color, near: Node?, far: Node?, a: int): Cell {
    if s == Left then Cell(p, c, near, far, a) else Cell(p, c, far, near, a)
  }

  /** Memory `m` holds tree `t`, whose root node has parent `p`. */
  ghost predicate Rep(m: Mem, t: Tree, p: Node?) {
    t.Bin? ==>
      var here := t.n in m && m[t.n] == Cell(p, t.c, Top(t.l), Top(t.r), t.a);
      var below := Rep(m, t.l, t.n) && Rep(m, t.r, t.n);
      here && below
  }

  // ------------------------------------------------------- one-hole contexts

  /** The path from a hole (innermost frame first) up to the root of the tree.
      In `Step(s, n, c, a, sib, up)` the hole is the child of `n` on side `s`. */
  datatype Ctx = Hole | Step(s: Side, n: Node, c: Color, a: int, sib: Tree, up: Ctx)

  ghost function Plug(k: Ctx, t: Tree): Tree {
    match k
    case Hole => t
    case Step(s, n, c, a, sib, up) => Plug(up, Mk(s, t, n, c, a, sib))
  }

  ghost function CNodes(k: Ctx): set<Node> {
    match k
    case Hole => {}
    case Step(_, n, _, _, sib, up) => {n} + Nodes(sib) + CNodes(up)
  }

  ghost predicate CDistinct(k: Ctx) {
    k.Step? ==>
      && k.n !in Nodes(k.sib) && k.n !in CNodes(k.up) && Nodes(k.sib) !! CNodes(k.up)
      && Distinct(k.sib) && CDistinct(k.up)
  }

  ghost predicate ZDistinct(k: Ctx, t: Tree) {
    var parts := CDistinct(k) && Distinct(t);
    var apart := Nodes(t) !! CNodes(k);
    var all := parts && apart;
    all
  }

  /** In-order nodes to the left and to the right of the hole. */
  ghost function Before(k: Ctx): seq<Node> {
    match k
    case Hole => []
    case Step(s, n, _, _, sib, up) => if s == Left then Before(up) else Before(up) + Inorder(sib) + [n]
  }

  ghost function After(k: Ctx): seq<Node> {
    match k
    case Hole => []
    case Step(s, n, _, _, sib, up) => if s == Right then After(up) else [n] + Inorder(sib) + After(up)
  }

  ghost function Depth(k: Ctx): nat {
    if k.Hole? then 0 else 1 + Depth(k.up)
  }

  /** The parent of whatever fills the hole, when the context's own root has parent `base`. */
  ghost function Above(k: Ctx, base: Node?): Node? {
    if k.Hole? then base else k.n
  }

  /** The root of the context when `x` fills the hole. */
  ghost function Apex(k: Ctx, x: Node?): Node? {
    if k.Hole? then x else Apex(k.up, k.n)
  }

  /** Memory `m` holds context `k` with `x` in the hole; its root has parent `base`. */
  ghost predicate RepC(m: Mem, k: Ctx, x: Node?, base: Node?) {
    k.Step? ==>
      var here := k.n in m && m[k.n] == MkCell(k.s, Above(k.up, base), k.c, x, Top(k.sib), k.a);
      var around := Rep(m, k.sib, k.n) && RepC(m, k.up, k.n, base);
      here && around
  }

  /** Memory `m` holds `Plug(k, t)`, seen from the hole. */
  ghost predicate Zipper(m: Mem, k: Ctx, t: Tree, base: Node?) {
    RepC(m, k, Top(t), base) && Rep(m, t, Above(k, base))
  }

  // ------------------------------------------------------------------ framing

  ghost function Snap(S: set<Node>): (m: Mem)
    reads S
    ensures m.Keys == S
    ensures forall n :: n in S ==> m[n] == n.Content()
  {
    map n | n in S :: n.Content()
  }

  /** `m` and `m'` agree except perhaps on the four given nodes. */
  ghost predicate Agree(m: Mem, m': Mem, a: Node?, b: Node?, c: Node?, d: Node?) {
    forall n :: n in m && n != a && n != b && n != c && n != d ==> n in m' && m'[n] == m[n]
  }

  ghost predicate Off(n: Node?, t: Tree) {
    n == null || n !in Nodes(t)
  }

  ghost predicate OffC(n: Node?, k: Ctx) {
    n == null || n !in CNodes(k)
  }

  lemma {:induction false} FrameRep(m: Mem, m': Mem, t: Tree, p: Node?, a: Node?, b: Node?, c: Node?, d: Node?)
    requires Rep(m, t, p) && Agree(m, m', a, b, c, d) && Off(a, t) && Off(b, t) && Off(c, t) && Off(d, t)
    ensures Rep(m', t, p)
  {
    if t.Bin? {
      FrameRep(m, m', t.l, t.n, a, b, c, d);
      FrameRep(m, m', t.r, t.n, a, b, c, d);
    }
  }

  /** `m'` holds at least the part of `m` that `t` occupies. */
  lemma {:induction false} RepOn(m: Mem, m': Mem, t: Tree, p: Node?)
    requires Rep(m, t, p) && forall n :: n in Nodes(t) && n in m ==> n in m' && m'[n] == m[n]
    ensures Rep(m', t, p)
  {
    if t.Bin? {
      RepOn(m, m', t.l, t.n);
      RepOn(m, m', t.r, t.n);
    }
  }

  lemma {:induction false} FrameRepC(m: Mem, m': Mem, k: Ctx, x: Node?, base: Node?, a: Node?, b: Node?, c: Node?,
      d: Node?)
    requires RepC(m, k, x, base) && Agree(m, m', a, b, c, d) && OffC(a, k) && OffC(b, k) && OffC(c, k) && OffC(d, k)
    ensures RepC(m', k, x, base)
  {
    if k.Step? {
      FrameRep(m, m', k.sib, k.n, a, b, c, d);
      FrameRepC(m, m', k.up, k.n, base, a, b, c, d);
    }
  }

  lemma {:induction false} PlugNodes(k: Ctx, t: Tree)
    ensures Nodes(Plug(k, t)) == CNodes(k) + Nodes(t)
    ensures Distinct(Plug(k, t)) <==> ZDistinct(k, t)
  {
    if k.Step? {
      PlugNodes(k.up, Mk(k.s, t, k.n, k.c, k.a, k.sib));
    }
  }

  lemma {:induction false} PlugInorder(k: Ctx, t: Tree)
    ensures Inorder(Plug(k, t)) == Before(k) + Inorder(t) + After(k)
  {
    if k.Step? {
      var B, I, S, A := Before(k.up), Inorder(t), Inorder(k.sib), After(k.up);
      PlugInorder(k.up, Mk(k.s, t, k.n, k.c, k.a, k.sib));
      Regroup(B, I, [k.n], S, A);
      Regroup(B, S, [k.n], I, A);
    }
  }

  lemma {:induction false} PlugRep(m: Mem, k: Ctx, t: Tree, base: Node?)
    ensures Zipper(m, k, t, base) <==> Rep(m, Plug(k, t), base)
    ensures Top(Plug(k, t)) == Apex(k, Top(t))
  {
    if k.Step? {
      PlugRep(m, k.up, Mk(k.s, t, k.n, k.c, k.a, k.sib), base);
    }
  }

  /** A node of the tree is somewhere in it. */
  lemma {:induction false} Locate(k: Ctx, t: Tree, n: Node) returns (c: Ctx, sub: Tree)
    requires n in Nodes(t)
    ensures sub.Bin? && sub.n == n && Plug(c, sub) == Plug(k, t)
    decreases t
  {
    if n == t.n {
      c, sub := k, t;
    } else if n in Nodes(t.l) {
      c, sub := Locate(Step(Left, t.n, t.c, t.a, t.r, k), t.l, n);
    } else {
      c, sub := Locate(Step(Right, t.n, t.c, t.a, t.l, k), t.r, n);
    }
  }

  // ---------------------------------------------- distinctness, as a sequence

  ghost function Elems(s: seq<Node>): set<Node> {
    set x | x in s
  }

  lemma {:induction false} ElemsCons(x: Node, s: seq<Node>)
    ensures Elems([x] + s) == {x} + Elems(s)
  {
  }

  lemma {:induction false} InorderNodes(t: Tree)
    ensures Elems(Inorder(t)) == Nodes(t)
  {
    if t.Bin? {
      InorderNodes(t.l);
      InorderNodes(t.r);
    }
  }

  lemma {:induction false} NoDupConcat(s: seq<Node>, x: Node, s': seq<Node>)
    ensures NoDup(s + [x] + s') <==>
            NoDup(s) && NoDup(s') && x !in Elems(s) && x !in Elems(s') && Elems(s) !! Elems(s')
  {
    var w := s + [x] + s';
    assert forall i :: 0 <= i < |s| ==> w[i] == s[i] && s[i] in Elems(s);
    assert w[|s|] == x;
    assert forall i :: |s| < i < |w| ==> w[i] == s'[i - |s| - 1] && w[i] in Elems(s');
    if NoDup(w) {
      forall i, j | 0 <= i < j < |s'| ensures s'[i] != s'[j] {
        assert w[|s| + 1 + i] == s'[i] && w[|s| + 1 + j] == s'[j];
      }
      forall i, j | 0 <= i <= |s| && 0 <= j < |s'| ensures w[i] != s'[j] {
        assert w[|s| + 1 + j] == s'[j];
      }
    }
  }

  lemma {:induction false} DistinctNoDup(t: Tree)
    ensures Distinct(t) <==> NoDup(Inorder(t))
  {
    if t.Bin? {
      DistinctNoDup(t.l);
      DistinctNoDup(t.r);
      InorderNodes(t.l);
      InorderNodes(t.r);
      NoDupConcat(Inorder(t.l), t.n, Inorder(t.r));
    }
  }

  /** Trees with the same in-order sequence have the same nodes and distinctness. */
  lemma {:induction false} SameInorder(t: Tree, t': Tree)
    requires Inorder(t) == Inorder(t')
    ensures Nodes(t) == Nodes(t') && Distinct(t) == Distinct(t')
  {
    InorderNodes(t);
    InorderNodes(t');
    DistinctNoDup(t);
    DistinctNoDup(t');
  }

  /** Rotation keeps the order of the nodes, whatever happens to colours. */
  lemma {:induction false} RotateOrder(s: Side, x: Tree, p: Node, y: Tree, g: Node, u: Tree,
                                       c: Color, a: int, d: Color, b: int, c': Color, a': int, d': Color, b': int)
    ensures var t := Mk(s, Mk(s, x, p, c, a, y), g, d, b, u);
            var t' := Mk(s, x, p, c', a', Mk(s, y, g, d', b', u));
            Inorder(t) == Inorder(t') && Nodes(t) == Nodes(t') && Distinct(t) == Distinct(t')
  {
    var t := Mk(s, Mk(s, x, p, c, a, y), g, d, b, u);
    var t' := Mk(s, x, p, c', a', Mk(s, y, g, d', b', u));
    var X, Y, U := Inorder(x), Inorder(y), Inorder(u);
    if s == Left {
      assert (X + [p] + Y) + [g] + U == X + [p] + (Y + [g] + U);
    } else {
      assert U + [g] + (Y + [p] + X) == (U + [g] + Y) + [p] + X;
    }
    SameInorder(t, t');
  }

  // --------------------------------------------------- removal from a sequence

  /** `s` without its first occurrence of `x`. */
  ghost function Without(s: seq<Node>, x: Node): seq<Node> {
    if s == [] then [] else if s[0] == x then s[1..] else [s[0]] + Without(s[1..], x)
  }

  lemma {:induction false} WithoutMiddle(a: seq<Node>, x: Node, b: seq<Node>)
    requires x !in a
    ensures Without(a + [x] + b, x) == a + b
  {
    var w := a + [x] + b;
    if a == [] {
      assert w[1..] == b;
      assert a + b == b;
    } else {
      assert w[1..] == a[1..] + [x] + b;
      assert [a[0]] + (a[1..] + b) == a + b;
      WithoutMiddle(a[1..], x, b);
    }
  }

  lemma {:induction false} WithoutNoDup(a: seq<Node>, x: Node, b: seq<Node>)
    requires NoDup(a + [x] + b)
    ensures NoDup(a + b) && Without(a + [x] + b, x) == a + b
  {
    var w := a + [x] + b;
    forall i, j | 0 <= i < j < |a + b| ensures (a + b)[i] != (a + b)[j] {
      var i', j' := if i < |a| then i else i + 1, if j < |a| then j else j + 1;
      assert w[i'] == (a + b)[i] && w[j'] == (a + b)[j];
    }
    forall i | 0 <= i < |a| ensures a[i] != x {
      assert w[i] == a[i] && w[|a|] == x;
    }
    WithoutMiddle(a, x, b);
  }
}
