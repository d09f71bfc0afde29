/**
 Post-order iteration.  The walk of `rbtree_postorder_for_each_entry_safe` computes the
 successor before running the loop body, and the body may destroy its node: what the
 iterator still has to read is described by `Live`, which never mentions a visited node.
 */
module RbPostorder {
  import opened Sequences
  import opened RbShape
  import opened RbPrimitives

  ghost function Postorder(t: Tree): seq<Node> {
    if t.Leaf? then [] else Postorder(t.l) + Postorder(t.r) + [t.n]
  }

  ghost function PBefore(k: Ctx): seq<Node> {
    if k.Hole? then [] else if k.s == Left then PBefore(k.up) else PBefore(k.up) + Postorder(k.sib)
  }

  ghost function PAfter(k: Ctx): seq<Node> {
    if k.Hole? then [] else (if k.s == Left then Postorder(k.sib) else []) + [k.n] + PAfter(k.up)
  }

  lemma {:induction false} PlugPostorder(k: Ctx, t: Tree)
    ensures Postorder(Plug(k, t)) == PBefore(k) + Postorder(t) + PAfter(k)
  {
    if k.Step? {
      var B, T, S, A := PBefore(k.up), Postorder(t), Postorder(k.sib), PAfter(k.up);
      PlugPostorder(k.up, Mk(k.s, t, k.n, k.c, k.a, k.sib));
      assert [] + [k.n] + A == [k.n] + A;
      Regroup(B, T, S, [k.n], A);
      Regroup(B, S, T, [k.n], A);
    }
  }

  /** Post-order visits each node once, */
  lemma {:induction false} PostorderOnce(t: Tree)
    requires Distinct(t)
    ensures NoDup(Postorder(t)) && Elems(Postorder(t)) == Nodes(t)
  {
    if t.Bin? {
      PostorderOnce(t.l);
      PostorderOnce(t.r);
      Concatenated(Postorder(t.l), Postorder(t.r), t.n);
    }
  }

  lemma {:induction false} Concatenated(s: seq<Node>, s': seq<Node>, x: Node)
    requires NoDup(s) && NoDup(s') && Elems(s) !! Elems(s') && x !in Elems(s) && x !in Elems(s')
    ensures NoDup(s + s' + [x]) && Elems(s + s' + [x]) == Elems(s) + Elems(s') + {x}
  {
    assert forall y :: y in s ==> y in Elems(s);
    assert forall y :: y in s' ==> y in Elems(s');
    JoinedNoDup(s, s');
    JoinedNoDup(s + s', [x]);
  }

  /** and every node after all the nodes of its subtree. */
  lemma {:induction false} ChildrenFirst(k: Ctx, t: Tree)
    requires t.Bin?
    ensures var s, j := Postorder(Plug(k, t)), |PBefore(k)| + |Postorder(t)| - 1;
            && j < |s| && s[j] == t.n
            && forall i :: |PBefore(k)| <= i < j ==> s[i] == Postorder(t)[i - |PBefore(k)|]
  {
    PlugPostorder(k, t);
  }

  // ------------------------------------------------------------ what is read

  /** The part of context `k` that remains to be visited is intact; left siblings are gone. */
  ghost predicate LiveC(m: Mem, k: Ctx, x: Node?) {
    k.Step? ==>
      var here := k.n in m && m[k.n] == MkCell(k.s, Above(k.up, null), k.c, x, Top(k.sib), k.a);
      var around := (k.s == Left ==> Rep(m, k.sib, k.n)) && LiveC(m, k.up, k.n);
      here && around
  }

  ghost function LiveNodes(k: Ctx): set<Node> {
    if k.Hole? then {} else {k.n} + (if k.s == Left then Nodes(k.sib) else {}) + LiveNodes(k.up)
  }

  lemma {:induction false} LiveSubset(k: Ctx)
    ensures LiveNodes(k) <= CNodes(k)
  {
    if k.Step? { LiveSubset(k.up); }
  }

  /** The iterator stands on `t.n`, whose subtrees have been visited. */
  ghost predicate Live(m: Mem, k: Ctx, t: Tree) {
    && t.Bin? && t.n in m
    && var here := m[t.n] == Cell(Above(k, null), t.c, Top(t.l), Top(t.r), t.a);
       here && LiveC(m, k, t.n) && ZDistinct(k, t)
  }

  lemma {:induction false} FrameLive(m: Mem, m': Mem, k: Ctx, x: Node?, a: Node)
    requires LiveC(m, k, x) && Agree(m, m', a, null, null, null) && a !in LiveNodes(k)
    ensures LiveC(m', k, x)
  {
    if k.Step? {
      if k.s == Left { FrameRep(m, m', k.sib, k.n, a, null, null, null); }
      FrameLive(m, m', k.up, k.n, a);
    }
  }

  /** What the iterator may go on to read: its own node and the live nodes, nothing handed out before. */
  lemma {:induction false} LiveFootprint(m: Mem, m': Mem, k: Ctx, t: Tree)
    requires Live(m, k, t) && forall n :: n in LiveNodes(k) + {t.n} && n in m ==> n in m' && m'[n] == m[n]
    ensures Live(m', k, t)
  {
    LiveCFootprint(m, m', k, t.n);
  }

  lemma {:induction false} LiveCFootprint(m: Mem, m': Mem, k: Ctx, x: Node?)
    requires LiveC(m, k, x) && forall n :: n in LiveNodes(k) && n in m ==> n in m' && m'[n] == m[n]
    ensures LiveC(m', k, x)
  {
    if k.Step? {
      if k.s == Left { RepOn(m, m', k.sib, k.n); }
      LiveCFootprint(m, m', k.up, k.n);
    }
  }

  /** A deeper position in the same tree, reached without leaving `N`. */
  ghost predicate Deeper(k: Ctx, t: Tree, k': Ctx, t': Tree) {
    var tree := Plug(k', t') == Plug(k, t) && PBefore(k') == PBefore(k);
    var nodes := LiveNodes(k') + Nodes(t') <= LiveNodes(k) + Nodes(t);
    var all := tree && nodes;
    all
  }

  /** `rb_left_deepest_node` */
  method LeftDeepest(start: Node, ghost k: Ctx, ghost t: Tree, ghost S: set<Node>)
      returns (n: Node, ghost k': Ctx, ghost t': Tree)
    requires t.Bin? && start == t.n && LiveC(Snap(S), k, t.n) && Rep(Snap(S), t, Above(k, null))
    ensures t'.Bin? && n == t'.n && LiveC(Snap(S), k', t'.n) && Rep(Snap(S), t', Above(k', null))
    ensures Deeper(k, t, k', t') && t'.l.Leaf? && t'.r.Leaf?
  {
    n, k', t' := start, k, t;
    while true
      invariant t'.Bin? && n == t'.n && LiveC(Snap(S), k', t'.n) && Rep(Snap(S), t', Above(k', null))
      invariant Deeper(k, t, k', t')
      decreases t'
    {
      if n.left != null {
        n := n.left;
        k', t' := Step(Left, t'.n, t'.c, t'.a, t'.r, k'), t'.l;
      } else if n.right != null {
        n := n.right;
        k', t' := Step(Right, t'.n, t'.c, t'.a, t'.l, k'), t'.r;
      } else {
        return;
      }
    }
  }

  /** One step on: everything up to and including `t` has been visited, and the new
      position reads nothing of it. */
  ghost predicate Advanced(m: Mem, k: Ctx, t: Tree, k': Ctx, t': Tree) {
    && t'.Bin?
    && var order := Plug(k', t') == Plug(k, t)
      && PBefore(k') + Postorder(t'.l) + Postorder(t'.r) == PBefore(k) + Postorder(t);
       var unread := Nodes(t) !! LiveNodes(k') + {t'.n};
       order && unread && Live(m, k', t')
  }

  lemma {:induction false} LiveFlat(m: Mem, k: Ctx, t: Tree)
    requires Live(m, k, t)
    ensures m[t.n].parent == Above(k, null)
    ensures k.Step? ==>
      k.n in m && m[k.n].Child(k.s) == t.n && m[k.n].Child(k.s.Opp()) == Top(k.sib) && Top(k.sib) != t.n
  {
  }

  lemma {:induction false} ToParent(m: Mem, k: Ctx, t: Tree)
    requires Live(m, k, t) && k.Step? && (k.s == Right || k.sib.Leaf?)
    ensures Advanced(m, k, t, k.up, Mk(k.s, t, k.n, k.c, k.a, k.sib))
  {
    var t' := Mk(k.s, t, k.n, k.c, k.a, k.sib);
    PlugNodes(k, t);
    PlugNodes(k.up, t');
    LiveSubset(k.up);
    if k.s == Left {
      assert PBefore(k.up) + Postorder(t) + [] == PBefore(k) + Postorder(t);
    } else {
      assert PBefore(k.up) + Postorder(k.sib) + Postorder(t) == PBefore(k) + Postorder(t);
    }
  }

  lemma {:induction false} ToSibling(m: Mem, k: Ctx, t: Tree, k': Ctx, t': Tree)
    requires Live(m, k, t) && k.Step? && k.s == Left && k.sib.Bin?
    requires t'.Bin? && t'.l.Leaf? && t'.r.Leaf? && LiveC(m, k', t'.n) && Rep(m, t', Above(k', null))
    requires Deeper(Step(Right, k.n, k.c, k.a, t, k.up), k.sib, k', t')
    ensures Advanced(m, k, t, k', t')
  {
    var k1 := Step(Right, k.n, k.c, k.a, t, k.up);
    assert Plug(k1, k.sib) == Plug(k, t);
    PlugNodes(k, t);
    PlugNodes(k', t');
    LiveSubset(k.up);
    assert PBefore(k') + [] + [] == PBefore(k') == PBefore(k.up) + Postorder(t);
  }

  /** `rb_next_postorder` */
  method NextPostorder(node: Node, ghost k: Ctx, ghost t: Tree, ghost S: set<Node>)
      returns (n: Node?, ghost k': Ctx, ghost t': Tree)
    requires Live(Snap(S), k, t) && node == t.n
    ensures n == null <==> k.Hole?
    ensures n != null ==> Advanced(Snap(S), k, t, k', t') && n == t'.n
  {
    LiveFlat(Snap(S), k, t);
    k', t' := k, t;
    var parent := node.parent;
    if parent != null && node == parent.left && parent.right != null {
      n, k', t' := LeftDeepest(parent.right, Step(Right, k.n, k.c, k.a, t, k.up), k.sib, S);
      ToSibling(Snap(S), k, t, k', t');
    } else {
      n := parent;
      if k.Step? {
        ToParent(Snap(S), k, t);
        k', t' := k.up, Mk(k.s, t, k.n, k.c, k.a, k.sib);
      }
    }
  }

  /** A loop body that may do anything to its node, such as freeing it. */
  method Dispose(n: Node)
    modifies n
  {
  }

  lemma {:induction false} FewerLeft(m: Mem, k: Ctx, t: Tree, k': Ctx, t': Tree)
    requires Advanced(m, k, t, k', t')
    ensures |PAfter(k)| == 1 + |PAfter(k')|
  {
    PlugPostorder(k, t);
    PlugPostorder(k', t');
  }

  lemma {:induction false} DisposeLive(m: Mem, m': Mem, k: Ctx, t: Tree, k': Ctx, t': Tree)
    requires Advanced(m, k, t, k', t') && t.Bin? && Agree(m, m', t.n, null, null, null)
    ensures Live(m', k', t')
  {
    FrameLive(m, m', k', t'.n, t.n);
  }

  lemma {:induction false} StartLive(m: Mem, tree: Tree, k: Ctx, t: Tree)
    requires Rep(m, tree, null) && Distinct(tree) && tree.Bin? && t.Bin? && t.l.Leaf? && t.r.Leaf?
    requires LiveC(m, k, t.n) && Rep(m, t, Above(k, null)) && Deeper(Hole, tree, k, t)
    ensures Live(m, k, t)
  {
    PlugNodes(k, t);
  }

  /** `rb_first_postorder` */
  method FirstPostorder(root: Root, ghost tree: Tree, ghost S: set<Node>)
      returns (n: Node?, ghost k: Ctx, ghost t: Tree)
    requires Rep(Snap(S), tree, null) && Distinct(tree) && root.node == Top(tree)
    ensures n == null <==> tree.Leaf?
    ensures n != null ==>
      Live(Snap(S), k, t) && n == t.n && Plug(k, t) == tree && PBefore(k) + Postorder(t.l) + Postorder(t.r) == []
  {
    k, t := Hole, tree;
    n := root.node;
    if n != null {
      n, k, t := LeftDeepest(n, Hole, tree, S);
      StartLive(Snap(S), tree, k, t);
    }
  }

  /** The walk stands on `t.n` and has visited exactly what precedes it. */
  ghost predicate Walking(m: Mem, tree: Tree, k: Ctx, t: Tree, visited: seq<Node>) {
    && Live(m, k, t)
    && var order := Plug(k, t) == tree && visited == PBefore(k) + Postorder(t.l) + Postorder(t.r);
       order
  }

  lemma {:induction false} WalkStep(m: Mem, m': Mem, tree: Tree, k: Ctx, t: Tree, k': Ctx, t': Tree, visited: seq<Node>)
    requires Walking(m, tree, k, t, visited) && Advanced(m, k, t, k', t') && Agree(m, m', t.n, null, null, null)
    ensures Walking(m', tree, k', t', visited + [t.n]) && |PAfter(k)| == 1 + |PAfter(k')|
  {
    DisposeLive(m, m', k, t, k', t');
    FewerLeft(m, k, t, k', t');
    assert visited + [t.n] == PBefore(k) + Postorder(t);
  }

  lemma {:induction false} WalkEnd(m: Mem, tree: Tree, k: Ctx, t: Tree, visited: seq<Node>)
    requires Walking(m, tree, k, t, visited) && k.Hole?
    ensures visited + [t.n] == Postorder(tree)
  {
    assert [] + Postorder(t.l) + Postorder(t.r) == Postorder(t.l) + Postorder(t.r);
  }

  /** `rbtree_postorder_for_each_entry_safe` with a body that destroys its node: every node
      is visited exactly once, in post-order. */
  method ForEachSafe(root: Root, ghost tree: Tree, ghost S: set<Node>) returns (visited: seq<Node>)
    requires Rep(Snap(S), tree, null) && Distinct(tree) && root.node == Top(tree)
    modifies S
    ensures visited == Postorder(tree)
  {
    visited := [];
    var pos;
    ghost var k, t;
    pos, k, t := FirstPostorder(root, tree, S);
    while pos != null
      invariant pos == null ==> visited == Postorder(tree)
      invariant pos != null ==> Walking(Snap(S), tree, k, t, visited) && pos == t.n
      decreases if pos == null then 0 else 1 + |PAfter(k)|
    {
      ghost var m := Snap(S);
      var n;
      ghost var k', t';
      n, k', t' := NextPostorder(pos, k, t, S);
      if n == null { WalkEnd(m, tree, k, t, visited); }
      Dispose(pos);
      if n != null { WalkStep(m, Snap(S), tree, k, t, k', t', visited); }
      visited := visited + [pos];
      pos, k, t := n, k', t';
    }
  }
}
