/** In-order iteration: `rb_first`, `rb_last`, `rb_next` and `rb_prev`. */
module RbIterate {
  import opened Sequences
  import opened RbShape
  import opened RbBalance
  import opened RbPrimitives

  // ----------------------------------------------------- neighbours in a sequence

  ghost function IndexOf(s: seq<Node>, x: Node): (i: nat)
    requires x in s
    ensures i < |s| && s[i] == x
  {
    if s[0] == x then 0 else 1 + IndexOf(s[1..], x)
  }

  ghost function NextIn(s: seq<Node>, x: Node): Node?
    requires x in s
  {
    var i := IndexOf(s, x) + 1;
    if i < |s| then s[i] else null
  }

  ghost function PrevIn(s: seq<Node>, x: Node): Node?
    requires x in s
  {
    var i := IndexOf(s, x);
    if i > 0 then s[i - 1] else null
  }

  lemma {:induction false} IndexUnique(s: seq<Node>, i: nat)
    requires NoDup(s) && i < |s|
    ensures IndexOf(s, s[i]) == i
  {
  }

  /** The two steps are mutual inverses away from the ends. */
  lemma {:induction false} NextPrevInverse(s: seq<Node>, x: Node)
    requires NoDup(s) && x in s
    ensures NextIn(s, x) != null ==> NextIn(s, x) in s && PrevIn(s, NextIn(s, x)) == x
    ensures PrevIn(s, x) != null ==> PrevIn(s, x) in s && NextIn(s, PrevIn(s, x)) == x
  {
    var i := IndexOf(s, x);
    if i + 1 < |s| { IndexUnique(s, i + 1); }
    if i > 0 { IndexUnique(s, i - 1); }
  }

  lemma {:induction false} NextAt(a: seq<Node>, x: Node, b: seq<Node>)
    requires NoDup(a + [x] + b)
    ensures NextIn(a + [x] + b, x) == if b == [] then null else b[0]
    ensures PrevIn(a + [x] + b, x) == if a == [] then null else a[|a| - 1]
  {
    var w := a + [x] + b;
    assert w[|a|] == x;
    IndexUnique(w, |a|);
  }

  // ------------------------------------------------------------- in-order

  /** Memory holds `tree` under `root`, without duplicates. */
  ghost predicate Held(m: Mem, root: Node?, tree: Tree) {
    var heap := Rep(m, tree, null) && root == Top(tree);
    heap && Distinct(tree)
  }

  lemma {:induction false} FocusOn(k: Ctx, t: Tree)
    requires t.Bin? && Distinct(Plug(k, t))
    ensures Inorder(Plug(k, t)) == (Before(k) + Inorder(t.l)) + [t.n] + (Inorder(t.r) + After(k))
    ensures NoDup(Inorder(Plug(k, t))) && t.n in Inorder(Plug(k, t))
  {
    PlugInorder(k, t);
    DistinctNoDup(Plug(k, t));
    assert Before(k) + (Inorder(t.l) + [t.n] + Inorder(t.r)) + After(k)
      == (Before(k) + Inorder(t.l)) + [t.n] + (Inorder(t.r) + After(k));
    var w := (Before(k) + Inorder(t.l)) + [t.n] + (Inorder(t.r) + After(k));
    assert w[|Before(k) + Inorder(t.l)|] == t.n;
  }

  /** Walk down side `s` as far as possible. */
  method Descend(s: Side, start: Node, ghost k: Ctx, ghost t: Tree, ghost S: set<Node>)
      returns (n: Node, ghost k': Ctx, ghost t': Tree)
    requires Zipper(Snap(S), k, t, null) && t.Bin? && start == t.n
    ensures Zipper(Snap(S), k', t', null) && t'.Bin? && n == t'.n && Plug(k', t') == Plug(k, t) && Sub(t', s) == Leaf
    ensures s == Left ==> Before(k') == Before(k)
    ensures s == Right ==> After(k') == After(k)
  {
    n, k', t' := start, k, t;
    while n.Child(s) != null
      invariant Zipper(Snap(S), k', t', null) && t'.Bin? && n == t'.n && Plug(k', t') == Plug(k, t)
      invariant s == Left ==> Before(k') == Before(k)
      invariant s == Right ==> After(k') == After(k)
      decreases t'
    {
      k', t' := Step(s, t'.n, t'.c, t'.a, Sub(t', s.Opp()), k'), Sub(t', s);
      n := n.Child(s);
    }
  }

  /** `rb_first` */
  method First(root: Root, ghost tree: Tree, ghost S: set<Node>) returns (n: Node?)
    requires Held(Snap(S), root.node, tree)
    ensures n == if Inorder(tree) == [] then null else Inorder(tree)[0]
  {
    n := root.node;
    if n == null {
      return;
    }
    ghost var k, t;
    n, k, t := Descend(Left, n, Hole, tree, S);
    FocusOn(k, t);
  }

  /** `rb_last` */
  method Last(root: Root, ghost tree: Tree, ghost S: set<Node>) returns (n: Node?)
    requires Held(Snap(S), root.node, tree)
    ensures n == if Inorder(tree) == [] then null else Inorder(tree)[|Inorder(tree)| - 1]
  {
    n := root.node;
    if n == null {
      return;
    }
    ghost var k, t;
    n, k, t := Descend(Right, n, Hole, tree, S);
    FocusOn(k, t);
  }

  /** Climb while the node hangs on side `s`; what lies beyond it on that side stays the same. */
  method Climb(s: Side, start: Node, ghost k: Ctx, ghost t: Tree, ghost S: set<Node>) returns (parent: Node?)
    requires ZDistinct(k, t) && Zipper(Snap(S), k, t, null) && t.Bin? && start == t.n
    ensures s == Right ==> parent == if After(k) == [] then null else After(k)[0]
    ensures s == Left ==> parent == if Before(k) == [] then null else Before(k)[|Before(k)| - 1]
  {
    ghost var k', t' := k, t;
    var node := start;
    parent := node.parent;
    while parent != null && node == parent.Child(s)
      invariant ZDistinct(k', t') && Zipper(Snap(S), k', t', null) && t'.Bin? && node == t'.n
        && parent == Above(k', null)
      invariant s == Right ==> After(k') == After(k)
      invariant s == Left ==> Before(k') == Before(k)
      decreases k'
    {
      PlugNodes(k', t');
      assert k'.s == s;
      t', k' := Mk(k'.s, t', k'.n, k'.c, k'.a, k'.sib), k'.up;
      PlugNodes(k', t');
      node := parent;
      parent := node.parent;
    }
  }

  lemma {:induction false} HeldAt(m: Mem, root: Node?, tree: Tree, n: Node) returns (k: Ctx, t: Tree)
    requires Held(m, root, tree) && n in Nodes(tree)
    ensures Zipper(m, k, t, null) && ZDistinct(k, t) && t.Bin? && t.n == n && Plug(k, t) == tree
    ensures n in Inorder(tree) && n in m && m[n].parent != n && m[n].left == Top(t.l) && m[n].right == Top(t.r)
  {
    k, t := Locate(Hole, tree, n);
    PlugNodes(k, t);
    PlugRep(m, k, t, null);
    InorderNodes(tree);
  }

  /** `RB_EMPTY_NODE`: the packed word points at the node itself and so reads as red. */
  predicate EmptyNode(n: Node)
    reads n
  {
    n.parent == n && n.color == Red
  }

  /** `rb_next` */
  method Next(node: Node, ghost root: Node?, ghost tree: Tree, ghost S: set<Node>) returns (n: Node?)
    requires EmptyNode(node) || (Held(Snap(S), root, tree) && node in Nodes(tree))
    ensures EmptyNode(node) ==> n == null
    ensures !EmptyNode(node) ==> node in Inorder(tree) && n == NextIn(Inorder(tree), node)
  {
    if EmptyNode(node) {
      return null;
    }
    ghost var k, t := HeldAt(Snap(S), root, tree, node);
    FocusOn(k, t);
    NextAt(Before(k) + Inorder(t.l), node, Inorder(t.r) + After(k));
    if node.right != null {
      ghost var k', t';
      n, k', t' := Descend(Left, node.right, Step(Right, t.n, t.c, t.a, t.l, k), t.r, S);
      NextBelow(k, t, k', t');
      return;
    }
    n := Climb(Right, node, k, t, S);
    assert Inorder(t.r) + After(k) == After(k);
  }

  lemma {:induction false} NextBelow(k: Ctx, t: Tree, k': Ctx, t': Tree)
    requires t.Bin? && t.r.Bin? && t'.Bin? && t'.l.Leaf? && Plug(k', t') == Plug(k, t) && Distinct(Plug(k, t))
    requires Before(k') == Before(Step(Right, t.n, t.c, t.a, t.l, k))
    ensures t'.n == (Inorder(t.r) + After(k))[0]
  {
    var a, b := Before(k) + Inorder(t.l), Inorder(t.r) + After(k);
    FocusOn(k, t);
    FocusOn(k', t');
    assert Before(k') + Inorder(t'.l) == a + [t.n];
    var w := Inorder(Plug(k, t));
    assert w == a + [t.n] + b && w == (a + [t.n]) + [t'.n] + (Inorder(t'.r) + After(k'));
    assert w[|a| + 1] == t'.n;
    assert w[|a| + 1] == b[0];
  }

  /** `rb_prev` */
  method Prev(node: Node, ghost root: Node?, ghost tree: Tree, ghost S: set<Node>) returns (n: Node?)
    requires EmptyNode(node) || (Held(Snap(S), root, tree) && node in Nodes(tree))
    ensures EmptyNode(node) ==> n == null
    ensures !EmptyNode(node) ==> node in Inorder(tree) && n == PrevIn(Inorder(tree), node)
  {
    if EmptyNode(node) {
      return null;
    }
    ghost var k, t := HeldAt(Snap(S), root, tree, node);
    FocusOn(k, t);
    NextAt(Before(k) + Inorder(t.l), node, Inorder(t.r) + After(k));
    if node.left != null {
      ghost var k', t';
      n, k', t' := Descend(Right, node.left, Step(Left, t.n, t.c, t.a, t.r, k), t.l, S);
      PrevBelow(k, t, k', t');
      return;
    }
    n := Climb(Left, node, k, t, S);
    assert Before(k) + Inorder(t.l) == Before(k);
  }

  lemma {:induction false} PrevBelow(k: Ctx, t: Tree, k': Ctx, t': Tree)
    requires t.Bin? && t.l.Bin? && t'.Bin? && t'.r.Leaf? && Plug(k', t') == Plug(k, t) && Distinct(Plug(k, t))
    requires After(k') == After(Step(Left, t.n, t.c, t.a, t.r, k))
    ensures var a := Before(k) + Inorder(t.l); a != [] && t'.n == a[|a| - 1]
  {
    var a, b := Before(k) + Inorder(t.l), Inorder(t.r) + After(k);
    var a' := Before(k') + Inorder(t'.l);
    FocusOn(k, t);
    FocusOn(k', t');
    assert After(k') == [t.n] + b;
    var w := Inorder(Plug(k, t));
    assert w == a + [t.n] + b && w == a' + [t'.n] + ([t.n] + b) by { assert Inorder(t'.r) + After(k') == [t.n] + b; }
    assert |a| == |a'| + 1;
    assert w[|a| - 1] == t'.n;
    assert w[|a| - 1] == a[|a| - 1];
  }

  /** `for (n = rb_first(root); n; n = rb_next(n))` visits exactly the in-order sequence. */
  method Forward(root: Root, ghost tree: Tree, ghost S: set<Node>) returns (visited: seq<Node>)
    requires Held(Snap(S), root.node, tree)
    ensures visited == Inorder(tree)
  {
    ghost var s := Inorder(tree);
    DistinctNoDup(tree);
    InorderNodes(tree);
    var n := First(root, tree, S);
    visited := [];
    while n != null
      invariant |visited| <= |s| && visited == s[..|visited|]
      invariant n == if |visited| < |s| then s[|visited|] else null
      decreases |s| - |visited|
    {
      IndexUnique(s, |visited|);
      assert n in Elems(s);
      ghost var k, t := HeldAt(Snap(S), root.node, tree, n);
      visited := visited + [n];
      n := Next(n, root.node, tree, S);
    }
  }

  /** `for (n = rb_last(root); n; n = rb_prev(n))` visits its reverse. */
  method Backward(root: Root, ghost tree: Tree, ghost S: set<Node>) returns (visited: seq<Node>)
    requires Held(Snap(S), root.node, tree)
    ensures |visited| == |Inorder(tree)| && forall i ::
      0 <= i < |visited| ==> visited[i] == Inorder(tree)[|visited| - 1 - i]
  {
    ghost var s := Inorder(tree);
    DistinctNoDup(tree);
    InorderNodes(tree);
    var n := Last(root, tree, S);
    visited := [];
    while n != null
      invariant |visited| <= |s| && forall i :: 0 <= i < |visited| ==> visited[i] == s[|s| - 1 - i]
      invariant n == if |visited| < |s| then s[|s| - 1 - |visited|] else null
      decreases |s| - |visited|
    {
      IndexUnique(s, |s| - 1 - |visited|);
      assert n in Elems(s);
      ghost var k, t := HeldAt(Snap(S), root.node, tree, n);
      visited := visited + [n];
      n := Prev(n, root.node, tree, S);
    }
  }
}
