/**
 `__rb_erase_augmented` and `rb_erase`: unlinking a node with at most one child, or
 replacing it by its in-order successor, followed by `____rb_erase_color` when a black
 node went missing.
 */
module RbErase {
  import opened Sequences
  import opened RbShape
  import opened RbBalance
  import opened RbPrimitives
  import opened RbPropagate
  import opened RbEraseColor

  // ------------------------------------------------------ removal, on sequences

  /** A tree whose in-order sequence is another's minus one node has no duplicates either. */
  lemma {:induction false} RemovedOrder(t: Tree, t': Tree, a: seq<Node>, x: Node, b: seq<Node>)
    requires Distinct(t) && Inorder(t) == a + [x] + b && Inorder(t') == a + b
    ensures Distinct(t') && Inorder(t') == Without(Inorder(t), x)
  {
    DistinctNoDup(t);
    WithoutNoDup(a, x, b);
    DistinctNoDup(t');
  }

  // --------------------------------------------------- at most one child

  /** `node` with at most the child `child` has been cut out from under `up`. */
  ghost predicate Spliced(m: Mem, m': Mem, node: Node, child: Node?, up: Node?) {
    && node in m && m.Keys == m'.Keys && Opt(child) + Opt(up) <= m.Keys && up == m[node].parent
    && var moved := child != null ==> m'[child] == m[child].(parent := m[node].parent, color := m[node].color);
       var rehung := up != null ==>
         m'[up] == if m[up].left == node then m[up].(left := child) else m[up].(right := child);
       var all := moved && rehung && Agree(m, m', child, up, null, null);
       all
  }

  method Splice(node: Node, child: Node?, root: Root, ghost S: set<Node>)
    requires {node} + Opt(child) + Opt(node.parent) <= S && child != node && node.parent != node
      && (child != null ==> node.parent != child)
    modifies root`node, S`parent, S`color, S`left, S`right
    ensures Spliced(old(Snap(S)), Snap(S), node, child, old(node.parent))
    ensures root.node == if old(node.parent) == null then child else old(root.node)
  {
    SpliceLinks(node, child, root);
  }

  method SpliceLinks(node: Node, child: Node?, root: Root)
    requires child != node && node.parent != node && (child != null ==> node.parent != child)
    modifies root`node, Opt(child)`parent, Opt(child)`color, Opt(node.parent)`left, Opt(node.parent)`right
    ensures child != null ==> child.Content() == old(child.Content()).(parent := node.parent, color := node.color)
    ensures var up := node.parent;
      if up == null then root.node == child
      else root.node == old(root.node)
           && up.Content() == if old(up.left) == node then old(up.Content()).(left := child)
                              else old(up.Content()).(right := child)
  {
    var parent := node.parent;
    ChangeChild(node, child, parent, root);
    SetParentColor(child, parent, node.color);
  }

  /** The tree below `k` is a node `n` with at most one subtree `ch`. */
  ghost predicate OneChild(t: Tree, ch: Tree) {
    t.Bin? && ((t.l.Leaf? && t.r == ch) || (t.r.Leaf? && t.l == ch))
  }

  lemma {:induction false} SpliceRep(m: Mem, m': Mem, k: Ctx, t: Tree, ch: Tree)
    requires OneChild(t, ch) && ZDistinct(k, t) && Zipper(m, k, t, null) && Spliced(m, m', t.n, Top(ch), Above(k, null))
    ensures Zipper(m', k, SetColor(ch, t.c), null)
  {
    assert Rep(m, ch, t.n) && Distinct(ch);
    AdoptRep(m, m', ch, t.n, Above(k, null), t.c, Top(ch), Above(k, null), null, null);
    assert Rehung(m', k, Top(ch), null);
    RehangRep(m, m', k, t.n, Top(ch), null, Top(ch), Above(k, null), null, null);
  }

  lemma {:induction false} SpliceFlat(m: Mem, k: Ctx, t: Tree, ch: Tree)
    requires OneChild(t, ch) && ZDistinct(k, t) && Zipper(m, k, t, null)
    ensures {t.n} + Opt(Top(ch)) + Opt(m[t.n].parent) <= m.Keys && m[t.n].parent == Above(k, null)
    ensures Top(ch) != t.n && m[t.n].parent != t.n && (ch.Bin? ==> m[t.n].parent != ch.n)
    ensures m[t.n].color == t.c && m[t.n].left == Top(t.l) && m[t.n].right == Top(t.r)
  {
    assert Rep(m, ch, t.n);
  }

  /** Why a single child must be red and its parent black, and what is left after splicing. */
  lemma {:induction false} SpliceRB(k: Ctx, t: Tree, ch: Tree, h: nat)
    requires OneChild(t, ch) && RB(t, h) && RBC(k, h)
    requires IsBlack(t) || BlackTop(k)
    ensures ch.Bin? ==> t.c == Black && RBTree(Plug(k, SetColor(ch, t.c)))
    ensures ch.Leaf? && (t.c == Red || k.Hole?) ==> RBTree(Plug(k, Leaf))
    ensures ch.Leaf? && t.c == Black && k.Step? ==> IsBlack(Leaf) && RB(Leaf, 0) && RBC(k, 1)
  {
    if ch.Bin? {
      assert RB(ch, 0);
      assert RB(SetColor(ch, Black), 1);
      PlugRB(k, SetColor(ch, Black), h);
    } else if k.Hole? {
      assert RB(Leaf, 0);
    } else if t.c == Red {
      PlugRB(k, Leaf, 0);
    }
  }

  /** The state handed to `____rb_erase_color`, or the final tree when `rebalance` is null:
      memory holds `Plug(k, t)`, which is `tree` minus `node`. */
  ghost predicate Unlinked(m: Mem, root: Node?, tree: Tree, node: Node, rebalance: Node?, k: Ctx, t: Tree,
      cb: Callbacks) {
    var heap := Zipper(m, k, t, null) && root == Apex(k, Top(t));
    var order := Distinct(Plug(k, t)) && Inorder(Plug(k, t)) == Without(Inorder(tree), node);
    var maxima := cb == Max && AugOK(tree) ==> AugOK(Plug(k, t));
    var balance := if rebalance == null then RBTree(Plug(k, t))
      else t == Leaf && k.Step? && rebalance == k.n && RBC(k, 1);
    var all := heap && order && maxima && balance;
    all
  }

  /** Memory holds the valid tree `Plug(k, t)`, seen from the node `t.n`. */
  ghost predicate At(m: Mem, root: Node?, k: Ctx, t: Tree, h: nat) {
    var heap := Zipper(m, k, t, null) && t.Bin? && root == Apex(k, t.n);
    var balance := RB(t, h) && RBC(k, h) && (IsBlack(t) || BlackTop(k));
    heap && balance && ZDistinct(k, t)
  }

  lemma {:induction false} AugStaleOf(k: Ctx, t: Tree)
    requires t.Bin? && AugC(k, t)
    ensures AugStale(k)
  {
    if k.Step? {
      AugCong(k.up, Mk(k.s, t, k.n, k.c, k.a, k.sib), Mk(k.s, Leaf, k.n, k.c, k.a, k.sib));
    }
  }

  lemma {:induction false} SpliceStale(m: Mem, k: Ctx, t: Tree, ch: Tree, cb: Callbacks)
    requires OneChild(t, ch) && ZDistinct(k, t) && Zipper(m, k, SetColor(ch, t.c), null)
    ensures StaleCtx(m, k, SetColor(ch, t.c), null)
    ensures cb == Max && AugOK(Plug(k, t)) ==> AugStale(k)
  {
    PlugAug(k, t);
    if cb == Max && AugOK(Plug(k, t)) {
      AugStaleOf(k, t);
    }
  }

  lemma {:induction false} OnPathOff(m: Mem, m': Mem, k: Ctx, t: Tree, p: Node?)
    requires OnPath(m, m', k) && Rep(m, t, p) && Nodes(t) !! CNodes(k)
    ensures Rep(m', t, p)
  {
    PathNodes(k);
    if t.Bin? {
      OnPathOff(m, m', k, t.l, t.n);
      OnPathOff(m, m', k, t.r, t.n);
    }
  }

  lemma {:induction false} SpliceDone(m: Mem, root: Node?, k: Ctx, k': Ctx, t: Tree, ch: Tree, h: nat, cb: Callbacks,
      rebalance: Node?)
    requires OneChild(t, ch) && ZDistinct(k, t) && RB(t, h) && RBC(k, h) && (IsBlack(t) || BlackTop(k))
      && SameShape(k, k')
    requires Zipper(m, k', SetColor(ch, t.c), null) && root == Apex(k, Top(ch))
    requires cb == Max && AugOK(Plug(k, t)) ==> AugC(k', SetColor(ch, t.c))
    requires rebalance == if ch.Leaf? && t.c == Black then Above(k, null) else null
    ensures Unlinked(m, root, Plug(k, t), t.n, rebalance, k', SetColor(ch, t.c), cb)
  {
    var ch' := SetColor(ch, t.c);
    ShapeFacts(k, k', t, Top(ch), null, 1);
    ShapeFacts(k, k', t, Top(ch), null, h);
    SpliceRB(k', t, ch, h);
    PlugInorder(k, t);
    PlugInorder(k', ch');
    SpliceOrder(k, t, ch);
    PlugNodes(k, t);
    RemovedOrder(Plug(k, t), Plug(k', ch'), Before(k) + Inorder(t.l), t.n, Inorder(t.r) + After(k));
    PlugAug(k, t);
    PlugAug(k', ch');
  }

  lemma {:induction false} SpliceOrder(k: Ctx, t: Tree, ch: Tree)
    requires OneChild(t, ch)
    ensures Before(k) + Inorder(t) + After(k) == (Before(k) + Inorder(t.l)) + [t.n] + (Inorder(t.r) + After(k))
    ensures Before(k) + Inorder(SetColor(ch, t.c)) + After(k) == (Before(k) + Inorder(t.l)) + (Inorder(t.r) + After(k))
  {
    assert Inorder(SetColor(ch, t.c)) == Inorder(ch) == Inorder(t.l) + Inorder(t.r);
    SpliceSeqs(Before(k), Inorder(t.l), t.n, Inorder(t.r), After(k));
  }

  lemma {:induction false} SpliceSeqs(B: seq<Node>, L: seq<Node>, n: Node, R: seq<Node>, A: seq<Node>)
    ensures B + (L + [n] + R) + A == (B + L) + [n] + (R + A)
    ensures B + (L + R) + A == (B + L) + (R + A)
  {
  }

  /** Case 1: `node` has no child but `child`. */
  method EraseOne(node: Node, child: Node?, root: Root, cb: Callbacks, ghost k: Ctx, ghost t: Tree, ghost ch: Tree,
      ghost h: nat, ghost S: set<Node>)
    returns (rebalance: Node?, ghost k': Ctx)
    requires At(Snap(S), root.node, k, t, h) && node == t.n && OneChild(t, ch) && child == Top(ch)
    modifies root`node, S
    ensures Unlinked(Snap(S), root.node, Plug(k, t), node, rebalance, k', SetColor(ch, t.c), cb)
  {
    ghost var m, ch' := Snap(S), SetColor(ch, t.c);
    SpliceFlat(m, k, t, ch);
    var parent := node.parent;
    rebalance := if child == null && node.color == Black then parent else null;
    SpliceNode(node, child, root, k, t, ch, S);
    SpliceStale(Snap(S), k, t, ch, cb);
    k' := PropagateOver(parent, cb, k, ch', cb == Max && AugOK(Plug(k, t)), S);
    SpliceDone(Snap(S), root.node, k, k', t, ch, h, cb, rebalance);
  }

  method SpliceNode(node: Node, child: Node?, root: Root, ghost k: Ctx, ghost t: Tree, ghost ch: Tree,
      ghost S: set<Node>)
    requires ZDistinct(k, t) && Zipper(Snap(S), k, t, null) && OneChild(t, ch) && node == t.n && child == Top(ch)
      && root.node == Apex(k, node)
    modifies root`node, S`parent, S`color, S`left, S`right
    ensures Zipper(Snap(S), k, SetColor(ch, t.c), null) && root.node == Apex(k, Top(ch))
  {
    ghost var m := Snap(S);
    SpliceFlat(m, k, t, ch);
    Splice(node, child, root, S);
    SpliceRep(m, Snap(S), k, t, ch);
  }

  /** `propagate` up to the root, past an unchanged subtree `u` in the hole. */
  method PropagateOver(rb: Node?, cb: Callbacks, ghost k: Ctx, ghost u: Tree, ghost ok: bool, ghost S: set<Node>)
    returns (ghost k': Ctx)
    requires StaleCtx(Snap(S), k, u, null) && Rep(Snap(S), u, Above(k, null)) && Nodes(u) !! CNodes(k)
      && rb == Above(k, null)
    requires ok ==> AugStale(k)
    modifies S`aug
    ensures SameShape(k, k') && Zipper(Snap(S), k', u, null)
    ensures cb == Max && ok ==> AugC(k', u)
  {
    ghost var m := Snap(S);
    k' := Propagate(rb, null, cb, k, u, ok, S);
    OnPathOff(m, Snap(S), k, u, Above(k, null));
    ShapeFacts(k, k', u, Top(u), null, 0);
  }

  // --------------------------------------------- two children: the successor

  ghost predicate AllLeft(k: Ctx) {
    k.Step? ==> k.s == Left && AllLeft(k.up)
  }

  /** `st` is the leftmost node of `r`, reached from `node` through `kk`. */
  ghost predicate Leftmost(r: Tree, kk: Ctx, st: Tree) {
    st.Bin? && st.l.Leaf? && AllLeft(kk) && Plug(kk, st) == r
  }

  /** The descent to the in-order successor.  `parent` ends up one level above it, and at
      the successor itself when that is the right child. */
  method FindSuccessor(child: Node, ghost node: Node, ghost r: Tree, ghost S: set<Node>)
    returns (parent: Node, successor: Node, ghost kk: Ctx, ghost st: Tree)
    requires Rep(Snap(S), r, node) && r.Bin? && child == r.n
    ensures Leftmost(r, kk, st) && Zipper(Snap(S), kk, st, node) && successor == st.n
    ensures parent == if kk.Hole? then successor else kk.n
  {
    successor, parent := child, child;
    kk, st := Hole, r;
    var tmp := successor.left;
    while tmp != null
      invariant st.Bin? && AllLeft(kk) && Plug(kk, st) == r && Zipper(Snap(S), kk, st, node)
      invariant successor == st.n && tmp == Top(st.l) && parent == if kk.Hole? then successor else kk.n
      decreases st
    {
      kk, st := Step(Left, st.n, st.c, st.a, st.r, kk), st.l;
      parent := successor;
      successor := tmp;
      tmp := tmp.left;
    }
  }

  /** The nodes that change hands are apart from the pieces around them. */
  ghost predicate TwoPieces(node: Node, sx: Node, kk: Ctx, k: Ctx, l: Tree, sr: Tree) {
    var contexts := CDistinct(kk) && CDistinct(k) && CNodes(kk) !! CNodes(k);
    var trees := Distinct(l) && Distinct(sr) && Nodes(l) !! Nodes(sr) && Nodes(l) !! CNodes(k)
      && Nodes(sr) !! CNodes(k);
    var across := Nodes(l) !! CNodes(kk) && Nodes(sr) !! CNodes(kk);
    var nodes := node != sx && NotIn(node, l, sr, Leaf, k) && NotIn(sx, l, sr, Leaf, k) && OffC(node, kk)
      && OffC(sx, kk);
    var all := contexts && trees && across && nodes;
    all
  }

  lemma {:induction false} TwoPiecesOf(k: Ctx, t: Tree, kk: Ctx, st: Tree)
    requires t.Bin? && ZDistinct(k, t) && Leftmost(t.r, kk, st)
    ensures TwoPieces(t.n, st.n, kk, k, t.l, st.r)
  {
    PlugNodes(kk, st);
    assert ZDistinct(kk, st);
  }

  /** Everything about the erased node and its successor that later steps need. */
  ghost predicate Detached(m: Mem, node: Node, sx: Node, kk: Ctx, k: Ctx, l: Tree, c: Color, sr: Tree, cs: Color) {
    var pieces := RepC(m, k, node, null) && Rep(m, l, node) && Rep(m, sr, sx) && RepC(m, kk, Top(sr), sx);
    var atNode := node in m && m[node].parent == Above(k, null) && m[node].color == c && m[node].left == Top(l);
    var atSucc := sx in m && m[sx].right == Apex(kk, Top(sr)) && m[sx].color == cs;
    var all := pieces && atNode && atSucc;
    all
  }

  // case 2: the successor is the right child

  lemma {:induction false} DetachedNear(m: Mem, k: Ctx, t: Tree, st: Tree)
    requires t.Bin? && t.l.Bin? && ZDistinct(k, t) && Zipper(m, k, t, null) && Leftmost(t.r, Hole, st)
    ensures Detached(m, t.n, st.n, Hole, k, t.l, t.c, st.r, st.c) && m[t.n].aug == t.a
  {
    assert Rep(m, t.r, t.n) && Rep(m, t.l, t.n);
  }

  // case 3: the successor is deeper

  /** The successor's right subtree `c2` is now under `p`, and it owns the subtree at `top`. */
  ghost predicate CutOut(m: Mem, m': Mem, p: Node, top: Node, sx: Node, c2: Node?) {
    && {p, top, sx} <= m.Keys && m.Keys == m'.Keys
    && var owner := m'[sx] == m[sx].(right := top);
       var hole := m'[p] == m[p].(left := c2, parent := if p == top then sx else m[p].parent);
       var child := p != top ==> m'[top] == m[top].(parent := sx);
       owner && hole && child && Agree(m, m', p, top, sx, null)
  }

  method CutOutSuccessor(parent: Node, child: Node, successor: Node, ghost S: set<Node>) returns (child2: Node?)
    requires {parent, child, successor} <= S && successor != parent && successor != child
    modifies S`parent, S`left, S`right
    ensures child2 == old(successor.right) && CutOut(old(Snap(S)), Snap(S), parent, child, successor, child2)
  {
    child2 := successor.right;
    parent.left := child2;
    successor.right := child;
    child.parent := successor;
  }

  lemma {:induction false} RebaseRep(m: Mem, m': Mem, k: Ctx, x: Node?, top: Node, b: Node?, b': Node?, e: Node?)
    requires k.Step? && RepC(m, k, x, b) && top == Apex(k, x) && CDistinct(k) && OffC(e, k)
    requires top in m && top in m' && m'[top] == m[top].(parent := b') && Agree(m, m', top, e, null, null)
    ensures RepC(m', k, x, b')
  {
    ApexIn(k, x);
    if k.up.Hole? {
      FrameRep(m, m', k.sib, k.n, top, e, null, null);
    } else {
      ApexIn(k.up, k.n);
      FrameRep(m, m', k.sib, k.n, top, e, null, null);
      RebaseRep(m, m', k.up, k.n, top, b, b', e);
    }
  }

  lemma {:induction false} ApexIn(k: Ctx, x: Node?)
    requires k.Step?
    ensures Apex(k, x) != null && Apex(k, x) in CNodes(k)
  {
    if k.up.Step? { ApexIn(k.up, k.n); }
  }

  lemma {:induction false} CutOutRep(m: Mem, m': Mem, kk: Ctx, sx: Node, sr: Tree, node: Node, top: Node)
    requires kk.Step? && kk.s == Left && CDistinct(kk) && OffC(sx, kk) && RepC(m, kk, sx, node) && top == Apex(kk, sx)
    requires CutOut(m, m', kk.n, top, sx, Top(sr))
    ensures RepC(m', kk, Top(sr), sx)
  {
    var p := kk.n;
    ApexIn(kk, sx);
    var m1 := m[p := m[p].(left := Top(sr))];
    RehangRep(m, m1, kk, sx, Top(sr), node, p, null, null, null);
    assert Apex(kk, Top(sr)) == top;
    RebaseRep(m1, m', kk, Top(sr), top, node, sx, sx);
  }

  lemma {:induction false} FarFlat(m: Mem, k: Ctx, t: Tree, kk: Ctx, st: Tree)
    requires t.Bin? && Zipper(m, k, t, null) && Leftmost(t.r, kk, st)
    ensures t.n in m && m[t.n] == Cell(Above(k, null), t.c, Top(t.l), Top(t.r), t.a) && RepC(m, k, t.n, null)
      && Rep(m, t.l, t.n)
    ensures t.r.Bin? && Zipper(m, kk, st, t.n) && Apex(kk, st.n) == t.r.n && t.r.n in m && (kk.Step? ==> kk.n in m)
    ensures st.n in m && m[st.n].right == Top(st.r) && m[st.n].left == null && m[st.n].color == st.c
      && m[st.n].aug == st.a && Rep(m, st.r, st.n)
  {
    PlugRep(m, kk, st, t.n);
    if kk.Step? { ApexIn(kk, st.n); }
    assert Rep(m, t.r, t.n);
    assert Rep(m, st, Above(kk, t.n));
  }

  lemma {:induction false} DetachedFar(m: Mem, m': Mem, k: Ctx, t: Tree, kk: Ctx, st: Tree)
    requires t.Bin? && st.Bin? && TwoPieces(t.n, st.n, kk, k, t.l, st.r) && Zipper(m, k, t, null)
      && Leftmost(t.r, kk, st) && kk.Step?
    requires t.r.Bin? && CutOut(m, m', kk.n, t.r.n, st.n, Top(st.r))
    ensures Detached(m', t.n, st.n, kk, k, t.l, t.c, st.r, st.c) && m'[t.n].aug == t.a && m'[st.n].aug == m[st.n].aug
  {
    FarFlat(m, k, t, kk, st);
    var sx, p, top := st.n, kk.n, t.r.n;
    ApexIn(kk, sx);
    CutOutRep(m, m', kk, sx, st.r, t.n, top);
    FrameRep(m, m', t.l, t.n, p, top, sx, null);
    FrameRep(m, m', st.r, sx, p, top, sx, null);
    FrameRepC(m, m', k, t.n, null, p, top, sx, null);
    assert Apex(kk, Top(st.r)) == top;
  }

  /** Storing an augmented value at the successor. */
  lemma {:induction false} DetachedCopy(m: Mem, m': Mem, node: Node, sx: Node, kk: Ctx, k: Ctx, l: Tree, c: Color,
      sr: Tree, cs: Color)
    requires TwoPieces(node, sx, kk, k, l, sr) && Detached(m, node, sx, kk, k, l, c, sr, cs)
    requires sx in m' && m'[sx] == m[sx].(aug := m'[sx].aug) && Agree(m, m', sx, null, null, null)
    ensures Detached(m', node, sx, kk, k, l, c, sr, cs) && m'[node] == m[node]
  {
    FrameRepC(m, m', k, node, null, sx, null, null, null);
    FrameRep(m, m', l, node, sx, null, null, null);
    FrameRep(m, m', sr, sx, sx, null, null, null);
    FrameRepC(m, m', kk, Top(sr), sx, sx, null, null, null);
  }

  lemma {:induction false} OnPathOffC(m: Mem, m': Mem, k: Ctx, j: Ctx, x: Node?, base: Node?)
    requires OnPath(m, m', k) && RepC(m, j, x, base) && CNodes(j) !! CNodes(k)
    ensures RepC(m', j, x, base)
  {
    PathNodes(k);
    if j.Step? {
      OnPathOff(m, m', k, j.sib, j.n);
      OnPathOffC(m, m', k, j.up, j.n, base);
    }
  }

  /** Propagating inside the successor's new right subtree. */
  lemma {:induction false} DetachedPath(m: Mem, m': Mem, node: Node, sx: Node, kk: Ctx, kk': Ctx, k: Ctx, l: Tree,
      c: Color, sr: Tree, cs: Color)
    requires TwoPieces(node, sx, kk, k, l, sr) && Detached(m, node, sx, kk, k, l, c, sr, cs)
    requires OnPath(m, m', kk) && SameShape(kk, kk') && RepC(m', kk', Top(sr), sx)
    ensures Detached(m', node, sx, kk', k, l, c, sr, cs) && m'[node] == m[node] && m'[sx] == m[sx]
  {
    PathNodes(kk);
    OnPathOffC(m, m', kk, k, node, null);
    OnPathOff(m, m', kk, l, node);
    OnPathOff(m, m', kk, sr, sx);
    ShapeFacts(kk, kk', sr, Top(sr), sx, 0);
  }

  lemma {:induction false} DetachedStale(m: Mem, node: Node, sx: Node, kk: Ctx, k: Ctx, l: Tree, c: Color, sr: Tree,
      cs: Color)
    requires TwoPieces(node, sx, kk, k, l, sr) && Detached(m, node, sx, kk, k, l, c, sr, cs)
    ensures StaleCtx(m, kk, sr, sx)
  {
  }

  /** Unless the successor is the right child, hand its subtree to its parent; then copy the
      stored value and bring the path between the two up to date. */
  method Detach(node: Node, child: Node, parent: Node, successor: Node, cb: Callbacks,
                ghost k: Ctx, ghost t: Tree, ghost kk: Ctx, ghost st: Tree, ghost ok: bool, ghost S: set<Node>)
    returns (child2: Node?, ghost kk': Ctx)
    requires t.Bin? && t.l.Bin? && ZDistinct(k, t) && Zipper(Snap(S), k, t, null) && Leftmost(t.r, kk, st)
    requires node == t.n && t.r.Bin? && child == t.r.n && successor == st.n
      && parent == if kk.Hole? then successor else kk.n
    requires ok ==> AugStale(kk)
    modifies S
    ensures child2 == Top(st.r) && SameShape(kk, kk')
      && Detached(Snap(S), node, successor, kk', k, t.l, t.c, st.r, st.c)
    ensures cb == Max ==> successor.aug == t.a
    ensures cb == Max && ok ==> AugC(kk', st.r)
  {
    TwoPiecesOf(k, t, kk, st);
    FarFlat(Snap(S), k, t, kk, st);
    ghost var m := Snap(S);
    if parent != successor {
      ApexIn(kk, successor);
      child2 := CutOutSuccessor(parent, child, successor, S);
      DetachedFar(m, Snap(S), k, t, kk, st);
    } else {
      child2 := successor.right;
      DetachedNear(m, k, t, st);
    }
    kk' := CopyAndPropagate(node, parent, successor, cb, kk, k, t.l, t.c, st.r, st.c, ok, S);
  }

  method CopyAndPropagate(node: Node, parent: Node, successor: Node, cb: Callbacks,
                          ghost kk: Ctx, ghost k: Ctx, ghost l: Tree, ghost c: Color, ghost sr: Tree, ghost cs: Color,
                          ghost ok: bool, ghost S: set<Node>)
    returns (ghost kk': Ctx)
    requires TwoPieces(node, successor, kk, k, l, sr) && Detached(Snap(S), node, successor, kk, k, l, c, sr, cs)
    requires parent == Above(kk, successor) && (ok ==> AugStale(kk))
    modifies S`aug
    ensures SameShape(kk, kk') && Detached(Snap(S), node, successor, kk', k, l, c, sr, cs)
    ensures cb == Max ==> successor.aug == old(node.aug)
    ensures cb == Max && ok ==> AugC(kk', sr)
  {
    ghost var m := Snap(S);
    Copy(cb, node, successor);
    ghost var m1 := Snap(S);
    DetachedCopy(m, m1, node, successor, kk, k, l, c, sr, cs);
    DetachedStale(m1, node, successor, kk, k, l, c, sr, cs);
    kk' := Propagate(parent, successor, cb, kk, sr, ok, S);
    DetachedPath(m1, Snap(S), node, successor, kk, kk', k, l, c, sr, cs);
  }

  /** The successor stands in the erased node's place. */
  ghost predicate Installed(m: Mem, m': Mem, node: Node, sx: Node, lt: Node, up: Node?, c2: Node?, par: Node) {
    && {node, sx, lt} + Opt(up) + Opt(c2) <= m.Keys && m.Keys == m'.Keys
    && var self := m'[sx] == Cell(m[node].parent, m[node].color, lt, m[sx].right, m[sx].aug);
       var left := m'[lt] == m[lt].(parent := sx);
       var above := up != null ==> m'[up] == if m[up].left == node then m[up].(left := sx) else m[up].(right := sx);
       var moved := c2 != null ==> m'[c2] == m[c2].(parent := par, color := Black);
       self && left && above && moved && Agree(m, m', sx, lt, up, c2)
  }

  method Install(node: Node, successor: Node, tmp: Node, parent: Node, child2: Node?, root: Root, ghost S: set<Node>)
    requires {node, successor, tmp} + Opt(node.parent) + Opt(child2) <= S
    requires tmp == node.left && successor !in {node, tmp} && node != tmp && node.parent !in {node, successor, tmp}
    requires child2 != null ==> child2 !in {node, successor, tmp} && child2 != node.parent
    modifies root`node, S`parent, S`color, S`left, S`right
    ensures Installed(old(Snap(S)), Snap(S), node, successor, tmp, old(node.parent), child2, parent)
    ensures root.node == if old(node.parent) == null then successor else old(root.node)
  {
    InstallLinks(node, successor, tmp, root);
    SetParentColor(child2, parent, Black);
  }

  method InstallLinks(node: Node, successor: Node, tmp: Node, root: Root)
    requires tmp == node.left && successor !in {node, tmp} && node != tmp && node.parent !in {node, successor, tmp}
    modifies root`node, successor`left, successor`parent, successor`color, tmp`parent, Opt(node.parent)`left,
      Opt(node.parent)`right
    ensures successor.Content()
      == Cell(old(node.parent), old(node.color), tmp, old(successor.right), old(successor.aug))
    ensures tmp.Content() == old(tmp.Content()).(parent := successor)
    ensures var up := old(node.parent);
      up != null ==>
      up.Content() == if old(up.left) == node then old(up.Content()).(left := successor)
                      else old(up.Content()).(right := successor)
    ensures root.node == if old(node.parent) == null then successor else old(root.node)
  {
    successor.left := tmp;
    tmp.parent := successor;
    var up := node.parent;
    ChangeChild(node, successor, up, root);
    successor.parent, successor.color := node.parent, node.color;
  }

  lemma {:induction false} InstallFlat(m: Mem, node: Node, sx: Node, kk: Ctx, k: Ctx, l: Tree, c: Color, sr: Tree,
      cs: Color)
    requires TwoPieces(node, sx, kk, k, l, sr) && Detached(m, node, sx, kk, k, l, c, sr, cs) && l.Bin?
    ensures {node, sx, l.n} + Opt(m[node].parent) + Opt(Top(sr)) <= m.Keys && m[node].left == l.n
      && m[node].parent == Above(k, null)
    ensures sx !in {node, l.n} && node != l.n && m[node].parent !in {node, sx, l.n}
    ensures sr.Bin? ==> sr.n !in {node, sx, l.n} && sr.n != m[node].parent
  {
  }

  lemma {:induction false} InstalledRep(m: Mem, m': Mem, node: Node, sx: Node, kk: Ctx, k: Ctx, l: Tree, c: Color,
      sr: Tree, cs: Color)
    requires TwoPieces(node, sx, kk, k, l, sr) && Detached(m, node, sx, kk, k, l, c, sr, cs) && l.Bin?
    requires Installed(m, m', node, sx, l.n, Above(k, null), Top(sr), if kk.Hole? then sx else kk.n)
    ensures RepC(m', k, sx, null) && Rep(m', l, sx) && RepC(m', kk, Top(sr), sx)
      && Rep(m', SetColor(sr, Black), Above(kk, sx))
    ensures m'[sx] == Cell(Above(k, null), c, l.n, Apex(kk, Top(sr)), m[sx].aug)
  {
    var U := Above(k, null);
    InstalledAbove(m, m', node, sx, k, l, sr);
    FrameRepC(m, m', kk, Top(sr), sx, sx, l.n, U, Top(sr));
    AdoptRep(m, m', sr, sx, Above(kk, sx), Black, sx, l.n, U, Top(sr));
  }

  lemma {:induction false} InstalledAbove(m: Mem, m': Mem, node: Node, sx: Node, k: Ctx, l: Tree, sr: Tree)
    requires TwoPieces(node, sx, Hole, k, l, sr) && RepC(m, k, node, null) && Rep(m, l, node) && l.Bin? && sx in m
      && node in m
    requires exists par :: Installed(m, m', node, sx, l.n, Above(k, null), Top(sr), par)
    ensures RepC(m', k, sx, null) && Rep(m', l, sx)
  {
    var U := Above(k, null);
    AdoptRep(m, m', l, node, sx, l.c, sx, l.n, U, Top(sr));
    assert Rehung(m', k, sx, null);
    RehangRep(m, m', k, node, sx, null, sx, l.n, U, Top(sr));
  }

  /** The new tree in the erased node's place, seen from the successor's right subtree. */
  lemma {:induction false} InstalledZip(m: Mem, sx: Node, kk: Ctx, k: Ctx, l: Tree, c: Color, sr: Tree)
    requires RepC(m, k, sx, null) && Rep(m, l, sx) && RepC(m, kk, Top(sr), sx) && Rep(m, sr, Above(kk, sx))
    requires sx in m && m[sx] == Cell(Above(k, null), c, Top(l), Apex(kk, Top(sr)), m[sx].aug)
    ensures Zipper(m, Step(Right, sx, c, m[sx].aug, l, k), Plug(kk, sr), null)
  {
    PlugRep(m, kk, sr, sx);
  }

  // the result, on trees

  lemma {:induction false} AllLeftBefore(k: Ctx)
    requires AllLeft(k)
    ensures Before(k) == []
  {
    if k.Step? { AllLeftBefore(k.up); }
  }

  /** The leftmost node of a subtree comes first in it, */
  lemma {:induction false} SuccessorFirst(r: Tree, kk: Ctx, st: Tree)
    requires Leftmost(r, kk, st)
    ensures Inorder(r) == [st.n] + Inorder(st.r) + After(kk)
  {
    AllLeftBefore(kk);
    PlugInorder(kk, st);
    assert Inorder(st) == [st.n] + Inorder(st.r);
  }

  /** and the rest stays in order without it. */
  lemma {:induction false} SuccessorGone(kk: Ctx, kk': Ctx, sr: Tree, sr': Tree)
    requires AllLeft(kk) && SameShape(kk, kk') && sr' == SetColor(sr, Black)
    ensures Inorder(Plug(kk', sr')) == Inorder(sr) + After(kk)
  {
    AllLeftBefore(kk);
    ShapeFacts(kk, kk', Leaf, null, null, 0);
    PlugInorder(kk', sr');
    assert Inorder(sr') == Inorder(sr);
  }

  lemma {:induction false} TwoOrder(k: Ctx, t: Tree, kk: Ctx, st: Tree, kk': Ctx, kS: Ctx, sr': Tree)
    requires t.Bin? && ZDistinct(k, t) && Leftmost(t.r, kk, st) && SameShape(kk, kk') && sr' == SetColor(st.r, Black)
    requires kS.Step? && SameShape(Step(Right, st.n, t.c, kS.a, t.l, k), kS)
    ensures var tree, tree' := Plug(k, t), Plug(kS, Plug(kk', sr'));
            Distinct(tree') && Inorder(tree') == Without(Inorder(tree), t.n)
  {
    var tree, tree' := Plug(k, t), Plug(kS, Plug(kk', sr'));
    var B, L, A, SR, R := Before(k), Inorder(t.l), After(k), Inorder(st.r), After(kk);
    SuccessorFirst(t.r, kk, st);
    SuccessorGone(kk, kk', st.r, sr');
    ShapeFacts(k, kS.up, Leaf, null, null, 0);
    PlugInorder(k, t);
    PlugInorder(kS, Plug(kk', sr'));
    PlugNodes(k, t);
    TwoSeqs(B, L, t.n, st.n, SR, R, A);
    RemovedOrder(tree, tree', B + L, t.n, [st.n] + SR + R + A);
  }

  lemma {:induction false} TwoSeqs(B: seq<Node>, L: seq<Node>, n: Node, x: Node, SR: seq<Node>, R: seq<Node>,
      A: seq<Node>)
    ensures B + (L + [n] + ([x] + SR + R)) + A == (B + L) + [n] + ([x] + SR + R + A)
    ensures (B + L + [x]) + (SR + R) + A == (B + L) + ([x] + SR + R + A)
  {
  }

  /** Balance sees neither which nodes the frames hold nor their stored values. */
  lemma {:induction false} OntoRBC(d: Ctx, d': Ctx, k: Ctx, k': Ctx, h: nat)
    requires SameShape(d, d') && k.Step? && k'.Step? && k.c == k'.c && k.sib == k'.sib && SameShape(k.up, k'.up)
    ensures RBC(Onto(d, k), h) == RBC(Onto(d', k'), h) && BlackTop(Onto(d, k)) == BlackTop(Onto(d', k'))
  {
    if d.Step? {
      OntoRBC(d.up, d'.up, k, k', if d.c == Black then h + 1 else h);
    } else {
      ShapeFacts(k.up, k'.up, Leaf, null, null, if k.c == Black then h + 1 else h);
    }
  }

  lemma {:induction false} TwoBalance(k: Ctx, t: Tree, kk: Ctx, st: Tree, kk': Ctx, kS: Ctx)
    requires t.Bin? && Leftmost(t.r, kk, st) && SameShape(kk, kk') && RBTree(Plug(k, t))
    requires kS.Step? && SameShape(Step(Right, st.n, t.c, kS.a, t.l, k), kS)
    ensures var K, sr' := Onto(kk', kS), SetColor(st.r, Black);
            if st.r.Leaf? && st.c == Black then K.Step? && RBC(K, 1) else RBTree(Plug(K, sr'))
  {
    var K0, K, sr' := Onto(kk, Step(Right, t.n, t.c, t.a, t.l, k)), Onto(kk', kS), SetColor(st.r, Black);
    OntoAll(kk, Step(Right, t.n, t.c, t.a, t.l, k), st);
    assert Plug(K0, st) == Plug(k, t);
    var h := UnplugRB(K0, st);
    OntoRBC(kk, kk', Step(Right, t.n, t.c, t.a, t.l, k), kS, h);
    if st.r.Bin? {
      assert RB(st.r, 0);
      assert RB(sr', 1) && h == 1;
      PlugRB(K, sr', 1);
    } else if st.c == Red {
      PlugRB(K, Leaf, 0);
    }
  }

  lemma {:induction false} TwoMaxima(kk: Ctx, kS: Ctx, sr: Tree)
    requires AugOK(sr) && AugC(kk, sr) && AugC(kS, Plug(kk, SetColor(sr, Black)))
    ensures AugOK(Plug(kS, Plug(kk, SetColor(sr, Black))))
  {
    var sr' := SetColor(sr, Black);
    if sr.Bin? { AugCong(kk, sr, sr'); }
    assert AugOK(sr');
    PlugAug(kk, sr');
    PlugAug(kS, Plug(kk, sr'));
  }

  lemma {:induction false} TwoStale(k: Ctx, t: Tree, kk: Ctx, st: Tree, sx: Node)
    requires t.Bin? && Leftmost(t.r, kk, st) && AugOK(Plug(k, t))
    ensures AugStale(kk) && AugOK(st.r) && AugStale(Step(Right, sx, t.c, t.a, t.l, k))
  {
    PlugAug(k, t);
    PlugAug(kk, st);
    AugStaleOf(kk, st);
    AugCong(k, t, Mk(Right, Leaf, sx, t.c, t.a, t.l));
  }

  lemma {:induction false} TwoDone(m: Mem, root: Node?, k: Ctx, t: Tree, kk: Ctx, st: Tree, kk': Ctx, kS: Ctx,
      rebalance: Node?, cb: Callbacks)
    requires t.Bin? && ZDistinct(k, t) && RBTree(Plug(k, t)) && Leftmost(t.r, kk, st) && SameShape(kk, kk')
    requires kS.Step? && SameShape(Step(Right, st.n, t.c, kS.a, t.l, k), kS) && root == Apex(k, st.n)
    requires Zipper(m, kS, Plug(kk', SetColor(st.r, Black)), null)
    requires cb == Max && AugOK(Plug(k, t)) ==> AugC(kk', st.r) && AugC(kS, Plug(kk', SetColor(st.r, Black)))
    requires rebalance == if st.r.Leaf? && st.c == Black then Above(kk', st.n) else null
    ensures Unlinked(m, root, Plug(k, t), t.n, rebalance, Onto(kk', kS), SetColor(st.r, Black), cb)
  {
    var K, sr' := Onto(kk', kS), SetColor(st.r, Black);
    OntoAll(kk', kS, sr');
    PlugRep(m, kS, Plug(kk', sr'), null);
    PlugRep(m, K, sr', null);
    OntoRep(m, kk', kS, Top(sr'), null);
    ShapeFacts(k, kS.up, Leaf, st.n, null, 0);
    assert Apex(kS, Apex(kk', Top(sr'))) == Apex(kS.up, st.n);
    TwoOrder(k, t, kk, st, kk', kS, sr');
    TwoBalance(k, t, kk, st, kk', kS);
    if cb == Max && AugOK(Plug(k, t)) {
      TwoStale(k, t, kk, st, st.n);
      TwoMaxima(kk', kS, st.r);
    }
  }

  // ------------------------------------------------------------ the whole

  lemma {:induction false} AtFlat(m: Mem, root: Node?, k: Ctx, t: Tree, h: nat)
    requires At(m, root, k, t, h)
    ensures t.n in m && m[t.n].left == Top(t.l) && m[t.n].right == Top(t.r) && Rep(m, t.r, t.n)
    ensures t.r.Bin? ==> t.r.n in m
    ensures RBTree(Plug(k, t))
  {
    PlugRB(k, t, h);
  }

  /** Install the successor and bring the rest of the path up to date. */
  method Replace(node: Node, successor: Node, parent: Node, child2: Node?, root: Root, cb: Callbacks,
                 ghost kk: Ctx, ghost k: Ctx, ghost l: Tree, ghost c: Color, ghost sr: Tree, ghost cs: Color,
                 ghost ok: bool, ghost S: set<Node>)
    returns (ghost kS: Ctx)
    requires TwoPieces(node, successor, kk, k, l, sr) && Detached(Snap(S), node, successor, kk, k, l, c, sr, cs)
      && l.Bin?
    requires child2 == Top(sr) && parent == Above(kk, successor) && root.node == Apex(k, node)
    requires ok ==> AugStale(Step(Right, successor, c, successor.aug, l, k))
    modifies root`node, S
    ensures kS.Step? && SameShape(Step(Right, successor, c, kS.a, l, k), kS) && root.node == Apex(k, successor)
    ensures Zipper(Snap(S), kS, Plug(kk, SetColor(sr, Black)), null)
    ensures cb == Max && ok ==> AugC(kS, Plug(kk, SetColor(sr, Black)))
  {
    ghost var m, sr' := Snap(S), SetColor(sr, Black);
    InstallFlat(m, node, successor, kk, k, l, c, sr, cs);
    var tmp := node.left;
    Install(node, successor, tmp, parent, child2, root, S);
    InstalledRep(m, Snap(S), node, successor, kk, k, l, c, sr, cs);
    InstalledZip(Snap(S), successor, kk, k, l, c, sr');
    ghost var k0, u := Step(Right, successor, c, successor.aug, l, k), Plug(kk, sr');
    InstalledStale(Snap(S), node, successor, kk, k, l, c, sr);
    kS := PropagateOver(successor, cb, k0, u, ok, S);
  }

  lemma {:induction false} InstalledStale(m: Mem, node: Node, sx: Node, kk: Ctx, k: Ctx, l: Tree, c: Color, sr: Tree)
    requires TwoPieces(node, sx, kk, k, l, sr) && sx in m
    requires Zipper(m, Step(Right, sx, c, m[sx].aug, l, k), Plug(kk, SetColor(sr, Black)), null)
    ensures StaleCtx(m, Step(Right, sx, c, m[sx].aug, l, k), Plug(kk, SetColor(sr, Black)), null)
    ensures Nodes(Plug(kk, SetColor(sr, Black))) !! CNodes(Step(Right, sx, c, m[sx].aug, l, k))
  {
    var sr', k0 := SetColor(sr, Black), Step(Right, sx, c, m[sx].aug, l, k);
    PlugNodes(kk, sr');
    assert Nodes(sr') == Nodes(sr);
    assert Rep(m, Plug(kk, sr'), sx);
  }

  /** Cases 2 and 3: `node` has two children. */
  method EraseTwo(node: Node, child: Node, root: Root, cb: Callbacks, ghost k: Ctx, ghost t: Tree, ghost h: nat,
      ghost S: set<Node>)
    returns (rebalance: Node?, ghost k': Ctx, ghost t': Tree)
    requires At(Snap(S), root.node, k, t, h) && node == t.n && t.l.Bin? && t.r.Bin? && child == t.r.n
    modifies root`node, S
    ensures Unlinked(Snap(S), root.node, Plug(k, t), node, rebalance, k', t', cb)
  {
    AtFlat(Snap(S), root.node, k, t, h);
    ghost var ok := cb == Max && AugOK(Plug(k, t));
    var parent, successor;
    ghost var kk, st;
    parent, successor, kk, st := FindSuccessor(child, node, t.r, S);
    if ok { TwoStale(k, t, kk, st, successor); }
    TwoPiecesOf(k, t, kk, st);
    var child2;
    ghost var kk';
    child2, kk' := Detach(node, child, parent, successor, cb, k, t, kk, st, ok, S);
    ShapeFacts(kk, kk', Leaf, null, successor, 0);
    rebalance := if child2 == null && successor.color == Black then parent else null;
    ghost var kS := Replace(node, successor, parent, child2, root, cb, kk', k, t.l, t.c, st.r, st.c, ok, S);
    k', t' := Onto(kk', kS), SetColor(st.r, Black);
    TwoDone(Snap(S), root.node, k, t, kk, st, kk', kS, rebalance, cb);
  }

  /** `__rb_erase_augmented`: unlink `node` and return where rebalancing must start, if at all. */
  method EraseAugmented(node: Node, root: Root, cb: Callbacks, ghost k: Ctx, ghost t: Tree, ghost h: nat,
      ghost S: set<Node>)
    returns (rebalance: Node?, ghost k': Ctx, ghost t': Tree)
    requires At(Snap(S), root.node, k, t, h) && node == t.n
    modifies root`node, S
    ensures Unlinked(Snap(S), root.node, Plug(k, t), node, rebalance, k', t', cb)
  {
    AtFlat(Snap(S), root.node, k, t, h);
    var child := node.right;
    var tmp := node.left;
    if tmp == null {
      rebalance, k' := EraseOne(node, child, root, cb, k, t, t.r, h, S);
      t' := SetColor(t.r, t.c);
    } else if child == null {
      rebalance, k' := EraseOne(node, tmp, root, cb, k, t, t.l, h, S);
      t' := SetColor(t.l, t.c);
    } else {
      rebalance, k', t' := EraseTwo(node, child, root, cb, k, t, h, S);
    }
  }

  lemma {:induction false} LocateAt(m: Mem, root: Node?, tree: Tree, n: Node) returns (k: Ctx, t: Tree, h: nat)
    requires Whole(m, root, tree) && n in Nodes(tree)
    ensures At(m, root, k, t, h) && t.n == n && Plug(k, t) == tree
  {
    k, t := Locate(Hole, tree, n);
    h := UnplugRB(k, t);
    PlugNodes(k, t);
    PlugRep(m, k, t, null);
  }

  lemma {:induction false} UnlinkedShort(m: Mem, root: Node?, tree: Tree, node: Node, rebalance: Node?, k: Ctx,
      t: Tree, cb: Callbacks)
    requires Unlinked(m, root, tree, node, rebalance, k, t, cb)
    ensures rebalance == null ==> Whole(m, root, Plug(k, t))
    ensures rebalance != null ==> Short(m, root, k, Leaf, 0) && rebalance == k.n && t == Leaf
  {
    PlugRep(m, k, t, null);
    PlugNodes(k, t);
  }

  /** What erasing `node` from `tree` must give. */
  ghost predicate Erased(m: Mem, root: Node?, tree: Tree, node: Node, tree': Tree, cb: Callbacks) {
    var whole := Whole(m, root, tree');
    var order := Inorder(tree') == Without(Inorder(tree), node);
    var maxima := cb == Max && AugOK(tree) ==> AugOK(tree');
    var all := whole && order && maxima;
    all
  }

  /** `rb_erase` (no callbacks) and `rb_erase_augmented` (max callbacks). */
  method Erase(node: Node, root: Root, cb: Callbacks, ghost tree: Tree, ghost S: set<Node>)
    returns (ghost tree': Tree)
    requires Whole(Snap(S), root.node, tree) && node in Nodes(tree)
    modifies root, S
    ensures Erased(Snap(S), root.node, tree, node, tree', cb)
    ensures root.rotations <= old(root.rotations) + 3
  {
    ghost var k, t, h := LocateAt(Snap(S), root.node, tree, node);
    var rebalance;
    ghost var k', t';
    rebalance, k', t' := EraseAugmented(node, root, cb, k, t, h, S);
    UnlinkedShort(Snap(S), root.node, tree, node, rebalance, k', t', cb);
    tree' := Plug(k', t');
    if rebalance != null {
      tree' := EraseColor(rebalance, root, cb, k', 0, S);
    }
  }
}
