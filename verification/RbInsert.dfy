/**
 `__rb_insert`: the bottom-up loop that restores the red-black invariants after a red
 node has been linked.  The source spells out two mirror images of every case; here one
 body serves both, with `s` the side of the grandparent on which the parent hangs.
 */
module RbInsert {
  import opened RbShape
  import opened RbBalance
  import opened RbPrimitives

  // ---------------------------------------------------- case 1: red uncle

  /** Parent and uncle have turned black, the grandparent red. */
  ghost predicate Flipped(m: Mem, m': Mem, parent: Node, uncle: Node, gparent: Node) {
    && {parent, uncle, gparent} <= m.Keys && m.Keys == m'.Keys
    && var black := m'[parent] == m[parent].(parent := gparent, color := Black)
      && m'[uncle] == m[uncle].(parent := gparent, color := Black);
       var red := m'[gparent] == m[gparent].(color := Red);
       black && red && Agree(m, m', parent, uncle, gparent, null)
  }

  method FlipColors(parent: Node, uncle: Node, gparent: Node, ghost S: set<Node>)
    requires {parent, uncle, gparent} <= S && parent != uncle && parent != gparent && uncle != gparent
    modifies S`parent, S`color
    ensures Flipped(old(Snap(S)), Snap(S), parent, uncle, gparent)
  {
    SetParentColor(uncle, gparent, Black);
    SetParentColor(parent, gparent, Black);
    gparent.color := Red;
  }

  ghost function FlipTree(k: Ctx, t: Tree): Tree
    requires k.Step? && k.up.Step?
  {
    Mk(k.up.s, Mk(k.s, t, k.n, Black, k.a, k.sib), k.up.n, Red, k.up.a, SetColor(k.up.sib, Black))
  }

  lemma {:induction false} FlipRep(m: Mem, m': Mem, k: Ctx, t: Tree)
    requires k.Step? && k.up.Step? && k.up.sib.Bin? && ZDistinct(k, t) && Zipper(m, k, t, null)
    requires Flipped(m, m', k.n, k.up.sib.n, k.up.n)
    ensures Zipper(m', k.up.up, FlipTree(k, t), null)
  {
    var u, g, p := k.up.sib, k.up.n, k.n;
    assert CDistinct(k.up) && RepC(m, k.up, p, null);
    FrameRep(m, m', t, p, p, u.n, g, null);
    FrameRep(m, m', k.sib, p, p, u.n, g, null);
    FrameRepC(m, m', k.up.up, g, null, p, u.n, g, null);
    AdoptRep(m, m', u, g, g, Black, p, u.n, g, null);
    var tp := Mk(k.s, t, p, Black, k.a, k.sib);
    RepMk(m', k.s, t, p, Black, k.a, k.sib, g);
    RepMk(m', k.up.s, tp, g, Red, k.up.a, SetColor(u, Black), Above(k.up.up, null));
  }

  // ------------------------------------- case 2: node is the inner grandchild

  /** `node` has been rotated above its parent, except that nothing points at it yet. */
  ghost predicate InnerRotated(m: Mem, m': Mem, s: Side, node: Node, parent: Node, tmp: Node?) {
    && {node, parent} + Opt(tmp) <= m.Keys && m.Keys == m'.Keys
    && var lowered := m'[parent] == MkCell(s, node, Red, m[parent].Child(s), tmp, m[parent].aug);
       var lifted := m'[node] == MkCell(s, m[node].parent, m[node].color, parent, m[node].Child(s.Opp()), m[node].aug);
       var moved := tmp != null ==> m'[tmp] == m[tmp].(parent := parent, color := Black);
       lowered && lifted && moved && Agree(m, m', node, parent, tmp, null)
  }

  method RotateInner(s: Side, node: Node, parent: Node, tmp: Node?, ghost root: Root, ghost S: set<Node>)
    requires {node, parent} + Opt(tmp) <= S && node != parent && node.Child(s) == tmp && tmp !in {node, parent}
    modifies root`rotations, S`parent, S`color, S`left, S`right
    ensures InnerRotated(old(Snap(S)), Snap(S), s, node, parent, tmp) && root.rotations == old(root.rotations) + 1
  {
    RotateInnerLinks(s, node, parent, tmp, root);
  }

  /** The pointer updates of case 2 are a rotation too. */
  method RotateInnerLinks(s: Side, node: Node, parent: Node, tmp: Node?, ghost root: Root)
    requires node != parent && node.Child(s) == tmp && tmp !in {node, parent}
    modifies parent`parent, parent`color, parent`left, parent`right, node`left, node`right, Opt(tmp)`parent,
      Opt(tmp)`color, root`rotations
    ensures parent.Content() == MkCell(s, node, Red, old(parent.Child(s)), tmp, old(parent.aug))
    ensures node.Content()
      == MkCell(s, old(node.parent), old(node.color), parent, old(node.Child(s.Opp())), old(node.aug))
    ensures tmp != null ==> tmp.Content() == old(tmp.Content()).(parent := parent, color := Black)
    ensures root.rotations == old(root.rotations) + 1
  {
    root.rotations := root.rotations + 1;
    parent.SetChild(s.Opp(), tmp);
    node.SetChild(s, parent);
    SetParentColor(tmp, parent, Black);
    SetParentColor(parent, node, Red);
  }

  /** `p` owns `o` outside and, inside, `n` with subtrees `x` (near `o`) and `y`. */
  ghost predicate InnerPieces(n: Node, p: Node, g: Node, o: Tree, x: Tree, y: Tree, u: Tree, up: Ctx) {
    var nodes := n != p && n != g && p != g && Off(n, x) && Off(p, x) && Off(g, x);
    var trees := NotIn(n, o, y, u, up) && NotIn(p, o, y, u, up) && NotIn(Top(x), o, y, u, up) && Unique(x);
    var all := nodes && trees;
    all
  }

  /** The state in which case 2 applies: `n` is the inner child of `p`. */
  ghost predicate InnerReady(m: Mem, s: Side, g: Node, p: Node, n: Node, o: Tree, x: Tree, y: Tree, u: Tree, up: Ctx,
      cn: Color) {
    && n in m
    && var apart := InnerPieces(n, p, g, o, x, y, u, up);
       var linked := HalfLinked(m, s, g, p, o, Mk(s, x, n, cn, m[n].aug, y), u, up);
       var all := apart && linked;
       all
  }

  lemma {:induction false} InnerRep(m: Mem, m': Mem, s: Side, g: Node, p: Node, n: Node, o: Tree, x: Tree, y: Tree,
      u: Tree, up: Ctx, cn: Color)
    requires InnerReady(m, s, g, p, n, o, x, y, u, up, cn) && InnerRotated(m, m', s, n, p, Top(x))
    ensures HalfLinked(m', s, g, n, Mk(s, o, p, Red, m[p].aug, SetColor(x, Black)), y, u, up)
    ensures m'[g] == m[g] && m'[n].aug == m[n].aug
  {
    RepMk(m, s, x, n, cn, m[n].aug, y, p);
    InnerFrame(m, m', s, g, p, n, o, x, y, u, up);
    RepMk(m', s, o, p, Red, m[p].aug, SetColor(x, Black), n);
  }

  lemma {:induction false} InnerFrame(m: Mem, m': Mem, s: Side, g: Node, p: Node, n: Node, o: Tree, x: Tree, y: Tree,
      u: Tree, up: Ctx)
    requires InnerPieces(n, p, g, o, x, y, u, up) && InnerRotated(m, m', s, n, p, Top(x))
    requires Rep(m, o, p) && Rep(m, x, n) && Rep(m, y, n) && Rep(m, u, g) && RepC(m, up, g, null)
    ensures Rep(m', o, p) && Rep(m', SetColor(x, Black), p) && Rep(m', y, n) && Rep(m', u, g) && RepC(m', up, g, null)
  {
    FrameRep(m, m', o, p, n, p, Top(x), null);
    FrameRep(m, m', y, n, n, p, Top(x), null);
    FrameRep(m, m', u, g, n, p, Top(x), null);
    FrameRepC(m, m', up, g, null, n, p, Top(x), null);
    AdoptRep(m, m', x, n, p, Black, n, p, Top(x), null);
  }

  /** Storing new augmented values at `n` and its outside child `p` in a half-linked state. */
  lemma {:induction false} InnerAug(m: Mem, m': Mem, s: Side, g: Node, p: Node, n: Node, o: Tree, x: Tree, y: Tree,
      u: Tree, up: Ctx)
    requires InnerPieces(n, p, g, o, x, y, u, up) && OnlyAug(m, m', n, p)
    requires p in m && HalfLinked(m, s, g, n, Mk(s, o, p, Red, m[p].aug, x), y, u, up)
    ensures HalfLinked(m', s, g, n, Mk(s, o, p, Red, m'[p].aug, x), y, u, up)
    ensures m'[g] == m[g]
  {
    RepMk(m, s, o, p, Red, m[p].aug, x, n);
    FrameRep(m, m', o, p, n, p, null, null);
    FrameRep(m, m', x, p, n, p, null, null);
    FrameRep(m, m', y, n, n, p, null, null);
    FrameRep(m, m', u, g, n, p, null, null);
    FrameRepC(m, m', up, g, null, n, p, null, null);
    RepMk(m', s, o, p, Red, m'[p].aug, x, n);
  }

  lemma {:induction false} InnerFlat(m: Mem, s: Side, g: Node, p: Node, n: Node, o: Tree, x: Tree, y: Tree, u: Tree,
      up: Ctx)
    requires InnerPieces(n, p, g, o, x, y, u, up)
    requires p in m && HalfLinked(m, s, g, n, Mk(s, o, p, Red, m[p].aug, x), y, u, up)
    ensures {n, p} + Opt(m[p].left) + Opt(m[p].right) <= m.Keys && m[p].left !in {n, p} && m[p].right !in {n, p}
    ensures MaxStored(m, MaxStored(m, p.val, m[p].left), m[p].right) == MaxWith(MaxWith(p.val, o), x)
  {
    RepMk(m, s, o, p, Red, m[p].aug, x, n);
  }

  lemma {:induction false} InnerStart(m: Mem, s: Side, g: Node, p: Node, n: Node, o: Tree, x: Tree, y: Tree, u: Tree,
      up: Ctx, cn: Color)
    requires InnerReady(m, s, g, p, n, o, x, y, u, up, cn)
    ensures {n, p} + Opt(Top(x)) <= m.Keys && m[n].Child(s) == Top(x) && Top(x) !in {n, p}
  {
    RepMk(m, s, x, n, cn, m[n].aug, y, p);
  }

  /** Case 2, the pointer updates: rotate at `parent`, so that `node` takes its place. */
  method RaiseInner(s: Side, node: Node, parent: Node, ghost gparent: Node,
                    ghost o: Tree, ghost x: Tree, ghost y: Tree, ghost u: Tree, ghost up: Ctx, ghost cn: Color,
                    ghost root: Root, ghost S: set<Node>)
    requires InnerReady(Snap(S), s, gparent, parent, node, o, x, y, u, up, cn)
    modifies root`rotations, S`parent, S`color, S`left, S`right
    ensures HalfLinked(Snap(S), s, gparent, node, Mk(s, o, parent, Red, parent.aug, SetColor(x, Black)), y, u, up)
    ensures gparent.color == old(gparent.color) && root.rotations == old(root.rotations) + 1
  {
    ghost var m := Snap(S);
    InnerStart(m, s, gparent, parent, node, o, x, y, u, up, cn);
    RotateInner(s, node, parent, node.Child(s), root, S);
    InnerRep(m, Snap(S), s, gparent, parent, node, o, x, y, u, up, cn);
  }

  /** Case 2, the `rotate` callback. */
  method RaiseInnerAug(s: Side, node: Node, parent: Node, ghost gparent: Node, cb: Callbacks,
                       ghost o: Tree, ghost x: Tree, ghost y: Tree, ghost u: Tree, ghost up: Ctx, ghost S: set<Node>)
    requires InnerPieces(node, parent, gparent, o, x, y, u, up)
    requires HalfLinked(Snap(S), s, gparent, node, Mk(s, o, parent, Red, parent.aug, x), y, u, up)
    modifies S`aug
    ensures HalfLinked(Snap(S), s, gparent, node, Mk(s, o, parent, Red, parent.aug, x), y, u, up)
    ensures gparent.aug == old(gparent.aug)
    ensures cb == Max ==> node.aug == old(parent.aug) && parent.aug == MaxWith(MaxWith(parent.val, o), x)
  {
    ghost var m := Snap(S);
    InnerFlat(m, s, gparent, parent, node, o, x, y, u, up);
    AugmentRotate(cb, parent, node, S);
    InnerAug(m, Snap(S), s, gparent, parent, node, o, x, y, u, up);
  }

  /** The links and the callback of case 2. */
  method LiftInner(s: Side, node: Node, parent: Node, ghost gparent: Node, cb: Callbacks,
                   ghost o: Tree, ghost x: Tree, ghost y: Tree, ghost u: Tree, ghost up: Ctx, ghost root: Root,
                   ghost S: set<Node>)
    requires InnerReady(Snap(S), s, gparent, parent, node, o, x, y, u, up, Red)
    requires InnerPieces(node, parent, gparent, o, SetColor(x, Black), y, u, up)
    modifies root`rotations, S
    ensures HalfLinked(Snap(S), s, gparent, node, Mk(s, o, parent, Red, parent.aug, SetColor(x, Black)), y, u, up)
    ensures gparent.color == old(gparent.color) && gparent.aug == old(gparent.aug)
    ensures root.rotations == old(root.rotations) + 1
    ensures cb == Max ==>
      node.aug == old(parent.aug) && parent.aug == MaxWith(MaxWith(parent.val, o), SetColor(x, Black))
  {
    RaiseInner(s, node, parent, gparent, o, x, y, u, up, Red, root, S);
    RaiseInnerAug(s, node, parent, gparent, cb, o, SetColor(x, Black), y, u, up, S);
  }

  // ------------------------------------------------- the steps, on zippers

  /** The loop invariant: the node at the focus is red, and the only possible violations
      are a red parent above it or its being the root. */
  ghost predicate InsertInv(k: Ctx, t: Tree, h: nat) {
    t.Bin? && t.c == Red && RB(t, h) && RBC(k, h) && ZDistinct(k, t)
  }

  /** A red parent has a black parent of its own, and no red children but the focus. */
  ghost predicate RedParent(k: Ctx) {
    var red := k.Step? && k.c == Red && k.up.Step? && k.up.c == Black;
    red
  }

  ghost function Grand(k: Ctx, t: Tree): Tree
    requires k.Step? && k.up.Step?
  {
    Mk(k.up.s, Mk(k.s, t, k.n, k.c, k.a, k.sib), k.up.n, k.up.c, k.up.a, k.up.sib)
  }

  /** Case 1 moves the only possible violation two levels up. */
  lemma {:induction false} FlipStep(k: Ctx, t: Tree, h: nat, cb: Callbacks)
    requires InsertInv(k, t, h) && RedParent(k) && !IsBlack(k.up.sib)
    ensures InsertInv(k.up.up, FlipTree(k, t), h + 1)
    ensures Keeps(Plug(k, t), Plug(k.up.up, FlipTree(k, t)), cb)
  {
    var g, f := Grand(k, t), FlipTree(k, t);
    assert Plug(k, t) == Plug(k.up, Mk(k.s, t, k.n, k.c, k.a, k.sib)) == Plug(k.up.up, g);
    FlipRB(k, t, h);
    FlipGrand(k, t);
    KeepsPlug(k.up.up, g, f, cb);
    PlugNodes(k, t);
    PlugNodes(k.up.up, f);
    SameInorder(Plug(k.up.up, g), Plug(k.up.up, f));
  }

  lemma {:induction false} FlipRB(k: Ctx, t: Tree, h: nat)
    requires RB(t, h) && RBC(k, h) && RedParent(k) && !IsBlack(k.up.sib)
    ensures RB(FlipTree(k, t), h + 1) && RBC(k.up.up, h + 1)
  {
    assert RBC(k.up, h);
    var tp := Mk(k.s, t, k.n, Black, k.a, k.sib);
    assert RB(tp, h + 1);
    assert RB(SetColor(k.up.sib, Black), h + 1);
  }

  lemma {:induction false} FlipGrand(k: Ctx, t: Tree)
    requires k.Step? && k.up.Step?
    ensures Inorder(FlipTree(k, t)) == Inorder(Grand(k, t)) && AugOK(FlipTree(k, t)) == AugOK(Grand(k, t))
  {
    var p, p' := Mk(k.s, t, k.n, k.c, k.a, k.sib), Mk(k.s, t, k.n, Black, k.a, k.sib);
    var u, u' := k.up.sib, SetColor(k.up.sib, Black);
    assert Inorder(p) == Inorder(p') && AugOK(p) == AugOK(p');
    assert Inorder(u) == Inorder(u') && AugOK(u) == AugOK(u');
    AugMk(k.up.s, p, k.up.n, k.up.c, k.up.a, u);
    AugMk(k.up.s, p', k.up.n, Red, k.up.a, u');
  }

  /** Case 3 repairs the violation for good. */
  lemma {:induction false} LiftStep(s: Side, p: Node, g: Node, x: Tree, y: Tree, u: Tree, up: Ctx, h: nat,
      cb: Callbacks,
                                    cp: Color, ap: int, ag: int, ap': int, ag': int)
    requires RB(x, h) && RB(y, h) && IsBlack(y) && RB(u, h) && IsBlack(u) && RBC(up, h + 1)
    requires cb == Max ==> ap' == ag && ag' == MaxWith(MaxWith(g.val, y), u)
    ensures RBTree(Plug(up, Lifted(s, p, g, x, SetColor(y, Black), u, Black, ap', Red, ag')))
    ensures Keeps(Plug(up, Mk(s, Mk(s, x, p, cp, ap, y), g, Black, ag, u)),
                  Plug(up, Lifted(s, p, g, x, SetColor(y, Black), u, Black, ap', Red, ag')), cb)
  {
    var G := Mk(s, Mk(s, x, p, cp, ap, y), g, Black, ag, u);
    var L := Lifted(s, p, g, x, SetColor(y, Black), u, Black, ap', Red, ag');
    assert SetColor(y, Black) == y;
    assert RB(Mk(s, y, g, Red, ag', u), h);
    PlugRB(up, L, h + 1);
    RotateOrder(s, x, p, y, g, u, cp, ap, Black, ag, Black, ap', Red, ag');
    LiftAugOK(s, p, g, x, y, u, cp, ap, Black, ag, Black, ap', Red, ag');
    KeepsPlug(up, G, L, cb);
  }

  /** Case 2 turns an inner violation into an outer one. */
  lemma {:induction false} InnerStep(s: Side, n: Node, p: Node, g: Node, o: Tree, x: Tree, y: Tree, u: Tree, up: Ctx,
      h: nat, cb: Callbacks,
                                     an: int, ap: int, ag: int, an': int, ap': int)
    requires RB(o, h) && IsBlack(o) && RB(Mk(s, x, n, Red, an, y), h)
    requires ZDistinct(up, Mk(s, Mk(s, o, p, Red, ap, Mk(s, x, n, Red, an, y)), g, Black, ag, u))
    requires cb == Max ==> an' == ap && ap' == MaxWith(MaxWith(p.val, o), x)
    ensures var x' := Mk(s, o, p, Red, ap', SetColor(x, Black));
            var G, G' :=
              Mk(s, Mk(s, o, p, Red, ap, Mk(s, x, n, Red, an, y)), g, Black, ag, u),
              Mk(s, Mk(s, x', n, Red, an', y), g, Black, ag, u);
            RB(x', h) && RB(y, h) && IsBlack(y) && ZDistinct(up, G') && Keeps(Plug(up, G), Plug(up, G'), cb)
  {
    var x', N := Mk(s, o, p, Red, ap', SetColor(x, Black)), Mk(s, x, n, Red, an, y);
    var P, P' := Mk(s, o, p, Red, ap, N), Mk(s, x', n, Red, an', y);
    var G, G' := Mk(s, P, g, Black, ag, u), Mk(s, P', g, Black, ag, u);
    assert SetColor(x, Black) == x;
    RotateOrder(s, o, p, x, n, y, Red, ap', Red, an', Red, ap, Red, an);
    InnerAugOK(s, n, p, o, x, y, an, ap, an', ap');
    AugMk(s, P, g, Black, ag, u);
    AugMk(s, P', g, Black, ag, u);
    KeepsPlug(up, G, G', cb);
    PlugNodes(up, G);
    PlugNodes(up, G');
    SameInorder(Plug(up, G), Plug(up, G'));
  }

  lemma {:induction false} InnerAugOK(s: Side, n: Node, p: Node, o: Tree, x: Tree, y: Tree, an: int, ap: int,
      an': int, ap': int)
    ensures (an' == ap && ap' == MaxWith(MaxWith(p.val, o), x)
             && AugOK(Mk(s, o, p, Red, ap, Mk(s, x, n, Red, an, y)))) ==>
            AugOK(Mk(s, Mk(s, o, p, Red, ap', x), n, Red, an', y))
  {
    var N, P := Mk(s, x, n, Red, an, y), Mk(s, o, p, Red, ap', x);
    AugMk(s, x, n, Red, an, y);
    AugMk(s, o, p, Red, ap, N);
    AugMk(s, o, p, Red, ap', x);
    AugMk(s, P, n, Red, an', y);
  }

  // -------------------------------------------------------------- the loop

  /** Memory and balance before case 3. */
  ghost predicate OuterReady(m: Mem, s: Side, p: Node, g: Node, x: Tree, y: Tree, u: Tree, up: Ctx, h: nat) {
    && p in m && g in m && m[g].color == Black
    && var heights := RB(x, h) && RB(y, h) && IsBlack(y) && RB(u, h) && IsBlack(u) && RBC(up, h + 1);
       var distinct := ZDistinct(up, Mk(s, Mk(s, x, p, Red, m[p].aug, y), g, Black, m[g].aug, u));
       heights && distinct && HalfLinked(m, s, g, p, x, y, u, up)
  }

  method RotateOuter(s: Side, parent: Node, gparent: Node, tmp: Node?, root: Root, cb: Callbacks,
                     ghost x: Tree, ghost y: Tree, ghost u: Tree, ghost up: Ctx, ghost h: nat, ghost S: set<Node>)
    returns (ghost tree: Tree)
    requires OuterReady(Snap(S), s, parent, gparent, x, y, u, up, h) && tmp == Top(y) && root.node == Apex(up, gparent)
    modifies root, S
    ensures Rebuilt(Snap(S), root.node,
      old(Plug(up, Mk(s, Mk(s, x, parent, Red, parent.aug, y), gparent, Black, gparent.aug, u))), tree, cb)
    ensures root.rotations == old(root.rotations) + 1
  {
    ghost var ap, ag := parent.aug, gparent.aug;
    SplitPieces(s, parent, gparent, x, y, u, up, Red, ap, Black, ag);
    ghost var y' := SetColor(y, Black);
    LiftRotate(cb, s, parent, gparent, tmp, Black, Red, root, x, y, u, up, S);
    LiftedRep(Snap(S), s, parent, gparent, x, y', u, up, Black, parent.aug, Red, gparent.aug);
    LiftStep(s, parent, gparent, x, y, u, up, h, cb, Red, ap, ag, parent.aug, gparent.aug);
    ghost var L := Lifted(s, parent, gparent, x, y', u, Black, parent.aug, Red, gparent.aug);
    tree := Plug(up, L);
    PlugRep(Snap(S), up, L, null);
    ghost var G := Mk(s, Mk(s, x, parent, Red, ap, y), gparent, Black, ag, u);
    PlugNodes(up, G);
    SameInorder(Plug(up, G), tree);
  }

  /** Everything known at the top of an iteration that ends in a rotation. */
  ghost predicate RotateReady(m: Mem, k: Ctx, t: Tree, h: nat) {
    RedParent(k) && IsBlack(k.up.sib) && InsertInv(k, t, h) && Zipper(m, k, t, null)
  }

  lemma {:induction false} ZipHalf(m: Mem, k: Ctx, t: Tree)
    requires k.Step? && k.up.Step? && Zipper(m, k, t, null)
    ensures k.n in m && k.up.n in m && m[k.up.n].color == k.up.c && m[k.up.n].aug == k.up.a && m[k.n].aug == k.a
    ensures k.s == k.up.s ==> HalfLinked(m, k.up.s, k.up.n, k.n, t, k.sib, k.up.sib, k.up.up)
    ensures k.s != k.up.s ==> HalfLinked(m, k.up.s, k.up.n, k.n, k.sib, t, k.up.sib, k.up.up)
  {
    assert RepC(m, k.up, k.n, null);
  }

  lemma {:induction false} ZipPure(k: Ctx, t: Tree, h: nat)
    requires RedParent(k) && InsertInv(k, t, h)
    ensures Plug(k, t) == Plug(k.up.up, Grand(k, t)) && ZDistinct(k.up.up, Grand(k, t))
    ensures RB(k.sib, h) && IsBlack(k.sib) && RB(k.up.sib, h) && RBC(k.up.up, h + 1)
  {
    assert RBC(k.up, h);
    assert Plug(k, t) == Plug(k.up, Mk(k.s, t, k.n, k.c, k.a, k.sib)) == Plug(k.up.up, Grand(k, t));
    PlugNodes(k, t);
    PlugNodes(k.up.up, Grand(k, t));
  }

  lemma {:induction false} OuterCase(m: Mem, k: Ctx, t: Tree, h: nat)
    requires RotateReady(m, k, t, h) && k.s == k.up.s
    ensures OuterReady(m, k.s, k.n, k.up.n, t, k.sib, k.up.sib, k.up.up, h)
    ensures Plug(k, t)
      == Plug(k.up.up, Mk(k.s, Mk(k.s, t, k.n, Red, m[k.n].aug, k.sib), k.up.n, Black, m[k.up.n].aug, k.up.sib))
  {
    ZipHalf(m, k, t);
    ZipPure(k, t, h);
  }

  lemma {:induction false} InnerDistinct(s: Side, n: Node, p: Node, g: Node, o: Tree, x: Tree, y: Tree, u: Tree,
      up: Ctx, cn: Color, an: int, cp: Color, ap: int, cg: Color, ag: int)
    requires ZDistinct(up, Mk(s, Mk(s, o, p, cp, ap, Mk(s, x, n, cn, an, y)), g, cg, ag, u))
    ensures InnerPieces(n, p, g, o, x, y, u, up)
  {
    var N := Mk(s, x, n, cn, an, y);
    var P := Mk(s, o, p, cp, ap, N);
    assert Distinct(P) && Distinct(N) && Distinct(x);
    assert Nodes(N) == Nodes(x) + {n} + Nodes(y);
    assert Nodes(P) == Nodes(o) + {p} + Nodes(N);
  }

  lemma {:induction false} InnerCase(m: Mem, k: Ctx, t: Tree, h: nat)
    requires RotateReady(m, k, t, h) && k.s != k.up.s
    ensures InnerReady(m, k.up.s, k.up.n, k.n, t.n, k.sib, Sub(t, k.up.s), Sub(t, k.s), k.up.sib, k.up.up, Red)
    ensures Plug(k, t) == Plug(k.up.up, Grand(k, t)) && m[k.up.n].color == Black
    ensures m[t.n].aug == t.a && m[k.n].aug == k.a && m[k.up.n].aug == k.up.a
  {
    var s := k.up.s;
    assert t == Mk(s, Sub(t, s), t.n, Red, t.a, Sub(t, k.s));
    ZipHalf(m, k, t);
    ZipPure(k, t, h);
    InnerDistinct(s, t.n, k.n, k.up.n, k.sib, Sub(t, s), Sub(t, k.s), k.up.sib, k.up.up, Red, t.a, k.c, k.a, k.up.c,
      k.up.a);
  }

  ghost function InnerResult(m: Mem, k: Ctx, t: Tree): Tree
    requires k.Step? && k.up.Step? && t.Bin? && k.n in m
  {
    Mk(k.up.s, k.sib, k.n, Red, m[k.n].aug, SetColor(Sub(t, k.up.s), Black))
  }

  lemma {:induction false} InnerDone(m: Mem, k: Ctx, t: Tree, h: nat, cb: Callbacks)
    requires RedParent(k) && IsBlack(k.up.sib) && InsertInv(k, t, h) && k.s != k.up.s
    requires k.n in m && HalfLinked(m, k.up.s, k.up.n, t.n, InnerResult(m, k, t), Sub(t, k.s), k.up.sib, k.up.up)
    requires m[k.up.n].color == Black && m[k.up.n].aug == k.up.a
    requires cb == Max ==> m[t.n].aug == k.a && m[k.n].aug == MaxWith(MaxWith(k.n.val, k.sib), Sub(t, k.up.s))
    ensures OuterReady(m, k.up.s, t.n, k.up.n, InnerResult(m, k, t), Sub(t, k.s), k.up.sib, k.up.up, h)
    ensures Keeps(Plug(k, t),
      Plug(k.up.up,
      Mk(k.up.s, Mk(k.up.s, InnerResult(m, k, t), t.n, Red, m[t.n].aug, Sub(t, k.s)), k.up.n, Black, k.up.a,
      k.up.sib)), cb)
  {
    var s := k.up.s;
    assert t == Mk(s, Sub(t, s), t.n, Red, t.a, Sub(t, k.s));
    ZipPure(k, t, h);
    InnerStep(s, t.n, k.n, k.up.n, k.sib, Sub(t, s), Sub(t, k.s), k.up.sib, k.up.up, h, cb, t.a, k.a, k.up.a,
      m[t.n].aug, m[k.n].aug);
  }

  /** Case 2, after which the violation is an outer one. */
  method RotateInnerCase(s: Side, node: Node, parent: Node, ghost root: Root, cb: Callbacks, ghost k: Ctx,
      ghost t: Tree, ghost h: nat, ghost S: set<Node>)
    returns (ghost x: Tree)
    requires RotateReady(Snap(S), k, t, h) && k.s != k.up.s && s == k.up.s && node == t.n && parent == k.n
    modifies root`rotations, S
    ensures root.rotations == old(root.rotations) + 1
    ensures OuterReady(Snap(S), s, node, k.up.n, x, Sub(t, k.s), k.up.sib, k.up.up, h)
    ensures Keeps(Plug(k, t),
      Plug(k.up.up, Mk(s, Mk(s, x, node, Red, node.aug, Sub(t, k.s)), k.up.n, Black, k.up.n.aug, k.up.sib)), cb)
  {
    InnerCase(Snap(S), k, t, h);
    ghost var g, o, x0, y, u, up := k.up.n, k.sib, Sub(t, s), Sub(t, k.s), k.up.sib, k.up.up;
    LiftInner(s, node, parent, g, cb, o, x0, y, u, up, root, S);
    x := InnerResult(Snap(S), k, t);
    InnerDone(Snap(S), k, t, h, cb);
  }

  ghost predicate Focus(m: Mem, root: Node?, k: Ctx, t: Tree, h: nat) {
    var balance := InsertInv(k, t, h);
    var heap := Zipper(m, k, t, null) && root == Apex(k, Top(t));
    var all := balance && heap;
    all
  }

  /** What the loop body may read off the heap, and why its unguarded reads are safe. */
  lemma {:induction false} FocusFlat(m: Mem, root: Node?, k: Ctx, t: Tree, h: nat)
    requires Focus(m, root, k, t, h)
    ensures t.n in m && m[t.n].parent == Above(k, null) && m[t.n].color == Red && m[t.n].Child(Left) == Top(t.l)
      && m[t.n].Child(Right) == Top(t.r)
    ensures k.Step? ==>
      k.n in m && m[k.n].parent == Above(k.up, null) && m[k.n].color == k.c && m[k.n].Child(k.s) == t.n
      && m[k.n].Child(k.s.Opp()) == Top(k.sib) && Top(k.sib) != t.n
    ensures k.Step? && k.c == Red ==>
      RedParent(k) && k.up.n in m && m[k.up.n].Child(k.up.s) == k.n && m[k.up.n].Child(k.up.s.Opp()) == Top(k.up.sib)
    ensures k.Step? && k.c == Red ==> root == Apex(k.up.up, k.up.n)
    ensures k.Step? && k.c == Red ==> Top(k.up.sib) != k.n && k.up.n != k.n && m[k.up.n].parent == Above(k.up.up, null)
    ensures k.Step? && k.c == Red && k.up.sib.Bin? ==>
      k.up.sib.n in m && m[k.up.sib.n].color == k.up.sib.c && k.up.sib.n != k.up.n
  {
    if k.Step? {
      assert RepC(m, k.up, k.n, null) && CDistinct(k.up);
      assert Apex(k, t.n) == Apex(k.up, k.n);
    }
  }

  lemma {:induction false} FocusDone(m: Mem, root: Node?, k: Ctx, t: Tree, h: nat)
    requires Focus(m, root, k, t, h) && BlackTop(k)
    ensures Whole(m, root, Plug(k, t))
  {
    PlugRep(m, k, t, null);
    PlugRB(k, t, h);
    PlugNodes(k, t);
  }

  lemma {:induction false} FocusRoot(m: Mem, m': Mem, root: Node?, k: Ctx, t: Tree, h: nat, cb: Callbacks)
    requires Focus(m, root, k, t, h) && k.Hole?
    requires t.n in m && t.n in m' && m'[t.n] == m[t.n].(parent := null, color := Black)
      && Agree(m, m', t.n, null, null, null)
    ensures Rebuilt(m', root, Plug(k, t), SetColor(t, Black), cb)
  {
    AdoptRep(m, m', t, null, null, Black, t.n, null, null, null);
    assert RB(SetColor(t, Black), h + 1);
  }

  lemma {:induction false} FocusFlip(m: Mem, m': Mem, root: Node?, k: Ctx, t: Tree, h: nat, cb: Callbacks)
    requires Focus(m, root, k, t, h) && RedParent(k) && !IsBlack(k.up.sib) && Flipped(m, m', k.n, k.up.sib.n, k.up.n)
    ensures Focus(m', root, k.up.up, FlipTree(k, t), h + 1) && Keeps(Plug(k, t), Plug(k.up.up, FlipTree(k, t)), cb)
    ensures FlipTree(k, t).n == k.up.n
  {
    FlipRep(m, m', k, t);
    FlipStep(k, t, h, cb);
    assert Apex(k, t.n) == Apex(k.up, k.n);
  }

  method BlackenRoot(node: Node, root: Root, ghost cb: Callbacks, ghost k: Ctx, ghost t: Tree, ghost h: nat,
      ghost S: set<Node>)
    requires Focus(Snap(S), root.node, k, t, h) && k.Hole? && node == t.n
    modifies S`parent, S`color
    ensures Rebuilt(Snap(S), root.node, Plug(k, t), SetColor(t, Black), cb)
  {
    ghost var m := Snap(S);
    FocusFlat(m, root.node, k, t, h);
    SetParentColor(node, null, Black);
    FocusRoot(m, Snap(S), root.node, k, t, h, cb);
  }

  /** Case 1, after which the loop goes on at the grandparent. */
  method FlipAndClimb(parent: Node, uncle: Node, gparent: Node, ghost root: Node?, ghost cb: Callbacks,
                      ghost k: Ctx, ghost t: Tree, ghost h: nat, ghost S: set<Node>)
    requires Focus(Snap(S), root, k, t, h) && RedParent(k) && !IsBlack(k.up.sib)
    requires parent == k.n && uncle == k.up.sib.n && gparent == k.up.n
    modifies S`parent, S`color
    ensures Focus(Snap(S), root, k.up.up, FlipTree(k, t), h + 1) && Keeps(Plug(k, t), Plug(k.up.up, FlipTree(k, t)), cb)
    ensures FlipTree(k, t).n == gparent && gparent.parent == Above(k.up.up, null)
  {
    ghost var m := Snap(S);
    FocusFlat(m, root, k, t, h);
    FlipColors(parent, uncle, gparent, S);
    FocusFlip(m, Snap(S), root, k, t, h, cb);
    FocusFlat(Snap(S), root, k.up.up, FlipTree(k, t), h + 1);
  }

  /** Cases 2 and 3, which end the loop. */
  method RotateAndStop(s: Side, node: Node, parent_: Node, gparent: Node, root: Root, cb: Callbacks,
                       ghost k: Ctx, ghost t: Tree, ghost h: nat, ghost S: set<Node>)
    returns (ghost tree: Tree)
    requires Focus(Snap(S), root.node, k, t, h) && RedParent(k) && IsBlack(k.up.sib)
    requires s == k.up.s && node == t.n && parent_ == k.n && gparent == k.up.n
    modifies root, S
    ensures Rebuilt(Snap(S), root.node, Plug(k, t), tree, cb)
    ensures root.rotations <= old(root.rotations) + 2
  {
    FocusFlat(Snap(S), root.node, k, t, h);
    var parent := parent_;
    var tmp := parent.Child(s.Opp());
    ghost var x, y := t, k.sib;
    if node == tmp {
      // Case 2: the node is an inner grandchild
      x := RotateInnerCase(s, node, parent, root, cb, k, t, h, S);
      y := Sub(t, k.s);
      parent := node;
      tmp := node.Child(s.Opp());
    } else {
      OuterCase(Snap(S), k, t, h);
    }
    // Case 3: the node is an outer grandchild
    tree := RotateOuter(s, parent, gparent, tmp, root, cb, x, y, k.up.sib, k.up.up, h, S);
  }

  /** The red parent is not the root, so the grandparent exists; its other child is the uncle. */
  method Uncle(parent: Node, ghost root: Node?, ghost k: Ctx, ghost t: Tree, ghost h: nat, ghost S: set<Node>)
    returns (gparent: Node, s: Side, uncle: Node?, red: bool)
    requires Focus(Snap(S), root, k, t, h) && parent == Above(k, null) && parent.color == Red
    ensures Focus(Snap(S), root, k, t, h)
    ensures RedParent(k) && gparent == k.up.n && s == k.up.s && uncle == Top(k.up.sib)
    ensures red <==> !IsBlack(k.up.sib)
  {
    FocusFlat(Snap(S), root, k, t, h);
    gparent := parent.parent;
    s := if parent != gparent.right then Left else Right;
    uncle := gparent.Child(s.Opp());
    red := uncle != null && uncle.color == Red;
  }

  /** One round of the loop: either the tree is done, or the fault moves up to the grandparent. */
  method InsertStep(node: Node, parent: Node?, root: Root, cb: Callbacks, ghost k: Ctx, ghost t: Tree, ghost h: nat,
      ghost S: set<Node>)
    returns (done: bool, up: Node, ghost tree: Tree)
    requires Focus(Snap(S), root.node, k, t, h) && t.n == node && parent == Above(k, null)
    modifies root, S
    ensures done ==> Rebuilt(Snap(S), root.node, Plug(k, t), tree, cb) && root.rotations <= old(root.rotations) + 2
    ensures !done ==> RedParent(k) && Focus(Snap(S), root.node, k.up.up, tree, h + 1) && tree.n == up
    ensures !done ==> up.parent == Above(k.up.up, null) && Keeps(Plug(k, t), Plug(k.up.up, tree), cb)
    ensures !done ==> root.rotations == old(root.rotations)
  {
    done, up := true, node;
    FocusFlat(Snap(S), root.node, k, t, h);
    if parent == null {
      BlackenRoot(node, root, cb, k, t, h, S);
      tree := SetColor(t, Black);
    } else if parent.color == Black {
      tree := Plug(k, t);
      FocusDone(Snap(S), root.node, k, t, h);
    } else {
      var gparent, s, tmp, red := Uncle(parent, root.node, k, t, h, S);
      if red {
        // Case 1: the uncle is red
        FlipAndClimb(parent, tmp, gparent, root.node, cb, k, t, h, S);
        done, up, tree := false, gparent, FlipTree(k, t);
      } else {
        tree := RotateAndStop(s, node, parent, gparent, root, cb, k, t, h, S);
      }
    }
  }

  lemma {:induction false} KeepsOn(t: Tree, t': Tree, t'': Tree, m: Mem, root: Node?, cb: Callbacks)
    requires Keeps(t, t', cb)
    ensures Keeps(t', t'', cb) ==> Keeps(t, t'', cb)
    ensures Rebuilt(m, root, t', t'', cb) ==> Rebuilt(m, root, t, t'', cb)
  {
  }

  /** `__rb_insert`.  Starting from a red node whose only possible fault is a red parent or
      being the root, the loop ends in a red-black tree with the same in-order sequence,
      after at most two rotations; and the `rotate` callbacks keep a tree of correct
      maxima correct. */
  method Insert(node_: Node, root: Root, cb: Callbacks, ghost k0: Ctx, ghost t0: Tree, ghost h0: nat,
      ghost S: set<Node>)
    returns (ghost tree: Tree)
    requires Focus(Snap(S), root.node, k0, t0, h0) && t0.n == node_
    modifies root, S
    ensures Rebuilt(Snap(S), root.node, Plug(k0, t0), tree, cb)
    ensures root.rotations <= old(root.rotations) + 2
  {
    var node := node_;
    ghost var k, t, h := k0, t0, h0;
    FocusFlat(Snap(S), root.node, k, t, h);
    var parent := node.parent;
    while true
      invariant Focus(Snap(S), root.node, k, t, h) && t.n == node && parent == Above(k, null)
      invariant Keeps(Plug(k0, t0), Plug(k, t), cb) && root.rotations == old(root.rotations)
      decreases k
    {
      var done;
      ghost var was := Plug(k, t);
      done, node, tree := InsertStep(node, parent, root, cb, k, t, h, S);
      if done {
        KeepsOn(Plug(k0, t0), was, tree, Snap(S), root.node, cb);
        return;
      }
      k, t, h := k.up.up, tree, h + 1;
      KeepsOn(Plug(k0, t0), was, Plug(k, t), Snap(S), root.node, cb);
      parent := node.parent;
    }
  }
}
