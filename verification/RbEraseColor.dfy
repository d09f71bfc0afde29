/**
 `____rb_erase_color`: the loop that restores equal black counts after a black node has
 been removed.  As in `RbInsert`, one body serves both mirror images; `s` is the side of
 `parent` on which the short subtree hangs.
 */
module RbEraseColor {
  import opened RbShape
  import opened RbBalance
  import opened RbPrimitives

  /** The loop invariant: paths through the focus are one black node short of what the
      context expects, and nothing else is wrong. */
  ghost predicate EraseInv(k: Ctx, t: Tree, h: nat) {
    var short := k.Step? && IsBlack(t) && RB(t, h) && RBC(k, h + 1) && ZDistinct(k, t);
    short
  }

  ghost predicate Short(m: Mem, root: Node?, k: Ctx, t: Tree, h: nat) {
    var heap := Zipper(m, k, t, null) && root == Apex(k, Top(t));
    var all := EraseInv(k, t, h) && heap;
    all
  }

  /** The subtree at the parent of the focus. */
  ghost function Family(k: Ctx, t: Tree): Tree
    requires k.Step?
  {
    Mk(k.s, t, k.n, k.c, k.a, k.sib)
  }

  /** What the loop body may read off the heap: the sibling is never null, and neither is
      a red sibling's child. */
  lemma {:induction false} ShortFlat(m: Mem, root: Node?, k: Ctx, t: Tree, h: nat)
    requires Short(m, root, k, t, h)
    ensures k.n in m && m[k.n].Child(k.s) == Top(t) && m[k.n].color == k.c && m[k.n].parent == Above(k.up, null)
    ensures k.sib.Bin? && k.sib.n in m && m[k.n].Child(k.s.Opp()) == k.sib.n && k.sib.n != Top(t) && k.sib.n != k.n
    ensures m[k.sib.n].color == k.sib.c && m[k.sib.n].Child(Left) == Top(k.sib.l)
      && m[k.sib.n].Child(Right) == Top(k.sib.r)
    ensures k.sib.c == Red ==> k.sib.l.Bin? && k.sib.r.Bin? && k.c == Black
    ensures root == Apex(k.up, k.n)
    ensures k.sib.l.Bin? ==> k.sib.l.n in m && m[k.sib.l.n].color == k.sib.l.c
    ensures k.sib.r.Bin? ==> k.sib.r.n in m && m[k.sib.r.n].color == k.sib.r.c
  {
    assert Apex(k, Top(t)) == Apex(k.up, k.n);
    assert Rep(m, k.sib, k.n);
    assert Rep(m, k.sib.l, k.sib.n) && Rep(m, k.sib.r, k.sib.n);
    assert k.sib.c == Red ==> RB(k.sib.l, h + 1) && RB(k.sib.r, h + 1);
  }

  // ------------------------------------------------- case 1: red sibling

  ghost function Case1Ctx(k: Ctx, ap: int, as_: int): Ctx
    requires k.Step? && k.sib.Bin?
  {
    Step(k.s, k.n, Red, ap, SetColor(Sub(k.sib, k.s), Black), Step(k.s, k.sib.n, k.c, as_, Sub(k.sib, k.s.Opp()), k.up))
  }

  lemma {:induction false} ShortHalf(m: Mem, root: Node?, k: Ctx, t: Tree, h: nat)
    requires Short(m, root, k, t, h) && k.sib.Bin?
    ensures HalfLinked(m, k.s.Opp(), k.n, k.sib.n, Sub(k.sib, k.s.Opp()), Sub(k.sib, k.s), t, k.up)
    ensures Pieces(k.sib.n, k.n, Sub(k.sib, k.s.Opp()), Sub(k.sib, k.s), t, k.up)
  {
    var so, w := k.s.Opp(), k.sib;
    assert w == Mk(so, Sub(w, so), w.n, w.c, w.a, Sub(w, k.s));
    assert Family(k, t) == Mk(so, w, k.n, k.c, k.a, t);
    assert Plug(k, t) == Plug(k.up, Family(k, t));
    PlugNodes(k, t);
    PlugNodes(k.up, Family(k, t));
    SplitPieces(so, w.n, k.n, Sub(w, so), Sub(w, k.s), t, k.up, w.c, w.a, k.c, k.a);
    RepMk(m, so, Sub(w, so), w.n, w.c, w.a, Sub(w, k.s), k.n);
  }

  /** After case 1 the same subtree is short, below a red parent with a black sibling. */
  lemma {:induction false} Case1Step(k: Ctx, t: Tree, h: nat, ap: int, as_: int, cb: Callbacks)
    requires EraseInv(k, t, h) && k.sib.Bin? && k.sib.c == Red
    requires cb == Max ==> as_ == k.a && ap == MaxWith(MaxWith(k.n.val, Sub(k.sib, k.s)), t)
    ensures EraseInv(Case1Ctx(k, ap, as_), t, h)
    ensures Keeps(Plug(k, t), Plug(Case1Ctx(k, ap, as_), t), cb)
    ensures Case1Ctx(k, ap, as_).sib.Bin? && Case1Ctx(k, ap, as_).sib.c == Black
  {
    var k1 := Case1Ctx(k, ap, as_);
    Case1RB(k, t, h, ap, as_);
    Case1Keeps(k, t, ap, as_, cb);
    PlugNodes(k, t);
    PlugNodes(k1, t);
    SameInorder(Plug(k, t), Plug(k1, t));
  }

  lemma {:induction false} Case1RB(k: Ctx, t: Tree, h: nat, ap: int, as_: int)
    requires k.Step? && IsBlack(t) && RB(t, h) && RBC(k, h + 1) && k.sib.Bin? && k.sib.c == Red
    ensures RBC(Case1Ctx(k, ap, as_), h + 1) && Sub(k.sib, k.s).Bin? && Sub(k.sib, k.s).c == Black
  {
    assert RB(k.sib.l, h + 1) && RB(k.sib.r, h + 1);
    assert RBC(Case1Ctx(k, ap, as_).up, h + 1);
  }

  lemma {:induction false} Case1Keeps(k: Ctx, t: Tree, ap: int, as_: int, cb: Callbacks)
    requires k.Step? && k.sib.Bin? && Sub(k.sib, k.s).Bin? && Sub(k.sib, k.s).c == Black
    requires cb == Max ==> as_ == k.a && ap == MaxWith(MaxWith(k.n.val, Sub(k.sib, k.s)), t)
    ensures Keeps(Plug(k, t), Plug(Case1Ctx(k, ap, as_), t), cb)
  {
    var so, w := k.s.Opp(), k.sib;
    var x, y, k1 := Sub(w, so), Sub(w, k.s), Case1Ctx(k, ap, as_);
    assert y == SetColor(y, Black);
    assert w == Mk(so, x, w.n, w.c, w.a, y);
    var G, L := Mk(so, w, k.n, k.c, k.a, t), Mk(so, x, w.n, k.c, as_, Mk(so, y, k.n, Red, ap, t));
    assert Plug(k, t) == Plug(k.up, G);
    assert Plug(k1, t) == Plug(k1.up, Mk(so, y, k.n, Red, ap, t)) == Plug(k.up, L);
    RotateOrder(so, x, w.n, y, k.n, t, w.c, w.a, k.c, k.a, k.c, as_, Red, ap);
    LiftAugOK(so, w.n, k.n, x, y, t, w.c, w.a, k.c, k.a, k.c, as_, Red, ap);
    KeepsPlug(k.up, G, L, cb);
  }

  lemma {:induction false} Case1Zip(m: Mem, root: Node?, k: Ctx, t: Tree, ap: int, as_: int)
    requires k.Step? && k.sib.Bin? && root == Apex(k.up, k.sib.n)
    requires LiftedIn(m, k.s.Opp(), k.sib.n, k.n, Sub(k.sib, k.s.Opp()), SetColor(Sub(k.sib, k.s), Black), t, k.up,
      k.c, as_, Red, ap)
    ensures Zipper(m, Case1Ctx(k, ap, as_), t, null) && root == Apex(Case1Ctx(k, ap, as_), Top(t))
  {
    var k1 := Case1Ctx(k, ap, as_);
    assert RepC(m, k1.up, k.n, null);
    assert Apex(k1, Top(t)) == Apex(k1.up, k.n) == Apex(k.up, k.sib.n);
  }

  /** Case 1: rotate at `parent`, lifting the red sibling. */
  method RotateRedSibling(s: Side, parent: Node, sibling: Node, root: Root, cb: Callbacks,
                          ghost k: Ctx, ghost t: Tree, ghost h: nat, ghost S: set<Node>)
    returns (tmp: Node, ghost k': Ctx)
    requires Short(Snap(S), root.node, k, t, h) && s == k.s && parent == k.n && k.sib.Bin? && sibling == k.sib.n
      && k.sib.c == Red
    modifies root, S
    ensures Short(Snap(S), root.node, k', t, h) && Keeps(Plug(k, t), Plug(k', t), cb)
    ensures k'.s == s && k'.n == parent && k'.c == Red && k'.sib.Bin? && tmp == k'.sib.n && k'.sib.c == Black
    ensures root.rotations == old(root.rotations) + 1
  {
    ShortFlat(Snap(S), root.node, k, t, h);
    ShortHalf(Snap(S), root.node, k, t, h);
    ghost var x, y := Sub(k.sib, s.Opp()), Sub(k.sib, s);
    tmp := sibling.Child(s);
    LiftRotate(cb, s.Opp(), sibling, parent, tmp, Black, Red, root, x, y, t, k.up, S);
    k' := Case1Ctx(k, parent.aug, sibling.aug);
    Case1Zip(Snap(S), root.node, k, t, parent.aug, sibling.aug);
    Case1Step(k, t, h, parent.aug, sibling.aug, cb);
  }

  // ------------------------------- case 2: black sibling with black children

  ghost predicate BlackChildren(w: Tree) {
    w.Bin? && IsBlack(w.l) && IsBlack(w.r)
  }

  /** The sibling has turned red and the parent, whatever it was, is black. */
  ghost predicate Lightened(m: Mem, m': Mem, parent: Node, sibling: Node) {
    && parent in m && sibling in m && m.Keys == m'.Keys
    && var up := m'[parent] == m[parent].(color := Black);
       var down := m'[sibling] == m[sibling].(parent := parent, color := Red);
       up && down && Agree(m, m', parent, sibling, null, null)
  }

  method Lighten(parent: Node, sibling: Node, ghost S: set<Node>)
    requires parent in S && sibling in S && parent != sibling
    modifies S`parent, S`color
    ensures Lightened(old(Snap(S)), Snap(S), parent, sibling)
  {
    SetParentColor(sibling, parent, Red);
    if parent.color == Red {
      parent.color := Black;
    }
  }

  ghost function LightTree(k: Ctx, t: Tree): Tree
    requires k.Step?
  {
    Mk(k.s, t, k.n, Black, k.a, SetColor(k.sib, Red))
  }

  lemma {:induction false} LightRep(m: Mem, m': Mem, k: Ctx, t: Tree)
    requires k.Step? && k.sib.Bin? && ZDistinct(k, t) && Zipper(m, k, t, null) && Lightened(m, m', k.n, k.sib.n)
    ensures Zipper(m', k.up, LightTree(k, t), null)
  {
    var p, w := k.n, k.sib;
    FrameRep(m, m', t, p, p, w.n, null, null);
    FrameRepC(m, m', k.up, p, null, p, w.n, null, null);
    AdoptRep(m, m', w, p, p, Red, p, w.n, null, null);
    RepMk(m', k.s, t, p, Black, k.a, SetColor(w, Red), Above(k.up, null));
  }

  /** Case 2 evens out the two subtrees of the parent; if the parent was red that is all,
      otherwise the whole family is now one black short. */
  lemma {:induction false} LightStep(k: Ctx, t: Tree, h: nat, cb: Callbacks)
    requires EraseInv(k, t, h) && k.sib.Bin? && k.sib.c == Black && BlackChildren(k.sib)
    ensures Keeps(Plug(k, t), Plug(k.up, LightTree(k, t)), cb) && ZDistinct(k.up, LightTree(k, t))
    ensures RB(LightTree(k, t), h + 1) && RBC(k.up, if k.c == Red then h + 1 else h + 2)
      && (k.c == Red ==> BlackTop(k.up))
  {
    var F, L, w, w' := Family(k, t), LightTree(k, t), k.sib, SetColor(k.sib, Red);
    assert RB(w', h);
    assert Inorder(w) == Inorder(w') && AugOK(w) == AugOK(w');
    AugMk(k.s, t, k.n, k.c, k.a, w);
    AugMk(k.s, t, k.n, Black, k.a, w');
    assert Plug(k, t) == Plug(k.up, F);
    KeepsPlug(k.up, F, L, cb);
    PlugNodes(k, t);
    PlugNodes(k.up, L);
    SameInorder(Plug(k, t), Plug(k.up, L));
  }

  lemma {:induction false} LightDone(m: Mem, m': Mem, root: Node?, k: Ctx, t: Tree, h: nat, cb: Callbacks)
    requires Short(m, root, k, t, h) && k.sib.Bin? && k.sib.c == Black && BlackChildren(k.sib)
      && Lightened(m, m', k.n, k.sib.n)
    ensures k.c == Red || k.up.Hole? ==> Rebuilt(m', root, Plug(k, t), Plug(k.up, LightTree(k, t)), cb)
    ensures k.c == Black && k.up.Step? ==>
      Short(m', root, k.up, LightTree(k, t), h + 1) && Keeps(Plug(k, t), Plug(k.up, LightTree(k, t)), cb)
    ensures Top(LightTree(k, t)) == k.n
  {
    var L := LightTree(k, t);
    assert Apex(k, Top(t)) == Apex(k.up, k.n);
    LightRep(m, m', k, t);
    LightStep(k, t, h, cb);
    if k.c == Red || k.up.Hole? {
      PlugRB(k.up, L, h + 1);
      PlugRep(m', k.up, L, null);
      PlugNodes(k.up, L);
    }
  }

  method LightenParent(parent: Node, sibling: Node, root: Root, ghost cb: Callbacks, ghost k: Ctx, ghost t: Tree,
      ghost h: nat, ghost S: set<Node>)
    returns (done: bool)
    requires Short(Snap(S), root.node, k, t, h) && parent == k.n && k.sib.Bin? && sibling == k.sib.n
      && k.sib.c == Black && BlackChildren(k.sib)
    modifies S`parent, S`color
    ensures done <==> k.c == Red || k.up.Hole?
    ensures done ==> Rebuilt(Snap(S), root.node, Plug(k, t), Plug(k.up, LightTree(k, t)), cb)
    ensures !done ==>
      Short(Snap(S), root.node, k.up, LightTree(k, t), h + 1) && Keeps(Plug(k, t), Plug(k.up, LightTree(k, t)), cb)
    ensures Top(LightTree(k, t)) == k.n && parent.parent == Above(k.up, null)
  {
    ghost var m := Snap(S);
    ShortFlat(m, root.node, k, t, h);
    done := parent.color == Red || parent.parent == null;
    Lighten(parent, sibling, S);
    LightDone(m, Snap(S), root.node, k, t, h, cb);
  }

  // --------------------------------------- case 3: red nephew on the near side

  ghost function WithChild(c: Cell, s: Side, x: Node?): Cell {
    if s == Left then c.(left := x) else c.(right := x)
  }

  /** `nephew` has been rotated above `sibling`, whose own parent pointer is now stale. */
  ghost predicate NephewRotated(m: Mem, m': Mem, s: Side, parent: Node, sibling: Node, nephew: Node, tmp: Node?) {
    && {parent, sibling, nephew} + Opt(tmp) <= m.Keys && m.Keys == m'.Keys
    && var low := m'[sibling] == WithChild(m[sibling], s, tmp);
       var high := m'[nephew] == WithChild(m[nephew], s.Opp(), sibling);
       var top := m'[parent] == WithChild(m[parent], s.Opp(), nephew);
       var moved := tmp != null ==> m'[tmp] == m[tmp].(parent := sibling, color := Black);
       low && high && top && moved && Agree(m, m', parent, sibling, nephew, tmp)
  }

  /** The pointer updates of case 3 are a rotation too. */
  method RotateNephewLinks(s: Side, parent: Node, sibling: Node, nephew: Node, tmp: Node?, ghost root: Root)
    requires parent != sibling && parent != nephew && sibling != nephew && tmp !in {parent, sibling, nephew}
    modifies {parent, sibling, nephew}`left, {parent, sibling, nephew}`right, Opt(tmp)`parent, Opt(tmp)`color,
      root`rotations
    ensures sibling.Content() == WithChild(old(sibling.Content()), s, tmp)
    ensures nephew.Content() == WithChild(old(nephew.Content()), s.Opp(), sibling)
    ensures parent.Content() == WithChild(old(parent.Content()), s.Opp(), nephew)
    ensures tmp != null ==> tmp.Content() == old(tmp.Content()).(parent := sibling, color := Black)
    ensures root.rotations == old(root.rotations) + 1
  {
    root.rotations := root.rotations + 1;
    sibling.SetChild(s, tmp);
    nephew.SetChild(s.Opp(), sibling);
    parent.SetChild(s.Opp(), nephew);
    SetParentColor(tmp, sibling, Black);
  }

  method RotateNephew(s: Side, parent: Node, sibling: Node, nephew: Node, tmp: Node?, ghost root: Root,
      ghost S: set<Node>)
    requires {parent, sibling, nephew} + Opt(tmp) <= S
    requires parent != sibling && parent != nephew && sibling != nephew && tmp !in {parent, sibling, nephew}
    modifies root`rotations, S`parent, S`color, S`left, S`right
    ensures NephewRotated(old(Snap(S)), Snap(S), s, parent, sibling, nephew, tmp)
    ensures root.rotations == old(root.rotations) + 1
  {
    RotateNephewLinks(s, parent, sibling, nephew, tmp, root);
  }

  /** Half-linked as before case 4: `x`, outside `p`, may still have parent `q`. */
  ghost predicate HalfLoose(m: Mem, s: Side, g: Node, p: Node, x: Tree, q: Node?, y: Tree, u: Tree, up: Ctx) {
    var pieces := RepC(m, up, g, null) && Rep(m, u, g) && Rep(m, x, q) && Rep(m, y, p);
    var atG := g in m && m[g].parent == Above(up, null) && m[g].Child(s.Opp()) == Top(u);
    var atP := p in m && m[p].Child(s) == Top(x) && m[p].Child(s.Opp()) == Top(y);
    var all := pieces && atG && atP;
    all
  }

  /** The nodes case 3 touches are apart from the pieces it moves. */
  ghost predicate NephewPieces(p: Node, w: Node, n: Node, a: Tree, b: Tree, r: Tree, t: Tree, up: Ctx) {
    var nodes := p != w && p != n && w != n && Off(p, b) && Off(w, b) && Off(n, b) && Unique(b);
    var trees := NotIn(p, a, r, t, up) && NotIn(w, a, r, t, up) && NotIn(n, a, r, t, up) && NotIn(Top(b), a, r, t, up);
    var all := nodes && trees;
    all
  }

  /** `w` is the sibling, `n` its near child with subtrees `a` (near) and `b`, `r` its far subtree. */
  ghost predicate NephewIn(m: Mem, s: Side, p: Node, w: Node, n: Node, a: Tree, b: Tree, r: Tree, t: Tree, up: Ctx) {
    var pieces := RepC(m, up, p, null) && Rep(m, t, p) && Rep(m, r, w) && Rep(m, a, n) && Rep(m, b, n);
    var atP := p in m && m[p].parent == Above(up, null) && m[p].Child(s) == Top(t);
    var atW := w in m && m[w] == MkCell(s, p, Black, n, Top(r), m[w].aug);
    var atN := n in m && m[n].Child(s) == Top(a) && m[n].Child(s.Opp()) == Top(b);
    var all := pieces && atP && atW && atN;
    all
  }

  lemma {:induction false} NephewRep(m: Mem, m': Mem, s: Side, p: Node, w: Node, n: Node, a: Tree, b: Tree, r: Tree,
      t: Tree, up: Ctx)
    requires NephewPieces(p, w, n, a, b, r, t, up) && NephewIn(m, s, p, w, n, a, b, r, t, up)
      && NephewRotated(m, m', s, p, w, n, Top(b))
    ensures HalfLoose(m', s.Opp(), p, n, Mk(s, SetColor(b, Black), w, Black, m'[w].aug, r), p, a, t, up)
    ensures m'[p].color == m[p].color && m'[p].aug == m[p].aug && m'[w].aug == m[w].aug && m'[n].aug == m[n].aug
  {
    NephewFrame(m, m', s, p, w, n, a, b, r, t, up);
    RepMk(m', s, SetColor(b, Black), w, Black, m[w].aug, r, p);
  }

  lemma {:induction false} NephewFrame(m: Mem, m': Mem, s: Side, p: Node, w: Node, n: Node, a: Tree, b: Tree, r: Tree,
      t: Tree, up: Ctx)
    requires NephewPieces(p, w, n, a, b, r, t, up) && NephewIn(m, s, p, w, n, a, b, r, t, up)
      && NephewRotated(m, m', s, p, w, n, Top(b))
    ensures RepC(m', up, p, null) && Rep(m', t, p) && Rep(m', r, w) && Rep(m', a, n) && Rep(m', SetColor(b, Black), w)
  {
    FrameRepC(m, m', up, p, null, p, w, n, Top(b));
    FrameRep(m, m', t, p, p, w, n, Top(b));
    FrameRep(m, m', r, w, p, w, n, Top(b));
    FrameRep(m, m', a, n, p, w, n, Top(b));
    AdoptRep(m, m', b, n, w, Black, p, w, n, Top(b));
  }

  lemma {:induction false} NephewStart(m: Mem, s: Side, p: Node, w: Node, n: Node, a: Tree, b: Tree, r: Tree, t: Tree,
      up: Ctx)
    requires NephewPieces(p, w, n, a, b, r, t, up) && NephewIn(m, s, p, w, n, a, b, r, t, up)
    ensures {p, w, n} + Opt(Top(b)) <= m.Keys && Top(b) !in {p, w, n} && p != w && p != n && w != n
    ensures m[n].Child(s.Opp()) == Top(b)
  {
  }

  /** Storing new augmented values at the nephew and the sibling, in that half-linked state. */
  lemma {:induction false} NephewAug(m: Mem, m': Mem, s: Side, p: Node, w: Node, n: Node, a: Tree, b: Tree, r: Tree,
      t: Tree, up: Ctx)
    requires NephewPieces(p, w, n, a, b, r, t, up) && OnlyAug(m, m', n, w)
    requires w in m && HalfLoose(m, s.Opp(), p, n, Mk(s, b, w, Black, m[w].aug, r), p, a, t, up)
    ensures HalfLoose(m', s.Opp(), p, n, Mk(s, b, w, Black, m'[w].aug, r), p, a, t, up)
    ensures m'[p] == m[p]
  {
    RepMk(m, s, b, w, Black, m[w].aug, r, p);
    FrameRepC(m, m', up, p, null, n, w, null, null);
    FrameRep(m, m', t, p, n, w, null, null);
    FrameRep(m, m', r, w, n, w, null, null);
    FrameRep(m, m', a, n, n, w, null, null);
    FrameRep(m, m', b, w, n, w, null, null);
    RepMk(m', s, b, w, Black, m'[w].aug, r, p);
  }

  lemma {:induction false} NephewFlat(m: Mem, s: Side, p: Node, w: Node, n: Node, a: Tree, b: Tree, r: Tree, t: Tree,
      up: Ctx)
    requires NephewPieces(p, w, n, a, b, r, t, up)
    requires w in m && HalfLoose(m, s.Opp(), p, n, Mk(s, b, w, Black, m[w].aug, r), p, a, t, up)
    ensures {n, w} + Opt(m[w].left) + Opt(m[w].right) <= m.Keys && m[w].left !in {n, w} && m[w].right !in {n, w}
    ensures MaxStored(m, MaxStored(m, w.val, m[w].left), m[w].right) == MaxWith(MaxWith(w.val, b), r)
  {
    RepMk(m, s, b, w, Black, m[w].aug, r, p);
  }

  method RaiseNephew(s: Side, parent: Node, sibling: Node, nephew: Node,
                     ghost a: Tree, ghost b: Tree, ghost r: Tree, ghost t: Tree, ghost up: Ctx, ghost root: Root,
                     ghost S: set<Node>)
    requires NephewPieces(parent, sibling, nephew, a, b, r, t, up)
      && NephewIn(Snap(S), s, parent, sibling, nephew, a, b, r, t, up)
    modifies root`rotations, S`parent, S`color, S`left, S`right
    ensures HalfLoose(Snap(S), s.Opp(), parent, nephew, Mk(s, SetColor(b, Black), sibling, Black, sibling.aug, r),
      parent, a, t, up)
    ensures parent.color == old(parent.color) && root.rotations == old(root.rotations) + 1
  {
    ghost var m := Snap(S);
    NephewStart(m, s, parent, sibling, nephew, a, b, r, t, up);
    RotateNephew(s, parent, sibling, nephew, nephew.Child(s.Opp()), root, S);
    NephewRep(m, Snap(S), s, parent, sibling, nephew, a, b, r, t, up);
  }

  method RaiseNephewAug(s: Side, ghost parent: Node, sibling: Node, nephew: Node, cb: Callbacks,
                        ghost a: Tree, ghost b: Tree, ghost r: Tree, ghost t: Tree, ghost up: Ctx, ghost S: set<Node>)
    requires NephewPieces(parent, sibling, nephew, a, b, r, t, up)
    requires HalfLoose(Snap(S), s.Opp(), parent, nephew, Mk(s, b, sibling, Black, sibling.aug, r), parent, a, t, up)
    modifies S`aug
    ensures HalfLoose(Snap(S), s.Opp(), parent, nephew, Mk(s, b, sibling, Black, sibling.aug, r), parent, a, t, up)
    ensures parent.aug == old(parent.aug)
    ensures cb == Max ==> nephew.aug == old(sibling.aug) && sibling.aug == MaxWith(MaxWith(sibling.val, b), r)
  {
    ghost var m := Snap(S);
    RepMk(m, s, b, sibling, Black, sibling.aug, r, parent);
    NephewFlat(m, s, parent, sibling, nephew, a, b, r, t, up);
    AugmentRotate(cb, sibling, nephew, S);
    NephewAug(m, Snap(S), s, parent, sibling, nephew, a, b, r, t, up);
  }

  /** The links and the callback of case 3. */
  method LiftNephew(s: Side, parent: Node, sibling: Node, nephew: Node, cb: Callbacks,
                    ghost a: Tree, ghost b: Tree, ghost r: Tree, ghost t: Tree, ghost up: Ctx, ghost root: Root,
                    ghost S: set<Node>)
    requires NephewPieces(parent, sibling, nephew, a, b, r, t, up)
      && NephewPieces(parent, sibling, nephew, a, SetColor(b, Black), r, t, up)
    requires NephewIn(Snap(S), s, parent, sibling, nephew, a, b, r, t, up)
    modifies root`rotations, S
    ensures root.rotations == old(root.rotations) + 1
    ensures HalfLoose(Snap(S), s.Opp(), parent, nephew, Mk(s, SetColor(b, Black), sibling, Black, sibling.aug, r),
      parent, a, t, up)
    ensures parent.color == old(parent.color) && parent.aug == old(parent.aug)
    ensures cb == Max ==>
      nephew.aug == old(sibling.aug) && sibling.aug == MaxWith(MaxWith(sibling.val, SetColor(b, Black)), r)
  {
    RaiseNephew(s, parent, sibling, nephew, a, b, r, t, up, root, S);
    RaiseNephewAug(s, parent, sibling, nephew, cb, a, SetColor(b, Black), r, t, up, S);
  }

  // ------------------------------------------ case 4: red nephew on the far side

  lemma {:induction false} AdoptOuter(m: Mem, m': Mem, s: Side, g: Node, p: Node, x: Tree, q: Node?, y: Tree, u: Tree,
      up: Ctx)
    requires Pieces(p, g, x, y, u, up) && x.Bin? && HalfLoose(m, s, g, p, x, q, y, u, up)
    requires Adopted(m, m', x, p, Black) && Agree(m, m', x.n, null, null, null)
    ensures Pieces(p, g, SetColor(x, Black), y, u, up) && HalfLinked(m', s, g, p, SetColor(x, Black), y, u, up)
    ensures m'[g] == m[g] && m'[p] == m[p]
  {
    assert Nodes(SetColor(x, Black)) == Nodes(x);
    assert g != x.n && p != x.n;
    FrameRepC(m, m', up, g, null, x.n, null, null, null);
    FrameRep(m, m', u, g, x.n, null, null, null);
    FrameRep(m, m', y, p, x.n, null, null, null);
    AdoptRep(m, m', x, q, p, Black, x.n, null, null, null);
  }

  /** Balance, distinctness and heap before case 4, with `p` about to be lifted above `g`. */
  ghost predicate LastReady(m: Mem, s: Side, p: Node, cp: Color, g: Node, c: Color, x: Tree, q: Node?, y: Tree,
      u: Tree, up: Ctx, h: nat) {
    && p in m && g in m && m[g].color == c && LastPure(s, p, cp, m[p].aug, g, c, m[g].aug, x, y, u, up, h)
    && HalfLoose(m, s, g, p, x, q, y, u, up)
  }

  ghost predicate LastPure(s: Side, p: Node, cp: Color, ap: int, g: Node, c: Color, ag: int, x: Tree, y: Tree,
      u: Tree, up: Ctx, h: nat) {
    var heights := x.Bin? && RB(SetColor(x, Black), h + 1) && RB(y, h) && RB(u, h);
    var context := RBC(up, if c == Red then h + 1 else h + 2) && (c == Red ==> BlackTop(up));
    var distinct := ZDistinct(up, Mk(s, Mk(s, x, p, cp, ap, y), g, c, ag, u));
    var all := heights && context && distinct;
    all
  }

  lemma {:induction false} LastStep(s: Side, p: Node, g: Node, x: Tree, y: Tree, u: Tree, up: Ctx, h: nat,
      cb: Callbacks,
                                    cp: Color, ap: int, c: Color, ag: int, ap': int, ag': int)
    requires x.Bin? && RB(SetColor(x, Black), h + 1) && RB(y, h) && RB(u, h)
    requires RBC(up, if c == Red then h + 1 else h + 2) && (c == Red ==> BlackTop(up))
    requires cb == Max ==> ap' == ag && ag' == MaxWith(MaxWith(g.val, y), u)
    ensures RBTree(Plug(up, Lifted(s, p, g, SetColor(x, Black), y, u, c, ap', Black, ag')))
    ensures Keeps(Plug(up, Mk(s, Mk(s, x, p, cp, ap, y), g, c, ag, u)),
      Plug(up, Lifted(s, p, g, SetColor(x, Black), y, u, c, ap', Black, ag')), cb)
  {
    var x' := SetColor(x, Black);
    var G, G' := Mk(s, Mk(s, x, p, cp, ap, y), g, c, ag, u), Mk(s, Mk(s, x', p, cp, ap, y), g, c, ag, u);
    var L := Lifted(s, p, g, x', y, u, c, ap', Black, ag');
    assert RB(Mk(s, y, g, Black, ag', u), h + 1);
    PlugRB(up, L, if c == Red then h + 1 else h + 2);
    RecolorOuter(s, p, g, x, y, u, cp, ap, c, ag);
    RotateOrder(s, x', p, y, g, u, cp, ap, c, ag, c, ap', Black, ag');
    LiftAugOK(s, p, g, x', y, u, cp, ap, c, ag, c, ap', Black, ag');
    KeepsPlug(up, G, L, cb);
  }

  lemma {:induction false} RecolorOuter(s: Side, p: Node, g: Node, x: Tree, y: Tree, u: Tree, cp: Color, ap: int,
      c: Color, ag: int)
    ensures var G, G' :=
      Mk(s, Mk(s, x, p, cp, ap, y), g, c, ag, u), Mk(s, Mk(s, SetColor(x, Black), p, cp, ap, y), g, c, ag, u);
      
            Inorder(G) == Inorder(G') && AugOK(G) == AugOK(G')
  {
    var x' := SetColor(x, Black);
    var P, P' := Mk(s, x, p, cp, ap, y), Mk(s, x', p, cp, ap, y);
    assert Inorder(x) == Inorder(x') && AugOK(x) == AugOK(x');
    AugMk(s, x, p, cp, ap, y);
    AugMk(s, x', p, cp, ap, y);
    AugMk(s, P, g, c, ag, u);
    AugMk(s, P', g, c, ag, u);
  }

  lemma {:induction false} LastDone(m: Mem, root: Node?, s: Side, p: Node, g: Node, x: Tree, y: Tree, u: Tree,
      up: Ctx, h: nat, cb: Callbacks,
                                    cp: Color, ap: int, c: Color, ag: int)
    requires LastPure(s, p, cp, ap, g, c, ag, x, y, u, up, h) && root == Apex(up, p)
    requires p in m && g in m && LiftedIn(m, s, p, g, SetColor(x, Black), y, u, up, c, m[p].aug, Black, m[g].aug)
    requires cb == Max ==> m[p].aug == ag && m[g].aug == MaxWith(MaxWith(g.val, y), u)
    ensures Rebuilt(m, root, Plug(up, Mk(s, Mk(s, x, p, cp, ap, y), g, c, ag, u)),
                    Plug(up, Lifted(s, p, g, SetColor(x, Black), y, u, c, m[p].aug, Black, m[g].aug)), cb)
  {
    var x' := SetColor(x, Black);
    var G, L := Mk(s, Mk(s, x, p, cp, ap, y), g, c, ag, u), Lifted(s, p, g, x', y, u, c, m[p].aug, Black, m[g].aug);
    LiftedRep(m, s, p, g, x', y, u, up, c, m[p].aug, Black, m[g].aug);
    LastStep(s, p, g, x, y, u, up, h, cb, cp, ap, c, ag, m[p].aug, m[g].aug);
    PlugRep(m, up, L, null);
    PlugNodes(up, G);
    SameInorder(Plug(up, G), Plug(up, L));
  }

  /** Case 4: rotate at `parent` and recolour. */
  method RotateSibling(s: Side, parent: Node, sibling: Node, tmp1: Node, root: Root, cb: Callbacks, ghost cp: Color,
      ghost c: Color,
                       ghost x: Tree, ghost q: Node?, ghost y: Tree, ghost u: Tree, ghost up: Ctx, ghost h: nat,
                       ghost S: set<Node>)
    returns (ghost tree: Tree)
    requires LastReady(Snap(S), s, sibling, cp, parent, c, x, q, y, u, up, h) && tmp1 == Top(x)
      && root.node == Apex(up, parent)
    modifies root, S
    ensures Rebuilt(Snap(S), root.node,
      old(Plug(up, Mk(s, Mk(s, x, sibling, cp, sibling.aug, y), parent, c, parent.aug, u))), tree, cb)
    ensures root.rotations == old(root.rotations) + 1
  {
    ghost var ap, ag, x' := sibling.aug, parent.aug, SetColor(x, Black);
    SplitPieces(s, sibling, parent, x, y, u, up, cp, ap, c, ag);
    AdoptFar(s, parent, sibling, tmp1, x, q, y, u, up, S);
    LiftSibling(s, parent, sibling, root, cb, c, x', y, u, up, S);
    tree := Plug(up, Lifted(s, sibling, parent, x', y, u, c, sibling.aug, Black, parent.aug));
    LastDone(Snap(S), root.node, s, sibling, parent, x, y, u, up, h, cb, cp, ap, c, ag);
  }

  method LiftSibling(s: Side, parent: Node, sibling: Node, root: Root, cb: Callbacks, ghost c: Color,
                     ghost x: Tree, ghost y: Tree, ghost u: Tree, ghost up: Ctx, ghost S: set<Node>)
    requires Pieces(sibling, parent, x, y, u, up) && HalfLinked(Snap(S), s, parent, sibling, x, y, u, up)
    requires root.node == Apex(up, parent) && parent.color == c
    modifies root, S
    ensures LiftedIn(Snap(S), s, sibling, parent, x, y, u, up, c, sibling.aug, Black, parent.aug)
      && root.node == Apex(up, sibling) && root.rotations == old(root.rotations) + 1
    ensures cb == Max ==> sibling.aug == old(parent.aug) && parent.aug == MaxWith(MaxWith(parent.val, y), u)
  {
    LastStart(Snap(S), s, parent, sibling, x, y, u, up);
    var tmp2 := sibling.Child(s.Opp());
    LiftLinks(s, sibling, parent, tmp2, if tmp2 != null then tmp2.color else Black, Black, root, x, y, u, up, S);
    LiftAug(cb, s, sibling, parent, x, y, u, up, c, Black, S);
  }

  method AdoptFar(s: Side, ghost parent: Node, sibling: Node, tmp1: Node,
                  ghost x: Tree, ghost q: Node?, ghost y: Tree, ghost u: Tree, ghost up: Ctx, ghost S: set<Node>)
    requires Pieces(sibling, parent, x, y, u, up) && HalfLoose(Snap(S), s, parent, sibling, x, q, y, u, up) && x.Bin?
      && tmp1 == x.n
    modifies S`parent, S`color
    ensures Pieces(sibling, parent, SetColor(x, Black), y, u, up)
      && HalfLinked(Snap(S), s, parent, sibling, SetColor(x, Black), y, u, up)
    ensures parent.color == old(parent.color) && parent.aug == old(parent.aug)
  {
    ghost var m := Snap(S);
    SetParentColor(tmp1, sibling, Black);
    AdoptOuter(m, Snap(S), s, parent, sibling, x, q, y, u, up);
  }

  lemma {:induction false} LastStart(m: Mem, s: Side, g: Node, p: Node, x: Tree, y: Tree, u: Tree, up: Ctx)
    requires HalfLinked(m, s, g, p, x, y, u, up)
    ensures p in m && m[p].Child(s.Opp()) == Top(y) && (y.Bin? ==> y.n in m && m[y.n].color == y.c)
    ensures y.Bin? ==> SetColor(y, y.c) == y
  {
  }

  // -------------------------------------------------------------- the loop

  ghost function Near(k: Ctx): Tree
    requires k.Step? && k.sib.Bin?
  {
    Sub(k.sib, k.s)
  }

  ghost function Far(k: Ctx): Tree
    requires k.Step? && k.sib.Bin?
  {
    Sub(k.sib, k.s.Opp())
  }

  lemma {:induction false} FamilyOf(k: Ctx, t: Tree, h: nat)
    requires EraseInv(k, t, h) && k.sib.Bin? && k.sib.c == Black
    ensures Plug(k, t) == Plug(k.up, Mk(k.s.Opp(), k.sib, k.n, k.c, k.a, t))
      && ZDistinct(k.up, Mk(k.s.Opp(), k.sib, k.n, k.c, k.a, t))
    ensures k.sib == Mk(k.s.Opp(), Far(k), k.sib.n, Black, k.sib.a, Near(k))
      && k.sib == Mk(k.s, Near(k), k.sib.n, Black, k.sib.a, Far(k))
    ensures RB(Near(k), h) && RB(Far(k), h) && RB(t, h)
    ensures RBC(k.up, if k.c == Red then h + 1 else h + 2) && (k.c == Red ==> BlackTop(k.up))
  {
    var F := Mk(k.s.Opp(), k.sib, k.n, k.c, k.a, t);
    assert F == Family(k, t);
    PlugNodes(k, t);
    PlugNodes(k.up, F);
  }

  lemma {:induction false} FarCase(m: Mem, root: Node?, k: Ctx, t: Tree, h: nat)
    requires Short(m, root, k, t, h) && k.sib.Bin? && k.sib.c == Black && !IsBlack(Far(k))
    ensures LastReady(m, k.s.Opp(), k.sib.n, Black, k.n, k.c, Far(k), k.sib.n, Near(k), t, k.up, h)
    ensures m[k.n].aug == k.a && m[k.sib.n].aug == k.sib.a
    ensures Plug(k, t)
      == Plug(k.up, Mk(k.s.Opp(), Mk(k.s.Opp(), Far(k), k.sib.n, Black, k.sib.a, Near(k)), k.n, k.c, k.a, t))
  {
    ShortHalf(m, root, k, t, h);
    FamilyOf(k, t, h);
    assert RB(SetColor(Far(k), Black), h + 1);
  }

  /** Near nephew red, far nephew black. */
  ghost predicate NearRed(k: Ctx) {
    k.Step? && k.sib.Bin? && k.sib.c == Black && IsBlack(Far(k)) && !IsBlack(Near(k))
  }

  lemma {:induction false} NearCase(m: Mem, root: Node?, k: Ctx, t: Tree, h: nat)
    requires Short(m, root, k, t, h) && NearRed(k)
    ensures var n := Near(k); NephewIn(m, k.s, k.n, k.sib.n, n.n, Sub(n, k.s), Sub(n, k.s.Opp()), Far(k), t, k.up)
    ensures m[k.n].aug == k.a && m[k.n].color == k.c && m[k.sib.n].aug == k.sib.a && m[Near(k).n].aug == Near(k).a
  {
    var n, w := Near(k), k.sib;
    assert Rep(m, w, k.n);
    assert Rep(m, n, w.n) && Rep(m, Far(k), w.n);
  }

  lemma {:induction false} NearPieces(k: Ctx, t: Tree, h: nat)
    requires EraseInv(k, t, h) && NearRed(k)
    ensures var n := Near(k); NephewPieces(k.n, k.sib.n, n.n, Sub(n, k.s), Sub(n, k.s.Opp()), Far(k), t, k.up)
  {
    var n, w, p := Near(k), k.sib, k.n;
    assert Distinct(w) && Distinct(n) && Distinct(Sub(n, k.s.Opp()));
    assert Nodes(w) == Nodes(n) + {w.n} + Nodes(Far(k));
    assert Nodes(n) == Nodes(Sub(n, k.s)) + {n.n} + Nodes(Sub(n, k.s.Opp()));
  }

  ghost function NearResult(m: Mem, k: Ctx): Tree
    requires NearRed(k) && k.sib.n in m
  {
    Mk(k.s, SetColor(Sub(Near(k), k.s.Opp()), Black), k.sib.n, Black, m[k.sib.n].aug, Far(k))
  }

  /** Case 3 turns a red near nephew into a red far nephew. */
  lemma {:induction false} NearStep(k: Ctx, t: Tree, h: nat, cb: Callbacks, an: int, aw: int)
    requires EraseInv(k, t, h) && NearRed(k)
    requires cb == Max ==> an == k.sib.a && aw == MaxWith(MaxWith(k.sib.n.val, Sub(Near(k), k.s.Opp())), Far(k))
    ensures var so, n := k.s.Opp(), Near(k);
            var x := Mk(k.s, SetColor(Sub(n, so), Black), k.sib.n, Black, aw, Far(k));
            && LastPure(so, n.n, Red, an, k.n, k.c, k.a, x, Sub(n, k.s), t, k.up, h)
            && Keeps(Plug(k, t), Plug(k.up, Mk(so, Mk(so, x, n.n, Red, an, Sub(n, k.s)), k.n, k.c, k.a, t)), cb)
  {
    var s, so, n, w := k.s, k.s.Opp(), Near(k), k.sib;
    var a, b, r := Sub(n, s), Sub(n, so), Far(k);
    FamilyOf(k, t, h);
    assert RB(a, h) && RB(b, h) && IsBlack(b);
    assert SetColor(b, Black) == b && n == Mk(s, a, n.n, Red, n.a, b);
    var x := Mk(s, b, w.n, Black, aw, r);
    assert RB(x, h + 1) && SetColor(x, Black) == x;
    var w' := Mk(s, a, n.n, Red, an, x);
    assert w' == Mk(so, x, n.n, Red, an, a);
    NearKeeps(k, t, cb, an, aw, a, b, w');
    PlugNodes(k.up, Mk(so, w, k.n, k.c, k.a, t));
    PlugNodes(k.up, Mk(so, w', k.n, k.c, k.a, t));
    SameInorder(Plug(k, t), Plug(k.up, Mk(so, w', k.n, k.c, k.a, t)));
  }

  lemma {:induction false} NearKeeps(k: Ctx, t: Tree, cb: Callbacks, an: int, aw: int, a: Tree, b: Tree, w': Tree)
    requires NearRed(k) && Near(k) == Mk(k.s, a, Near(k).n, Red, Near(k).a, b)
      && Plug(k, t) == Plug(k.up, Mk(k.s.Opp(), k.sib, k.n, k.c, k.a, t))
    requires k.sib == Mk(k.s, Near(k), k.sib.n, Black, k.sib.a, Far(k))
      && w' == Mk(k.s, a, Near(k).n, Red, an, Mk(k.s, b, k.sib.n, Black, aw, Far(k)))
    requires cb == Max ==> an == k.sib.a && aw == MaxWith(MaxWith(k.sib.n.val, b), Far(k))
    ensures Keeps(Plug(k, t), Plug(k.up, Mk(k.s.Opp(), w', k.n, k.c, k.a, t)), cb)
  {
    var s, so, n, w, r := k.s, k.s.Opp(), Near(k), k.sib, Far(k);
    RotateOrder(s, a, n.n, b, w.n, r, Red, n.a, Black, w.a, Red, an, Black, aw);
    LiftAugOK(s, n.n, w.n, a, b, r, Red, n.a, Black, w.a, Red, an, Black, aw);
    AugMk(so, w, k.n, k.c, k.a, t);
    AugMk(so, w', k.n, k.c, k.a, t);
    KeepsPlug(k.up, Mk(so, w, k.n, k.c, k.a, t), Mk(so, w', k.n, k.c, k.a, t), cb);
  }

  /** Case 3. */
  method RotateNearNephew(s: Side, parent: Node, sibling: Node, nephew: Node, cb: Callbacks, ghost root: Root,
                          ghost k: Ctx, ghost t: Tree, ghost h: nat, ghost S: set<Node>)
    returns (ghost x: Tree)
    requires Short(Snap(S), root.node, k, t, h) && NearRed(k) && s == k.s && parent == k.n && sibling == k.sib.n
      && nephew == Near(k).n
    modifies root`rotations, S
    ensures root.rotations == old(root.rotations) + 1
    ensures LastReady(Snap(S), s.Opp(), nephew, Red, parent, k.c, x, parent, Sub(Near(k), s), t, k.up, h)
      && Top(x) == sibling
    ensures Keeps(Plug(k, t),
      Plug(k.up, Mk(s.Opp(), Mk(s.Opp(), x, nephew, Red, nephew.aug, Sub(Near(k), s)), parent, k.c, parent.aug, t)), cb)
  {
    NearCase(Snap(S), root.node, k, t, h);
    NearPieces(k, t, h);
    ghost var a, b, r := Sub(Near(k), s), Sub(Near(k), s.Opp()), Far(k);
    LiftNephew(s, parent, sibling, nephew, cb, a, b, r, t, k.up, root, S);
    x := NearResult(Snap(S), k);
    NearStep(k, t, h, cb, nephew.aug, sibling.aug);
  }

  /** Cases 3 and 4, which end the loop. */
  method RotateAndStop(s: Side, parent: Node, sibling_: Node, root: Root, cb: Callbacks,
                       ghost k: Ctx, ghost t: Tree, ghost h: nat, ghost S: set<Node>)
    returns (ghost tree: Tree)
    requires Short(Snap(S), root.node, k, t, h) && s == k.s && parent == k.n && k.sib.Bin? && sibling_ == k.sib.n
    requires k.sib.c == Black && !BlackChildren(k.sib)
    modifies root, S
    ensures Rebuilt(Snap(S), root.node, Plug(k, t), tree, cb)
    ensures root.rotations <= old(root.rotations) + 2
  {
    ShortFlat(Snap(S), root.node, k, t, h);
    var sibling := sibling_;
    var tmp1 := sibling.Child(s.Opp());
    ghost var x, q, y, cp := Far(k), k.sib.n, Near(k), Black;
    if tmp1 == null || tmp1.color == Black {
      // Case 3: rotate at the sibling
      var tmp2 := sibling.Child(s);
      x := RotateNearNephew(s, parent, sibling, tmp2, cb, root, k, t, h, S);
      q, y, cp := parent, Sub(Near(k), s), Red;
      tmp1 := sibling;
      sibling := tmp2;
    } else {
      FarCase(Snap(S), root.node, k, t, h);
    }
    // Case 4: rotate at the parent and recolour
    tree := RotateSibling(s.Opp(), parent, sibling, tmp1, root, cb, cp, k.c, x, q, y, t, k.up, h, S);
  }

  /** The start of an iteration: find the sibling and, by case 1, make sure it is black. */
  method BlackSibling(node: Node?, parent: Node, root: Root, cb: Callbacks, ghost k: Ctx, ghost t: Tree, ghost h: nat,
      ghost S: set<Node>)
    returns (s: Side, sibling: Node, ghost k': Ctx)
    requires Short(Snap(S), root.node, k, t, h) && node == Top(t) && parent == k.n
    modifies root, S
    ensures Short(Snap(S), root.node, k', t, h) && Keeps(Plug(k, t), Plug(k', t), cb)
    ensures s == k'.s && parent == k'.n && k'.sib.Bin? && sibling == k'.sib.n && k'.sib.c == Black
    ensures if root.rotations == old(root.rotations) then k' == k
      else root.rotations == old(root.rotations) + 1 && k'.c == Red
  {
    ShortFlat(Snap(S), root.node, k, t, h);
    s := if node != parent.right then Left else Right;
    assert s == k.s;
    sibling, k' := parent.Child(s.Opp()), k;
    if sibling.color == Red {
      sibling, k' := RotateRedSibling(s, parent, sibling, root, cb, k, t, h, S);
    }
  }

  /** The nephew tests that select case 2. */
  method NephewsBlack(s: Side, sibling: Node, ghost root: Node?, ghost k: Ctx, ghost t: Tree, ghost h: nat,
      ghost S: set<Node>)
    returns (calm: bool)
    requires Short(Snap(S), root, k, t, h) && s == k.s && k.sib.Bin? && sibling == k.sib.n
    ensures calm <==> BlackChildren(k.sib)
  {
    ShortFlat(Snap(S), root, k, t, h);
    var tmp1 := sibling.Child(s.Opp());
    var tmp2 := sibling.Child(s);
    calm := (tmp1 == null || tmp1.color == Black) && (tmp2 == null || tmp2.color == Black);
  }

  /** `____rb_erase_color`.  Starting from an empty hole whose paths are one black node
      short, the loop ends in a red-black tree with the same in-order sequence after at
      most three rotations; the `rotate` callbacks keep correct maxima correct. */
  method EraseColor(parent_: Node, root: Root, cb: Callbacks, ghost k0: Ctx, ghost h0: nat, ghost S: set<Node>)
    returns (ghost tree: Tree)
    requires Short(Snap(S), root.node, k0, Leaf, h0) && parent_ == k0.n
    modifies root, S
    ensures Rebuilt(Snap(S), root.node, Plug(k0, Leaf), tree, cb)
    ensures root.rotations <= old(root.rotations) + 3
  {
    var node: Node? := null;
    var parent := parent_;
    ghost var k, t, h := k0, Leaf, h0;
    while true
      invariant Short(Snap(S), root.node, k, t, h) && node == Top(t) && parent == k.n
      invariant Keeps(Plug(k0, Leaf), Plug(k, t), cb) && root.rotations == old(root.rotations)
      decreases k
    {
      // Case 1 may rotate at the parent; that makes it red, so the loop then ends below
      var s, sibling;
      s, sibling, k := BlackSibling(node, parent, root, cb, k, t, h, S);
      var calm := NephewsBlack(s, sibling, root.node, k, t, h, S);
      if calm {
        // Case 2: recolour the sibling
        var done := LightenParent(parent, sibling, root, cb, k, t, h, S);
        if done {
          tree := Plug(k.up, LightTree(k, t));
          return;
        }
        k, t, h := k.up, LightTree(k, t), h + 1;
        node := parent;
        parent := node.parent;
      } else {
        tree := RotateAndStop(s, parent, sibling, root, cb, k, t, h, S);
        return;
      }
    }
  }
}
