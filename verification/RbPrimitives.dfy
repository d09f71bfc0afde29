/**
 The in-place building blocks of the rebalancing code: `__rb_change_child`,
 `__rb_rotate_set_parents` and the augmentation callbacks, specified field by field;
 and what those field changes mean for the trees held in memory.
 */
module RbPrimitives {
  import opened RbShape
  import opened RbBalance

  /** The callbacks handed to the rebalancing code: the no-op ones behind
      `rb_insert_color`/`rb_erase`, or those of RB_DECLARE_CALLBACKS_MAX. */
  datatype Callbacks = Dummy | Max

  ghost function Opt(n: Node?): set<Node> {
    if n == null then {} else {n}
  }

  /** `rb_set_parent_color`, guarded against null as most call sites are. */
  method SetParentColor(rb: Node?, p: Node?, c: Color)
    modifies Opt(rb)`parent, Opt(rb)`color
    ensures rb != null ==> rb.parent == p && rb.color == c
  {
    if rb != null {
      rb.parent, rb.color := p, c;
    }
  }

  /** `__rb_change_child` */
  method ChangeChild(old_: Node, x: Node?, parent: Node?, root: Root)
    modifies root`node, Opt(parent)`left, Opt(parent)`right
    ensures parent == null ==> root.node == x
    ensures parent != null && old(parent.left) == old_ ==> parent.left == x && parent.right == old(parent.right)
    ensures parent != null && old(parent.left) != old_ ==> parent.right == x && parent.left == old(parent.left)
    ensures parent != null ==> root.node == old(root.node)
  {
    if parent != null {
      if parent.left == old_ {
        parent.left := x;
      } else {
        parent.right := x;
      }
    } else {
      root.node := x;
    }
  }

  /** `__rb_rotate_set_parents`: `new_` takes over `old_`'s parent, colour and slot,
      and `old_` becomes a child of `new_` with colour `c`.  This completes one rotation. */
  method RotateSetParents(old_: Node, new_: Node, root: Root, c: Color)
    requires old_ != new_
    modifies old_`parent, old_`color, new_`parent, new_`color, root, Opt(old_.parent)`left, Opt(old_.parent)`right
    ensures new_.parent == old(old_.parent) && new_.color == old(old_.color)
    ensures old_.parent == new_ && old_.color == c
    ensures var p := old(old_.parent);
            && (p == null ==> root.node == new_)
            && (p != null && old(p.left) == old_ ==> p.left == new_ && p.right == old(p.right))
            && (p != null && old(p.left) != old_ ==> p.right == new_ && p.left == old(p.left))
            && (p != null ==> root.node == old(root.node))
    ensures root.rotations == old(root.rotations) + 1
  {
    root.rotations := root.rotations + 1;
    var parent := old_.parent;
    new_.parent, new_.color := old_.parent, old_.color;
    old_.parent, old_.color := new_, c;
    ChangeChild(old_, new_, parent, root);
  }

  /** The larger of `v` and the value stored at `n`. */
  ghost function MaxStored(m: Mem, v: int, n: Node?): int {
    if n != null && n in m && m[n].aug > v then m[n].aug else v
  }

  /** `compute_max`: recompute the stored maximum from the children's stored values.
      With `exit`, report (and skip the store) when the value is already right. */
  method ComputeMax(node: Node, exit: bool, ghost S: set<Node>) returns (stop: bool)
    requires {node} + Opt(node.left) + Opt(node.right) <= S && node.left != node && node.right != node
    modifies node`aug
    ensures node.aug == old(MaxStored(Snap(S), MaxStored(Snap(S), node.val, node.left), node.right))
    ensures stop <==> exit && old(node.aug) == node.aug
  {
    var max := node.val;
    if node.left != null {
      if node.left.aug > max { max := node.left.aug; }
    }
    if node.right != null {
      if node.right.aug > max { max := node.right.aug; }
    }
    if exit && node.aug == max {
      return true;
    }
    node.aug := max;
    return false;
  }

  /** Only the augmented values of `x` and `y` differ between the two memories. */
  ghost predicate OnlyAug(m: Mem, m': Mem, x: Node, y: Node) {
    var atX := x in m && x in m' && m'[x] == m[x].(aug := m'[x].aug);
    var atY := y in m && y in m' && m'[y] == m[y].(aug := m'[y].aug);
    var all := atX && atY && Agree(m, m', x, y, null, null);
    all
  }

  /** `n` has inherited the stored value of `o`, which has recomputed its own. */
  ghost predicate AugRotated(m: Mem, m': Mem, cb: Callbacks, o: Node, n: Node) {
    && OnlyAug(m, m', n, o)
    && var kept := cb == Dummy ==> m'[o].aug == m[o].aug && m'[n].aug == m[n].aug;
       var moved := cb == Max ==>
         m'[n].aug == m[o].aug && m'[o].aug == MaxStored(m, MaxStored(m, o.val, m[o].left), m[o].right);
       var all := kept && moved;
       all
  }

  /** The `rotate` callback: `new_` inherits `old_`'s stored value, `old_` recomputes its own. */
  method AugmentRotate(cb: Callbacks, old_: Node, new_: Node, ghost S: set<Node>)
    requires {old_, new_} + Opt(old_.left) + Opt(old_.right) <= S
    requires old_ != new_ && old_.left !in {old_, new_} && old_.right !in {old_, new_}
    modifies old_`aug, new_`aug
    ensures AugRotated(old(Snap(S)), Snap(S), cb, old_, new_)
  {
    if cb == Max {
      new_.aug := old_.aug;
      var _ := ComputeMax(old_, false, S);
    }
  }

  ghost function Redirect(c: Cell, old_: Node, new_: Node): Cell {
    if c.left == old_ then c.(left := new_) else c.(right := new_)
  }

  /** The pointer updates by which every rotation at `g` lifts its child `p` on side `s`:
      `p`'s inner child `tmp` (to be coloured `ct`) moves to `g`, `p` takes over `g`'s
      parent and colour, and `g` gets colour `c`. */
  method RotateLinks(s: Side, p: Node, g: Node, tmp: Node?, ct: Color, c: Color, root: Root)
    requires p != g && tmp !in {p, g} && g.parent !in {p, g} && (tmp == null || g.parent != tmp)
    modifies p`parent, p`color, p`left, p`right, g`parent, g`color, g`left, g`right
    modifies Opt(tmp)`parent, Opt(tmp)`color, root, Opt(g.parent)`left, Opt(g.parent)`right
    ensures p.Content() == MkCell(s, old(g.parent), old(g.color), old(p.Child(s)), g, old(p.aug))
    ensures g.Content() == MkCell(s, p, c, tmp, old(g.Child(s.Opp())), old(g.aug))
    ensures tmp != null ==> tmp.Content() == old(tmp.Content()).(parent := g, color := ct)
    ensures var up := old(g.parent);
      if up == null then root.node == p
      else root.node == old(root.node) && up.Content() == Redirect(old(up.Content()), g, p)
    ensures root.rotations == old(root.rotations) + 1
  {
    g.SetChild(s, tmp);
    p.SetChild(s.Opp(), g);
    SetParentColor(tmp, g, ct);
    RotateSetParents(g, p, root, c);
  }

  /** The effect of a rotation's pointer updates on memory. */
  ghost predicate Rotated(m: Mem, m': Mem, s: Side, p: Node, g: Node, tmp: Node?, ct: Color, c: Color) {
    && m.Keys == m'.Keys && p in m && g in m && Opt(tmp) + Opt(m[g].parent) <= m.Keys
    && var lifted := m'[p] == MkCell(s, m[g].parent, m[g].color, m[p].Child(s), g, m[p].aug);
       var lowered := m'[g] == MkCell(s, p, c, tmp, m[g].Child(s.Opp()), m[g].aug);
       var moved := tmp != null ==> m'[tmp] == m[tmp].(parent := g, color := ct);
       var rehung := m[g].parent != null ==> m'[m[g].parent] == Redirect(m[m[g].parent], g, p);
       lifted && lowered && moved && rehung && Agree(m, m', p, g, tmp, m[g].parent)
  }

  method Rotate(s: Side, p: Node, g: Node, tmp: Node?, ct: Color, c: Color, root: Root, ghost S: set<Node>)
    requires {p, g} + Opt(tmp) + Opt(g.parent) <= S
    requires p != g && tmp !in {p, g} && g.parent !in {p, g} && (tmp == null || g.parent != tmp)
    modifies root, S`parent, S`color, S`left, S`right
    ensures Rotated(old(Snap(S)), Snap(S), s, p, g, tmp, ct, c)
    ensures root.node == if old(g.parent) == null then p else old(root.node)
    ensures root.rotations == old(root.rotations) + 1
  {
    RotateLinks(s, p, g, tmp, ct, c, root);
  }

  // -------------------------------------------------------- effect on trees

  ghost function SetColor(t: Tree, c: Color): Tree {
    if t.Leaf? then Leaf else t.(c := c)
  }

  /** From `m` to `m'`, the root of `t` gets parent `p` and colour `c`. */
  ghost predicate Adopted(m: Mem, m': Mem, t: Tree, p: Node?, c: Color) {
    t.Bin? ==> t.n in m && t.n in m' && m'[t.n] == m[t.n].(parent := p, color := c)
  }

  /** The root of `t` occurs nowhere below itself. */
  ghost predicate Unique(t: Tree) {
    t.Bin? ==> t.n !in Nodes(t.l) && t.n !in Nodes(t.r)
  }

  ghost predicate OffBelow(n: Node?, t: Tree) {
    n == Top(t) || Off(n, t)
  }

  lemma {:induction false} AdoptRep(m: Mem, m': Mem, t: Tree, q: Node?, p: Node?, c: Color, a: Node?, b: Node?,
      d: Node?, e: Node?)
    requires Rep(m, t, q) && Unique(t) && Adopted(m, m', t, p, c) && Agree(m, m', a, b, d, e)
    requires OffBelow(a, t) && OffBelow(b, t) && OffBelow(d, t) && OffBelow(e, t)
    ensures Rep(m', SetColor(t, c), p)
  {
    if t.Bin? {
      FrameRep(m, m', t.l, t.n, a, b, d, e);
      FrameRep(m, m', t.r, t.n, a, b, d, e);
    }
  }

  /** In `m'`, the child pointer above the hole of `k` is `x`. */
  ghost predicate Rehung(m': Mem, k: Ctx, x: Node?, base: Node?) {
    k.Step? ==> k.n in m' && m'[k.n] == MkCell(k.s, Above(k.up, base), k.c, x, Top(k.sib), k.a)
  }

  ghost predicate UniqueC(k: Ctx) {
    k.Step? ==> k.n !in Nodes(k.sib) && k.n !in CNodes(k.up)
  }

  ghost predicate OffAbove(n: Node?, k: Ctx) {
    n == Above(k, null) || OffC(n, k)
  }

  lemma {:induction false} RehangRep(m: Mem, m': Mem, k: Ctx, old_: Node?, x: Node?, base: Node?, a: Node?, b: Node?,
      d: Node?, e: Node?)
    requires RepC(m, k, old_, base) && UniqueC(k) && Rehung(m', k, x, base) && Agree(m, m', a, b, d, e)
    requires OffAbove(a, k) && OffAbove(b, k) && OffAbove(d, k) && OffAbove(e, k)
    ensures RepC(m', k, x, base)
  {
    if k.Step? {
      FrameRep(m, m', k.sib, k.n, a, b, d, e);
      FrameRepC(m, m', k.up, k.n, base, a, b, d, e);
    }
  }

  ghost predicate NotIn(n: Node?, x: Tree, y: Tree, u: Tree, up: Ctx) {
    var off := Off(n, x) && Off(n, y) && Off(n, u) && OffC(n, up);
    off
  }

  /** Nodes `p` and `g` and the pieces around them, kept apart as far as a rotation needs. */
  ghost predicate Pieces(p: Node, g: Node, x: Tree, y: Tree, u: Tree, up: Ctx) {
    var nodes := p != g && NotIn(p, x, y, u, up) && NotIn(g, x, y, u, up);
    var tops := NotIn(Top(x), Leaf, y, u, up) && NotIn(Top(y), x, Leaf, u, up) && NotIn(Above(up, null), x, y, u, Hole);
    var all := nodes && tops && Unique(x) && Unique(y) && UniqueC(up);
    all
  }

  lemma {:induction false} SplitPieces(s: Side, p: Node, g: Node, x: Tree, y: Tree, u: Tree, up: Ctx, c: Color,
      a: int, d: Color, b: int)
    requires ZDistinct(up, Mk(s, Mk(s, x, p, c, a, y), g, d, b, u))
    ensures Pieces(p, g, x, y, u, up)
  {
    var t := Mk(s, x, p, c, a, y);
    assert Distinct(t) && Nodes(t) == Nodes(x) + {p} + Nodes(y);
    assert Distinct(x) && Distinct(y);
  }

  /** The state in the middle of a double rotation, which need not be a tree: `p` owns `x`
      (outside) and `y` (inside) and is about to replace `g`, whose child pointer towards
      it, and `p`'s own parent pointer, may be stale. */
  ghost predicate HalfLinked(m: Mem, s: Side, g: Node, p: Node, x: Tree, y: Tree, u: Tree, up: Ctx) {
    var pieces := RepC(m, up, g, null) && Rep(m, u, g) && Rep(m, x, p) && Rep(m, y, p);
    var atG := g in m && m[g].parent == Above(up, null) && m[g].Child(s.Opp()) == Top(u);
    var atP := p in m && m[p].Child(s) == Top(x) && m[p].Child(s.Opp()) == Top(y);
    var all := pieces && atG && atP;
    all
  }

  /** The tree after `p` has been lifted above `g`. */
  ghost function Lifted(s: Side, p: Node, g: Node, x: Tree, y: Tree, u: Tree, cp: Color, ap: int, cg: Color,
      ag: int): Tree {
    Mk(s, x, p, cp, ap, Mk(s, y, g, cg, ag, u))
  }

  lemma {:induction false} RepMk(m: Mem, s: Side, near: Tree, n: Node, c: Color, a: int, far: Tree, p: Node?)
    ensures Rep(m, Mk(s, near, n, c, a, far), p) <==>
            n in m && m[n] == MkCell(s, p, c, Top(near), Top(far), a) && Rep(m, near, n) && Rep(m, far, n)
  {
  }

  /** What memory must hold for `p` to have been lifted above `g`. */
  ghost predicate LiftedIn(m: Mem, s: Side, p: Node, g: Node, x: Tree, y: Tree, u: Tree, up: Ctx, cp: Color, ap: int,
      cg: Color, ag: int) {
    var pieces := RepC(m, up, p, null) && Rep(m, x, p) && Rep(m, y, g) && Rep(m, u, g);
    var atP := p in m && m[p] == MkCell(s, Above(up, null), cp, Top(x), g, ap);
    var atG := g in m && m[g] == MkCell(s, p, cg, Top(y), Top(u), ag);
    var all := pieces && atP && atG;
    all
  }

  lemma {:induction false} LiftedRep(m: Mem, s: Side, p: Node, g: Node, x: Tree, y: Tree, u: Tree, up: Ctx, cp: Color,
      ap: int, cg: Color, ag: int)
    requires LiftedIn(m, s, p, g, x, y, u, up, cp, ap, cg, ag)
    ensures Zipper(m, up, Lifted(s, p, g, x, y, u, cp, ap, cg, ag), null)
  {
    var t := Mk(s, y, g, cg, ag, u);
    RepMk(m, s, y, g, cg, ag, u, p);
    RepMk(m, s, x, p, cp, ap, t, Above(up, null));
  }

  /** A completed rotation turns a half-linked state back into a tree. */
  lemma {:induction false} Lift(m: Mem, m': Mem, s: Side, g: Node, p: Node, x: Tree, y: Tree, cy: Color, u: Tree,
      up: Ctx, c: Color)
    requires Pieces(p, g, x, y, u, up) && HalfLinked(m, s, g, p, x, y, u, up) && Rotated(m, m', s, p, g, Top(y), cy, c)
    ensures LiftedIn(m', s, p, g, x, SetColor(y, cy), u, up, m[g].color, m[p].aug, c, m[g].aug)
  {
    LiftBelow(m, m', s, g, p, x, y, cy, u, up, c);
    LiftAbove(m, m', s, g, p, x, y, cy, u, up, c);
  }

  lemma {:induction false} LiftBelow(m: Mem, m': Mem, s: Side, g: Node, p: Node, x: Tree, y: Tree, cy: Color, u: Tree,
      up: Ctx, c: Color)
    requires Pieces(p, g, x, y, u, up) && Rotated(m, m', s, p, g, Top(y), cy, c)
    requires m[g].parent == Above(up, null) && Rep(m, u, g) && Rep(m, x, p) && Rep(m, y, p)
    ensures Rep(m', x, p) && Rep(m', SetColor(y, cy), g) && Rep(m', u, g)
  {
    FrameRep(m, m', x, p, p, g, Top(y), Above(up, null));
    FrameRep(m, m', u, g, p, g, Top(y), Above(up, null));
    AdoptRep(m, m', y, p, g, cy, p, g, Top(y), Above(up, null));
  }

  lemma {:induction false} LiftAbove(m: Mem, m': Mem, s: Side, g: Node, p: Node, x: Tree, y: Tree, cy: Color, u: Tree,
      up: Ctx, c: Color)
    requires Pieces(p, g, x, y, u, up) && Rotated(m, m', s, p, g, Top(y), cy, c)
    requires m[g].parent == Above(up, null) && RepC(m, up, g, null)
    ensures RepC(m', up, p, null)
  {
    RehangRep(m, m', up, g, p, null, p, g, Top(y), Above(up, null));
  }

  lemma {:induction false} HalfLinkedFlat(m: Mem, s: Side, g: Node, p: Node, x: Tree, y: Tree, u: Tree, up: Ctx)
    requires Pieces(p, g, x, y, u, up) && HalfLinked(m, s, g, p, x, y, u, up)
    ensures {p, g} + Opt(Top(y)) + Opt(m[g].parent) <= m.Keys
    ensures p != g && Top(y) !in {p, g} && m[g].parent !in {p, g} && (Top(y) == null || m[g].parent != Top(y))
  {
  }

  lemma {:induction false} LiftedFlat(m: Mem, s: Side, g: Node, p: Node, x: Tree, y: Tree, u: Tree, up: Ctx,
                                      cp: Color, ap: int, cg: Color, ag: int)
    requires Pieces(p, g, x, y, u, up) && LiftedIn(m, s, p, g, x, y, u, up, cp, ap, cg, ag)
    ensures p != g && m[g].left !in {p, g} && m[g].right !in {p, g}
    ensures {p, g} + Opt(m[g].left) + Opt(m[g].right) <= m.Keys
  {
  }

  /** What `g` would recompute from its stored children is what its subtrees say. */
  lemma {:induction false} LiftedMax(m: Mem, s: Side, g: Node, p: Node, x: Tree, y: Tree, u: Tree, up: Ctx,
                                     cp: Color, ap: int, cg: Color, ag: int)
    requires LiftedIn(m, s, p, g, x, y, u, up, cp, ap, cg, ag)
    ensures MaxStored(m, MaxStored(m, g.val, m[g].left), m[g].right) == MaxWith(MaxWith(g.val, y), u)
  {
  }

  /** The memory after new augmented values are stored at `p` and its child `g`. */
  lemma {:induction false} StoreAugs(m: Mem, m': Mem, s: Side, g: Node, p: Node, x: Tree, y: Tree, u: Tree, up: Ctx,
                                     cp: Color, ap: int, cg: Color, ag: int, ap': int, ag': int)
    requires Pieces(p, g, x, y, u, up) && LiftedIn(m, s, p, g, x, y, u, up, cp, ap, cg, ag)
    requires OnlyAug(m, m', p, g) && ap' == m'[p].aug && ag' == m'[g].aug
    ensures LiftedIn(m', s, p, g, x, y, u, up, cp, ap', cg, ag')
  {
    FrameRep(m, m', x, p, p, g, null, null);
    FrameRep(m, m', y, g, p, g, null, null);
    FrameRep(m, m', u, g, p, g, null, null);
    FrameRepC(m, m', up, p, null, p, g, null, null);
  }

  /** The pointer updates of a rotation lifting `p` above `g`. */
  method LiftLinks(s: Side, p: Node, g: Node, tmp: Node?, ct: Color, c: Color, root: Root,
                   ghost x: Tree, ghost y: Tree, ghost u: Tree, ghost up: Ctx, ghost S: set<Node>)
    requires Pieces(p, g, x, y, u, up) && HalfLinked(Snap(S), s, g, p, x, y, u, up)
    requires tmp == Top(y) && root.node == Apex(up, g)
    modifies root, S`parent, S`color, S`left, S`right
    ensures LiftedIn(Snap(S), s, p, g, x, SetColor(y, ct), u, up, old(g.color), p.aug, c, g.aug)
    ensures root.node == Apex(up, p) && root.rotations == old(root.rotations) + 1
  {
    ghost var m := Snap(S);
    HalfLinkedFlat(m, s, g, p, x, y, u, up);
    Rotate(s, p, g, tmp, ct, c, root, S);
    Lift(m, Snap(S), s, g, p, x, y, ct, u, up, c);
  }

  /** The `rotate` callback over two snapshots. */
  lemma {:induction false} LiftedAug(m: Mem, m': Mem, cb: Callbacks, s: Side, p: Node, g: Node, x: Tree, y: Tree,
      u: Tree, up: Ctx,
                                     cp: Color, ap: int, cg: Color, ag: int)
    requires Pieces(p, g, x, y, u, up) && LiftedIn(m, s, p, g, x, y, u, up, cp, ap, cg, ag)
      && AugRotated(m, m', cb, g, p)
    ensures LiftedIn(m', s, p, g, x, y, u, up, cp, m'[p].aug, cg, m'[g].aug)
    ensures cb == Max ==> m'[p].aug == m[g].aug && m'[g].aug == MaxWith(MaxWith(g.val, y), u)
  {
    LiftedMax(m, s, g, p, x, y, u, up, cp, ap, cg, ag);
    StoreAugs(m, m', s, g, p, x, y, u, up, cp, ap, cg, ag, m'[p].aug, m'[g].aug);
  }

  /** The `rotate` callback of that rotation. */
  method LiftAug(cb: Callbacks, s: Side, p: Node, g: Node,
                 ghost x: Tree, ghost y: Tree, ghost u: Tree, ghost up: Ctx, ghost cp: Color, ghost cg: Color,
                 ghost S: set<Node>)
    requires Pieces(p, g, x, y, u, up) && LiftedIn(Snap(S), s, p, g, x, y, u, up, cp, p.aug, cg, g.aug)
    modifies S`aug
    ensures LiftedIn(Snap(S), s, p, g, x, y, u, up, cp, p.aug, cg, g.aug)
    ensures cb == Max ==> p.aug == old(g.aug) && g.aug == MaxWith(MaxWith(g.val, y), u)
  {
    ghost var m := Snap(S);
    LiftedFlat(m, s, g, p, x, y, u, up, cp, p.aug, cg, g.aug);
    AugmentRotate(cb, g, p, S);
    LiftedAug(m, Snap(S), cb, s, p, g, x, y, u, up, cp, m[p].aug, cg, m[g].aug);
  }

  /** A rotation: the links, then the callback. */
  method LiftRotate(cb: Callbacks, s: Side, p: Node, g: Node, tmp: Node?, ct: Color, c: Color, root: Root,
                    ghost x: Tree, ghost y: Tree, ghost u: Tree, ghost up: Ctx, ghost S: set<Node>)
    requires Pieces(p, g, x, y, u, up) && Pieces(p, g, x, SetColor(y, ct), u, up)
      && HalfLinked(Snap(S), s, g, p, x, y, u, up)
    requires tmp == Top(y) && root.node == Apex(up, g)
    modifies root, S
    ensures LiftedIn(Snap(S), s, p, g, x, SetColor(y, ct), u, up, old(g.color), p.aug, c, g.aug)
      && root.node == Apex(up, p) && root.rotations == old(root.rotations) + 1
    ensures cb == Max ==> p.aug == old(g.aug) && g.aug == MaxWith(MaxWith(g.val, SetColor(y, ct)), u)
  {
    ghost var cg, ag := g.color, g.aug;
    HalfLinkedFlat(Snap(S), s, g, p, x, y, u, up);
    LiftLinks(s, p, g, tmp, ct, c, root, x, y, u, up, S);
    assert g.aug == ag;
    LiftAug(cb, s, p, g, x, SetColor(y, ct), u, up, cg, c, S);
  }

  // ------------------------------------------ what rebalancing must keep

  /** What rebalancing must keep, whatever the shape: order, and consistency of the maxima. */
  ghost predicate Keeps(t: Tree, t': Tree, cb: Callbacks) {
    var order := Inorder(t') == Inorder(t);
    var maxima := cb == Max && AugOK(t) ==> AugOK(t');
    var all := order && maxima;
    all
  }

  /** Replacing a subtree by one with the same order and stored value. */
  lemma {:induction false} KeepsPlug(k: Ctx, t: Tree, t': Tree, cb: Callbacks)
    requires Inorder(t) == Inorder(t')
    requires cb == Max && AugOK(t) ==> AugOK(t') && t.Bin? && t'.Bin? && t.a == t'.a
    ensures Keeps(Plug(k, t), Plug(k, t'), cb)
  {
    PlugInorder(k, t);
    PlugInorder(k, t');
    PlugAug(k, t);
    PlugAug(k, t');
    if t.Bin? && t'.Bin? && t.a == t'.a {
      AugCong(k, t, t');
    }
  }

  /** The `rotate` callback makes the two rotated nodes consistent again. */
  lemma {:induction false} LiftAugOK(s: Side, p: Node, g: Node, x: Tree, y: Tree, u: Tree, c: Color, ap: int,
      d: Color, ag: int,
                                     c': Color, ap': int, d': Color, ag': int)
    ensures ap' == ag && ag' == MaxWith(MaxWith(g.val, y), u) && AugOK(Mk(s, Mk(s, x, p, c, ap, y), g, d, ag, u)) ==>
            AugOK(Mk(s, x, p, c', ap', Mk(s, y, g, d', ag', u)))
  {
    var P, G := Mk(s, x, p, c, ap, y), Mk(s, y, g, d', ag', u);
    AugMk(s, x, p, c, ap, y);
    AugMk(s, P, g, d, ag, u);
    AugMk(s, y, g, d', ag', u);
    AugMk(s, x, p, c', ap', G);
  }

  /** The heap under `root` is exactly the red-black tree `t`. */
  ghost predicate Whole(m: Mem, root: Node?, t: Tree) {
    var heap := Rep(m, t, null) && root == Top(t);
    var balance := Distinct(t) && RBTree(t);
    var all := heap && balance;
    all
  }

  /** The heap under `root` is the red-black tree `tree`, which keeps what matters of `t`. */
  ghost predicate Rebuilt(m: Mem, root: Node?, t: Tree, tree: Tree, cb: Callbacks) {
    var whole := Whole(m, root, tree);
    var keeps := Keeps(t, tree, cb);
    var all := whole && keeps;
    all
  }
}
