/** `rb_replace_node`: swapping one node for another without rebalancing. */
module RbReplace {
  import opened Sequences
  import opened RbShape
  import opened RbBalance
  import opened RbPrimitives
  import opened RbErase

  ghost predicate Replaced(m: Mem, m': Mem, victim: Node, new_: Node, lt: Node?, rt: Node?, up: Node?) {
    && {victim, new_} + Opt(lt) + Opt(rt) + Opt(up) <= m.Keys && m.Keys == m'.Keys
    && var self := m'[new_] == m[victim].(aug := m[new_].aug);
       var left := lt != null ==> m'[lt] == m[lt].(parent := new_);
       var right := rt != null ==> m'[rt] == m[rt].(parent := new_);
       var above := up != null ==> m'[up] == Redirect(m[up], victim, new_);
       self && left && right && above && Agree(m, m', new_, lt, rt, up)
  }

  /** The copy of the victim's links and colour, and of its children's parent pointers. */
  method CopyLinks(victim: Node, new_: Node)
    requires victim != new_ && victim.left !in {victim, new_} && victim.right !in {victim, new_}
    requires victim.left != null ==> victim.left != victim.right
    modifies new_`parent, new_`color, new_`left, new_`right, Opt(victim.left)`parent, Opt(victim.right)`parent
    ensures new_.Content() == victim.Content().(aug := old(new_.aug))
    ensures victim.left != null ==> victim.left.Content() == old(victim.left.Content()).(parent := new_)
    ensures victim.right != null ==> victim.right.Content() == old(victim.right.Content()).(parent := new_)
  {
    new_.parent, new_.color, new_.left, new_.right := victim.parent, victim.color, victim.left, victim.right;
    if victim.left != null {
      victim.left.parent := new_;
    }
    if victim.right != null {
      victim.right.parent := new_;
    }
  }

  ghost predicate ReplaceReady(m: Mem, victim: Node, new_: Node, lt: Node?, rt: Node?, up: Node?) {
    var keys := {victim, new_} + Opt(lt) + Opt(rt) + Opt(up) <= m.Keys;
    var links := victim in m && m[victim].left == lt && m[victim].right == rt && m[victim].parent == up;
    var apart := victim != new_ && lt !in {victim, new_} && rt !in {victim, new_} && up !in {victim, new_};
    var others := (lt != null ==> lt != rt && lt != up) && (rt != null ==> rt != up);
    var all := keys && links && apart && others;
    all
  }

  method ReplaceLinks(victim: Node, new_: Node, root: Root, ghost S: set<Node>)
    requires ReplaceReady(Snap(S), victim, new_, victim.left, victim.right, victim.parent)
    modifies root`node, S`parent, S`color, S`left, S`right
    ensures Replaced(old(Snap(S)), Snap(S), victim, new_, old(victim.left), old(victim.right), old(victim.parent))
    ensures root.node == if old(victim.parent) == null then new_ else old(root.node)
  {
    ReplaceFields(victim, new_, root);
  }

  method ReplaceFields(victim: Node, new_: Node, root: Root)
    requires victim != new_ && victim.left !in {victim, new_} && victim.right !in {victim, new_}
      && victim.parent !in {victim, new_}
    requires victim.left != null ==> victim.left != victim.right && victim.left != victim.parent
    requires victim.right != null ==> victim.right != victim.parent
    modifies root`node, new_`parent, new_`color, new_`left, new_`right, Opt(victim.left)`parent,
      Opt(victim.right)`parent
    modifies Opt(victim.parent)`left, Opt(victim.parent)`right
    ensures new_.Content() == old(victim.Content()).(aug := old(new_.aug))
    ensures var lt := old(victim.left); lt != null ==> lt.Content() == old(lt.Content()).(parent := new_)
    ensures var rt := old(victim.right); rt != null ==> rt.Content() == old(rt.Content()).(parent := new_)
    ensures var up := old(victim.parent); up != null ==> up.Content() == Redirect(old(up.Content()), victim, new_)
    ensures root.node == if old(victim.parent) == null then new_ else old(root.node)
  {
    var parent := victim.parent;
    CopyLinks(victim, new_);
    ChangeChild(victim, new_, parent, root);
  }

  lemma {:induction false} ReplaceFlat(m: Mem, k: Ctx, t: Tree, new_: Node)
    requires t.Bin? && ZDistinct(k, t) && Zipper(m, k, t, null) && new_ in m && Off(new_, t) && OffC(new_, k)
    ensures ReplaceReady(m, t.n, new_, Top(t.l), Top(t.r), Above(k, null))
  {
    assert Rep(m, t.l, t.n) && Rep(m, t.r, t.n);
  }

  lemma {:induction false} ReplacedRep(m: Mem, m': Mem, k: Ctx, t: Tree, new_: Node)
    requires t.Bin? && ZDistinct(k, t) && Zipper(m, k, t, null) && new_ in m && Off(new_, t) && OffC(new_, k)
    requires Replaced(m, m', t.n, new_, Top(t.l), Top(t.r), Above(k, null))
    ensures Zipper(m', k, t.(n := new_, a := m[new_].aug), null)
  {
    var lt, rt, up := Top(t.l), Top(t.r), Above(k, null);
    assert Distinct(t.l) && Distinct(t.r) && Rep(m, t.l, t.n) && Rep(m, t.r, t.n);
    AdoptRep(m, m', t.l, t.n, new_, if t.l.Bin? then t.l.c else Black, new_, lt, rt, up);
    AdoptRep(m, m', t.r, t.n, new_, if t.r.Bin? then t.r.c else Black, new_, lt, rt, up);
    assert Rehung(m', k, new_, null);
    RehangRep(m, m', k, t.n, new_, null, new_, lt, rt, up);
  }

  /** The tree with one node exchanged. */
  ghost predicate Exchanged(tree: Tree, tree': Tree, victim: Node, new_: Node, a: seq<Node>, b: seq<Node>) {
    Inorder(tree) == a + [victim] + b && Inorder(tree') == a + [new_] + b
  }

  lemma {:induction false} ExchangedOf(k: Ctx, t: Tree, new_: Node, h: nat, v: int)
    requires t.Bin? && ZDistinct(k, t) && RB(t, h) && RBC(k, h) && (IsBlack(t) || BlackTop(k)) && Off(new_, t)
      && OffC(new_, k)
    ensures var t' := t.(n := new_, a := v);
            && RBTree(Plug(k, t')) && Distinct(Plug(k, t'))
            && (new_.val == t.n.val && v == t.a && AugOK(Plug(k, t)) ==> AugOK(Plug(k, t')))
  {
    var t' := t.(n := new_, a := v);
    PlugRB(k, t', h);
    PlugNodes(k, t');
    PlugAug(k, t);
    PlugAug(k, t');
    if v == t.a { AugCong(k, t, t'); }
  }

  lemma {:induction false} ExchangedOrder(k: Ctx, t: Tree, new_: Node, v: int)
    requires t.Bin?
    ensures Exchanged(Plug(k, t), Plug(k, t.(n := new_, a := v)), t.n, new_, Before(k) + Inorder(t.l),
      Inorder(t.r) + After(k))
  {
    PlugInorder(k, t);
    PlugInorder(k, t.(n := new_, a := v));
    Regroup(Before(k), Inorder(t.l), [t.n], Inorder(t.r), After(k));
    Regroup(Before(k), Inorder(t.l), [new_], Inorder(t.r), After(k));
  }

  /** `rb_replace_node` */
  method ReplaceNode(victim: Node, new_: Node, root: Root, ghost tree: Tree, ghost S: set<Node>)
    returns (ghost tree': Tree, ghost a: seq<Node>, ghost b: seq<Node>)
    requires Whole(Snap(S), root.node, tree) && victim in Nodes(tree) && new_ in S && new_ !in Nodes(tree)
    modifies root`node, S`parent, S`color, S`left, S`right
    ensures Whole(Snap(S), root.node, tree') && Exchanged(tree, tree', victim, new_, a, b)
    ensures new_.val == victim.val && new_.aug == victim.aug && AugOK(tree) ==> AugOK(tree')
  {
    ghost var m := Snap(S);
    ghost var k, t, h := LocateAt(m, root.node, tree, victim);
    PlugNodes(k, t);
    ReplaceFlat(m, k, t, new_);
    ReplaceLinks(victim, new_, root, S);
    ReplacedRep(m, Snap(S), k, t, new_);
    ghost var t' := t.(n := new_, a := new_.aug);
    tree', a, b := Plug(k, t'), Before(k) + Inorder(t.l), Inorder(t.r) + After(k);
    ExchangedOf(k, t, new_, h, new_.aug);
    ExchangedOrder(k, t, new_, new_.aug);
    PlugRep(Snap(S), k, t', null);
    RootAfter(k, victim, new_);
  }

  lemma {:induction false} RootAfter(k: Ctx, old_: Node, new_: Node)
    ensures Apex(k, new_) == if k.Hole? then new_ else Apex(k, old_)
  {
  }
}
