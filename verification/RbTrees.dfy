/**
 The tree as its users see it: a root together with the sequence of nodes it holds, and
 the leftmost-cached variant.  `Valid()` is what every operation keeps, so it holds after
 any run of operations from the empty tree.
 */
module RbTrees {
  import opened Sequences
  import opened RbShape
  import opened RbBalance
  import opened RbPrimitives
  import opened RbInsert
  import opened RbIterate
  import opened RbSearch
  import RbErase
  import RbReplace

  lemma {:induction false} WholeOn(m: Mem, m': Mem, root: Node?, t: Tree)
    requires Whole(m, root, t) && forall n :: n in Nodes(t) && n in m ==> n in m' && m'[n] == m[n]
    ensures Whole(m', root, t)
  {
    RepOn(m, m', t, null);
  }

  lemma {:induction false} WholeHeld(m: Mem, root: Node?, t: Tree)
    requires Whole(m, root, t)
    ensures Held(m, root, t)
  {
  }

  lemma {:induction false} VacantOn(m: Mem, m': Mem, root: Node?, tree: Tree, k: Ctx, node: Node)
    requires Whole(m, root, tree) && Plug(k, Leaf) == tree && node in m' && node !in Nodes(tree)
    requires forall n :: n in Nodes(tree) && n in m ==> n in m' && m'[n] == m[n]
    ensures Vacant(m', root, k, node)
  {
    WholeOn(m, m', root, tree);
    PlugRep(m', k, Leaf, null);
    PlaceVacant(m', root, tree, k, node);
  }

  lemma {:induction false} LeafOrder(k: Ctx, node: Node, a: int)
    ensures Inorder(Plug(k, NewLeaf(node, a))) == Before(k) + [node] + After(k)
    ensures Inorder(Plug(k, Leaf)) == Before(k) + After(k)
  {
    PlugInorder(k, NewLeaf(node, a));
    PlugInorder(k, Leaf);
    assert Inorder(NewLeaf(node, a)) == [node];
    assert Before(k) + [] + After(k) == Before(k) + After(k);
  }

  lemma {:induction false} RebuiltOn(m: Mem, m': Mem, root: Node?, t: Tree, tree: Tree, cb: Callbacks)
    requires Rebuilt(m, root, t, tree, cb) && forall n :: n in Nodes(tree) && n in m ==> n in m' && m'[n] == m[n]
    ensures Whole(m', root, tree) && Inorder(tree) == Inorder(t) && (cb == Max && AugOK(t) ==> AugOK(tree))
  {
    WholeOn(m, m', root, tree);
  }

  /** An insertion seen from outside: the position, the tree and the maxima. */
  lemma {:induction false} InsertedOn(m: Mem, m': Mem, root: Node?, k: Ctx, node: Node, v: int, tree: Tree,
      cb: Callbacks)
    requires Rebuilt(m, root, Plug(k, NewLeaf(node, v)), tree, cb)
    requires forall n :: n in Nodes(tree) && n in m ==> n in m' && m'[n] == m[n]
    ensures Whole(m', root, tree) && Inorder(tree) == Before(k) + [node] + After(k)
    ensures cb == Max && AugOK(Plug(k, NewLeaf(node, v))) ==> AugOK(tree)
  {
    LeafOrder(k, node, v);
    RebuiltOn(m, m', root, Plug(k, NewLeaf(node, v)), tree, cb);
  }

  /** A replacement seen from outside. */
  lemma {:induction false} ReplacedOn(m: Mem, m': Mem, root: Node?, tree: Tree, tree': Tree, x: Node, y: Node,
      a: seq<Node>, b: seq<Node>)
    requires Whole(m, root, tree') && RbReplace.Exchanged(tree, tree', x, y, a, b)
    requires forall n :: n in Nodes(tree') && n in m ==> n in m' && m'[n] == m[n]
    ensures Whole(m', root, tree') && Inorder(tree) == a + [x] + b && Inorder(tree') == a + [y] + b
  {
    WholeOn(m, m', root, tree');
  }

  /** `rb_link_node` and `__rb_insert` on the nodes of a tree and one more. */
  method InsertNode(root: Root, node: Node, parent: Node?, link: Link, cb: Callbacks, ghost k: Ctx, ghost tree: Tree)
    returns (ghost t: Tree)
    requires Whole(Snap(Nodes(tree)), root.node, tree) && node !in Nodes(tree) && Plug(k, Leaf) == tree
    requires parent == Above(k, null) && link == LinkOf(k, root)
    modifies root, Nodes(tree), node
    ensures Whole(Snap(Nodes(t)), root.node, t) && Inorder(t) == Before(k) + [node] + After(k)
    ensures cb == Max && old(AugOK(Plug(k, NewLeaf(node, node.aug)))) ==> AugOK(t)
    ensures root.rotations <= old(root.rotations) + 2
  {
    ghost var S, v := Nodes(tree) + {node}, node.aug;
    VacantOn(Snap(Nodes(tree)), Snap(S), root.node, tree, k, node);
    t := LinkAndInsert(node, parent, link, root, cb, k, S);
    InsertedOn(Snap(S), Snap(Nodes(t)), root.node, k, node, v, t, cb);
  }

  /** `rb_add` likewise. */
  method AddNode(root: Root, node: Node, cmp: Cmp, ghost tree: Tree)
    returns (ghost t: Tree, ghost a: seq<Node>, ghost b: seq<Node>)
    requires Whole(Snap(Nodes(tree)), root.node, tree) && node !in Nodes(tree)
    modifies root, Nodes(tree), node
    ensures Whole(Snap(Nodes(t)), root.node, t) && Added(tree, t, node, cmp, a, b)
    ensures root.rotations <= old(root.rotations) + 2
  {
    ghost var S, depth := Nodes(tree) + {node}, 0;
    WholeOn(Snap(Nodes(tree)), Snap(S), root.node, tree);
    t, a, b, depth := RbSearch.Add(root, node, cmp, tree, S);
    WholeOn(Snap(S), Snap(Nodes(t)), root.node, t);
  }

  /** `rb_erase` likewise. */
  method EraseNode(root: Root, node: Node, cb: Callbacks, ghost tree: Tree) returns (ghost t: Tree)
    requires Whole(Snap(Nodes(tree)), root.node, tree) && node in Nodes(tree)
    modifies root, Nodes(tree)
    ensures Whole(Snap(Nodes(t)), root.node, t) && Inorder(t) == Without(Inorder(tree), node)
    ensures cb == Max && AugOK(tree) ==> AugOK(t)
    ensures root.rotations <= old(root.rotations) + 3
  {
    ghost var S := Nodes(tree);
    t := RbErase.Erase(node, root, cb, tree, S);
    WholeOn(Snap(S), Snap(Nodes(t)), root.node, t);
  }

  /** `rb_replace_node` likewise. */
  method ReplaceIn(root: Root, victim: Node, new_: Node, ghost tree: Tree)
    returns (ghost t: Tree, ghost a: seq<Node>, ghost b: seq<Node>)
    requires Whole(Snap(Nodes(tree)), root.node, tree) && victim in Nodes(tree) && new_ !in Nodes(tree)
    modifies root`node, Nodes(tree), new_
    ensures Whole(Snap(Nodes(t)), root.node, t) && Inorder(tree) == a + [victim] + b && Inorder(t) == a + [new_] + b
    ensures new_.val == victim.val && new_.aug == victim.aug && AugOK(tree) ==> AugOK(t)
  {
    ghost var S := Nodes(tree) + {new_};
    WholeOn(Snap(Nodes(tree)), Snap(S), root.node, tree);
    t, a, b := RbReplace.ReplaceNode(victim, new_, root, tree, S);
    ReplacedOn(Snap(S), Snap(Nodes(t)), root.node, tree, t, victim, new_, a, b);
  }

  ghost function FirstOf(s: seq<Node>): Node? {
    if s == [] then null else s[0]
  }

  class PlainTree {
    const root: Root
    ghost var tree: Tree

    ghost predicate Valid()
      reads this, root, Nodes(tree)
    {
      Whole(Snap(Nodes(tree)), root.node, tree)
    }

    ghost function Contents(): seq<Node>
      reads this
    {
      Inorder(tree)
    }

    /** `RB_ROOT` */
    constructor ()
      ensures Valid() && Contents() == [] && fresh(root)
    {
      root := new Root();
      tree := Leaf;
      new;
      assert RB(Leaf, 0);
    }

    /** `rb_add` */
    method Add(node: Node, cmp: Cmp) returns (ghost a: seq<Node>, ghost b: seq<Node>)
      requires Valid() && node !in Nodes(tree)
      modifies this, root, Nodes(tree), node
      ensures Valid() && old(Contents()) == a + b && Contents() == a + [node] + b
      ensures TotalPreorder(cmp) && Sorted(old(Contents()), cmp) ==>
        Sorted(Contents(), cmp) && AllLe(a, node, cmp) && AllGt(b, node, cmp)
      ensures root.rotations <= old(root.rotations) + 2
    {
      ghost var t;
      t, a, b := AddNode(root, node, cmp, tree);
      tree := t;
    }

    /** Linking at an empty position found by the caller, then `rb_insert_color` (`Dummy`) or
        `rb_insert_augmented` (`Max`).  If the caller has first updated the stored maxima
        along the path, so that the tree with the new leaf is consistent, every stored
        value is its subtree's maximum afterwards. */
    method Insert(node: Node, parent: Node?, link: Link, cb: Callbacks, ghost k: Ctx)
      requires Valid() && node !in Nodes(tree) && Plug(k, Leaf) == tree && parent == Above(k, null)
        && link == LinkOf(k, root)
      modifies this, root, Nodes(tree), node
      ensures Valid() && Contents() == Before(k) + [node] + After(k)
      ensures cb == Max && old(AugOK(Plug(k, NewLeaf(node, node.aug)))) ==> AugOK(tree)
      ensures root.rotations <= old(root.rotations) + 2
    {
      ghost var t := InsertNode(root, node, parent, link, cb, k, tree);
      tree := t;
    }

    /** `rb_erase` (`Dummy`) and `rb_erase_augmented` (`Max`) */
    method Erase(node: Node, cb: Callbacks)
      requires Valid() && node in Nodes(tree)
      modifies this, root, Nodes(tree)
      ensures Valid() && Contents() == Without(old(Contents()), node)
      ensures cb == Max && old(AugOK(tree)) ==> AugOK(tree)
      ensures root.rotations <= old(root.rotations) + 3
    {
      ghost var t := EraseNode(root, node, cb, tree);
      tree := t;
    }

    /** `rb_next` on a node of the tree */
    method Successor(node: Node) returns (n: Node?)
      requires Valid() && node in Nodes(tree)
      ensures NoDup(Contents()) && node in Contents() && n == NextIn(Contents(), node)
    {
      WholeHeld(Snap(Nodes(tree)), root.node, tree);
      DistinctNoDup(tree);
      ghost var k, t := HeldAt(Snap(Nodes(tree)), root.node, tree, node);
      n := Next(node, root.node, tree, Nodes(tree));
    }

    /** `rb_first` */
    method Least() returns (n: Node?)
      requires Valid()
      ensures n == FirstOf(Contents())
    {
      WholeHeld(Snap(Nodes(tree)), root.node, tree);
      n := First(root, tree, Nodes(tree));
    }

    /** `rb_find_first`, with as many steps as `rb_add`: logarithmic in the number of nodes */
    method Find(probe: Probe) returns (n: Node?, ghost depth: nat)
      requires Valid()
      ensures Valid()
      ensures Monotone(Contents(), probe) ==> FirstMatch(Contents(), probe, n)
      ensures Pow2((depth + 1) / 2) <= |Contents()| + 1
    {
      WholeHeld(Snap(Nodes(tree)), root.node, tree);
      ghost var k;
      n, k, depth := FindFirst(root, probe, tree, Nodes(tree));
      HeightBound(tree);
      Pow2Mono((depth + 1) / 2, (Height(tree) + 1) / 2);
    }

    /** `rb_find_first` and repeated `rb_next_match` */
    method FindAll(probe: Probe) returns (found: seq<Node>)
      requires Valid() && Monotone(Contents(), probe)
      ensures found == Matching(Contents(), probe)
    {
      WholeHeld(Snap(Nodes(tree)), root.node, tree);
      found := RbSearch.FindAll(root, probe, tree, Nodes(tree));
    }

    /** `rb_replace_node` */
    method Replace(victim: Node, new_: Node) returns (ghost a: seq<Node>, ghost b: seq<Node>)
      requires Valid() && victim in Nodes(tree) && new_ !in Nodes(tree)
      modifies this, root`node, Nodes(tree), new_
      ensures Valid() && old(Contents()) == a + [victim] + b && Contents() == a + [new_] + b
      ensures new_.val == victim.val && new_.aug == victim.aug && old(AugOK(tree)) ==> AugOK(tree)
    {
      ghost var t;
      t, a, b := ReplaceIn(root, victim, new_, tree);
      tree := t;
    }
  }

  /** Erasing keeps the first node, or makes its successor the first. */
  lemma {:induction false} FirstWithout(s: seq<Node>, x: Node)
    requires NoDup(s) && x in s
    ensures FirstOf(Without(s, x)) == if FirstOf(s) == x then NextIn(s, x) else FirstOf(s)
  {
    if s[0] == x {
      IndexUnique(s, 0);
    }
  }

  /** `struct rb_root_cached`: `leftmost` always is what `rb_first` would compute. */
  class CachedTree {
    const plain: PlainTree
    var leftmost: Node?

    ghost predicate Valid()
      reads this, plain, plain.root, Nodes(plain.tree)
    {
      plain.Valid() && leftmost == FirstOf(plain.Contents())
    }

    ghost function Contents(): seq<Node>
      reads plain
    {
      plain.Contents()
    }

    /** `RB_ROOT_CACHED` */
    constructor ()
      ensures Valid() && Contents() == [] && fresh(plain) && fresh(plain.root)
    {
      plain := new PlainTree();
      leftmost := null;
    }

    /** Linking at an empty position, then `rb_insert_color_cached` (`Dummy`) or
        `rb_insert_augmented_cached` (`Max`) with the flag set exactly when the new node
        is first in order. */
    method Insert(node: Node, parent: Node?, link: Link, isFirst: bool, cb: Callbacks, ghost k: Ctx)
      requires Valid() && node !in Nodes(plain.tree) && Plug(k, Leaf) == plain.tree && parent == Above(k, null)
        && link == LinkOf(k, plain.root)
      requires isFirst <==> Before(k) == []
      modifies this, plain, plain.root, Nodes(plain.tree), node
      ensures Valid() && Contents() == Before(k) + [node] + After(k)
      ensures cb == Max && old(AugOK(Plug(k, NewLeaf(node, node.aug)))) ==> AugOK(plain.tree)
    {
      LeafOrder(k, node, node.aug);
      if isFirst {
        leftmost := node;
      }
      plain.Insert(node, parent, link, cb, k);
    }

    /** `rb_erase_cached` (`Dummy`) and `rb_erase_augmented_cached` (`Max`) */
    method Erase(node: Node, cb: Callbacks)
      requires Valid() && node in Nodes(plain.tree)
      modifies this, plain, plain.root, Nodes(plain.tree)
      ensures Valid() && Contents() == Without(old(Contents()), node)
      ensures cb == Max && old(AugOK(plain.tree)) ==> AugOK(plain.tree)
    {
      DistinctNoDup(plain.tree);
      InorderNodes(plain.tree);
      assert node in Elems(Contents());
      FirstWithout(Contents(), node);
      if leftmost == node {
        leftmost := plain.Successor(node);
      }
      plain.Erase(node, cb);
    }

    /** `rb_replace_node_cached` */
    method Replace(victim: Node, new_: Node) returns (ghost a: seq<Node>, ghost b: seq<Node>)
      requires Valid() && victim in Nodes(plain.tree) && new_ !in Nodes(plain.tree)
      modifies this, plain, plain.root, Nodes(plain.tree), new_
      ensures Valid() && old(Contents()) == a + [victim] + b && Contents() == a + [new_] + b
    {
      DistinctNoDup(plain.tree);
      ghost var s := Contents();
      if leftmost == victim {
        leftmost := new_;
      }
      a, b := plain.Replace(victim, new_);
      FirstExchanged(s, victim, new_, a, b);
    }
  }

  lemma {:induction false} FirstExchanged(s: seq<Node>, x: Node, y: Node, a: seq<Node>, b: seq<Node>)
    requires NoDup(s) && s == a + [x] + b
    ensures FirstOf(a + [y] + b) == if FirstOf(s) == x then y else FirstOf(s)
  {
    assert s[|a|] == x;
  }
}
