/**
 `rb_link_node`, `rb_add`, `rb_find_first` and `rb_next_match`: ordered insertion and
 search under a caller-supplied comparison.
 */
module RbSearch {
  import opened Sequences
  import opened RbShape
  import opened RbBalance
  import opened RbPrimitives
  import opened RbInsert
  import opened RbIterate

  /** What a comparison callback computes from the bytes of two enclosing structures. */
  type Cmp = (seq<int>, seq<int>) -> int

  ghost predicate TotalPreorder(cmp: Cmp) {
    && (forall a, b :: cmp(a, b) < 0 <==> cmp(b, a) > 0)
    && (forall a, b, c :: cmp(a, b) <= 0 && cmp(b, c) <= 0 ==> cmp(a, c) <= 0)
  }

  ghost predicate Sorted(s: seq<Node>, cmp: Cmp) {
    forall i, j :: 0 <= i < j < |s| ==> cmp(s[i].payload, s[j].payload) <= 0
  }

  /** Every node of `s` compares at most equal to `x`. */
  ghost predicate AllLe(s: seq<Node>, x: Node, cmp: Cmp) {
    forall i :: 0 <= i < |s| ==> cmp(x.payload, s[i].payload) >= 0
  }

  /** `x` compares less than every node of `s`. */
  ghost predicate AllGt(s: seq<Node>, x: Node, cmp: Cmp) {
    forall i :: 0 <= i < |s| ==> cmp(x.payload, s[i].payload) < 0
  }

  lemma {:induction false} SortedInsert(a: seq<Node>, x: Node, b: seq<Node>, cmp: Cmp)
    requires TotalPreorder(cmp) && Sorted(a + b, cmp) && AllLe(a, x, cmp) && AllGt(b, x, cmp)
    ensures Sorted(a + [x] + b, cmp)
  {
    var s, w := a + b, a + [x] + b;
    forall i, j | 0 <= i < j < |w| ensures cmp(w[i].payload, w[j].payload) <= 0 {
      if i < |a| && j == |a| {
        assert cmp(x.payload, a[i].payload) >= 0;
      } else if i == |a| {
        assert cmp(x.payload, b[j - |a| - 1].payload) < 0;
      } else {
        var i', j' := if i < |a| then i else i - 1, if j < |a| then j else j - 1;
        assert w[i] == s[i'] && w[j] == s[j'];
      }
    }
  }

  // ------------------------------------------------------------- linking

  /** What a `struct rb_node **` points at. */
  datatype Link = AtRoot(root: Root) | AtChild(owner: Node, side: Side) {
    function Get(): Node?
      reads match this case AtRoot(r) => {r as object} case AtChild(o, _) => {o}
    {
      match this
      case AtRoot(r) => r.node
      case AtChild(o, s) => o.Child(s)
    }
  }

  /** The link above the hole of `k`. */
  ghost function LinkOf(k: Ctx, root: Root): Link {
    if k.Hole? then AtRoot(root) else AtChild(k.n, k.s)
  }

  /** An empty position in a valid tree that does not contain `node`. */
  ghost predicate Vacant(m: Mem, root: Node?, k: Ctx, node: Node) {
    var heap := Zipper(m, k, Leaf, null) && root == Apex(k, null) && node in m;
    var balance := ZDistinct(k, Leaf) && RBTree(Plug(k, Leaf)) && OffC(node, k);
    var all := heap && balance;
    all
  }

  ghost function NewLeaf(node: Node, a: int): Tree {
    Bin(Leaf, node, Red, a, Leaf)
  }

  ghost predicate LinkedIn(m: Mem, m': Mem, k: Ctx, node: Node) {
    && node in m' && m'[node] == Cell(Above(k, null), Red, null, null, m'[node].aug)
    && (k.Step? ==>
      k.n in m && k.n in m'
      && m'[k.n] == MkCell(k.s, m[k.n].parent, m[k.n].color, node, m[k.n].Child(k.s.Opp()), m[k.n].aug))
    && Agree(m, m', node, Above(k, null), null, null)
  }

  /** `rb_link_node` */
  method LinkNode(node: Node, parent: Node?, link: Link, ghost root: Root, ghost k: Ctx, ghost S: set<Node>)
    requires node in S && parent == Above(k, null) && link == LinkOf(k, root) && (k.Step? ==> k.n in S && k.n != node)
    modifies root`node, S`parent, S`color, S`left, S`right
    ensures LinkedIn(old(Snap(S)), Snap(S), k, node) && node.aug == old(node.aug)
    ensures root.node == if k.Hole? then node else old(root.node)
  {
    node.parent, node.color := parent, Red;
    node.left, node.right := null, null;
    match link
    case AtRoot(r) =>
      r.node := node;
    case AtChild(o, s) =>
      o.SetChild(s, node);
  }

  lemma {:induction false} LinkedFocus(m: Mem, m': Mem, root: Node?, root': Node?, k: Ctx, node: Node)
    requires Vacant(m, root, k, node) && LinkedIn(m, m', k, node) && root' == if k.Hole? then node else root
    ensures Focus(m', root', k, NewLeaf(node, m'[node].aug), 0)
  {
    var t := NewLeaf(node, m'[node].aug);
    var h := UnplugRB(k, Leaf);
    assert Rehung(m', k, node, null);
    RehangRep(m, m', k, null, node, null, node, Above(k, null), null, null);
    assert Rep(m', t, Above(k, null));
    assert RB(t, 0);
    assert Nodes(t) == {node};
    assert k.Step? ==> Apex(k, null) == Apex(k.up, k.n) == Apex(k, node);
  }

  lemma {:induction false} VacantFlat(m: Mem, root: Node?, k: Ctx, node: Node)
    requires Vacant(m, root, k, node)
    ensures k.Step? ==> k.n in m && k.n != node
  {
  }

  /** Link a node at an empty position and rebalance: `rb_link_node` then `__rb_insert`. */
  method LinkAndInsert(node: Node, parent: Node?, link: Link, root: Root, cb: Callbacks, ghost k: Ctx,
      ghost S: set<Node>)
    returns (ghost tree: Tree)
    requires Vacant(Snap(S), root.node, k, node) && parent == Above(k, null) && link == LinkOf(k, root)
    modifies root, S
    ensures Rebuilt(Snap(S), root.node, Plug(k, NewLeaf(node, old(node.aug))), tree, cb)
    ensures root.rotations <= old(root.rotations) + 2
  {
    ghost var m, r := Snap(S), root.node;
    VacantFlat(m, r, k, node);
    LinkNode(node, parent, link, root, k, S);
    LinkedFocus(m, Snap(S), r, root.node, k, node);
    tree := Insert(node, root, cb, k, NewLeaf(node, node.aug), 0, S);
  }

  // -------------------------------------------------------------- descent

  /** The descent of `rb_add`: it stops at the position after every node not greater than `node`. */
  method FindPlace(root: Root, node: Node, cmp: Cmp, ghost tree: Tree, ghost S: set<Node>)
    returns (parent: Node?, link: Link, ghost k: Ctx, ghost depth: nat)
    requires Held(Snap(S), root.node, tree)
    ensures Plug(k, Leaf) == tree && Zipper(Snap(S), k, Leaf, null) && parent == Above(k, null)
      && link == LinkOf(k, root)
    ensures TotalPreorder(cmp) && Sorted(Inorder(tree), cmp) ==>
      AllLe(Before(k), node, cmp) && AllGt(After(k), node, cmp)
    ensures depth == Depth(k) <= Height(tree)
  {
    link, parent := AtRoot(root), null;
    k := Hole;
    depth := 0;
    ghost var t := tree;
    ghost var ordered := TotalPreorder(cmp) && Sorted(Inorder(tree), cmp);
    while link.Get() != null
      invariant Plug(k, t) == tree && Zipper(Snap(S), k, t, null) && parent == Above(k, null) && link == LinkOf(k, root)
      invariant link.Get() == Top(t)
      invariant ordered ==> AllLe(Before(k), node, cmp) && AllGt(After(k), node, cmp)
      invariant depth == Depth(k) && depth + Height(t) <= Height(tree)
      decreases t
    {
      parent := link.Get();
      var c := cmp(node.payload, parent.payload);
      if ordered { DescendOrder(k, t, node, cmp); }
      depth := depth + 1;
      if c < 0 {
        link := AtChild(parent, Left);
        k, t := Step(Left, t.n, t.c, t.a, t.r, k), t.l;
      } else {
        link := AtChild(parent, Right);
        k, t := Step(Right, t.n, t.c, t.a, t.l, k), t.r;
      }
    }
  }

  lemma {:induction false} DescendOrder(k: Ctx, t: Tree, x: Node, cmp: Cmp)
    requires t.Bin? && TotalPreorder(cmp) && Sorted(Inorder(Plug(k, t)), cmp) && AllLe(Before(k), x, cmp)
      && AllGt(After(k), x, cmp)
    ensures cmp(x.payload, t.n.payload) < 0 ==> AllGt([t.n] + Inorder(t.r) + After(k), x, cmp)
    ensures cmp(x.payload, t.n.payload) >= 0 ==> AllLe(Before(k) + Inorder(t.l) + [t.n], x, cmp)
  {
    PlugInorder(k, t);
    var B, L, R, A := Before(k), Inorder(t.l), Inorder(t.r), After(k);
    SortedAround(B, L, t.n, R, A, cmp);
    if cmp(x.payload, t.n.payload) < 0 {
      GtExtend(x, t.n, R, A, cmp);
    } else {
      LeExtend(x, t.n, B, L, cmp);
    }
  }

  lemma {:induction false} GtExtend(x: Node, n: Node, R: seq<Node>, A: seq<Node>, cmp: Cmp)
    requires TotalPreorder(cmp) && cmp(x.payload, n.payload) < 0 && AllGt(A, x, cmp)
    requires forall i :: 0 <= i < |R| ==> cmp(n.payload, R[i].payload) <= 0
    ensures AllGt([n] + R + A, x, cmp)
  {
    forall i | 0 <= i < |R| ensures cmp(x.payload, R[i].payload) < 0 {
      LtTrans(x.payload, n.payload, R[i].payload, cmp);
    }
  }

  lemma {:induction false} LeExtend(x: Node, n: Node, B: seq<Node>, L: seq<Node>, cmp: Cmp)
    requires TotalPreorder(cmp) && cmp(x.payload, n.payload) >= 0 && AllLe(B, x, cmp)
    requires forall i :: 0 <= i < |L| ==> cmp(L[i].payload, n.payload) <= 0
    ensures AllLe(B + L + [n], x, cmp)
  {
    forall i | 0 <= i < |L| ensures cmp(x.payload, L[i].payload) >= 0 {
      GeTrans(x.payload, n.payload, L[i].payload, cmp);
    }
  }

  lemma LtTrans(a: seq<int>, b: seq<int>, c: seq<int>, cmp: Cmp)
    requires TotalPreorder(cmp) && cmp(a, b) < 0 && cmp(b, c) <= 0
    ensures cmp(a, c) < 0
  {
    assert cmp(c, a) <= 0 ==> cmp(b, a) <= 0;
  }

  lemma GeTrans(a: seq<int>, b: seq<int>, c: seq<int>, cmp: Cmp)
    requires TotalPreorder(cmp) && cmp(a, b) >= 0 && cmp(c, b) <= 0
    ensures cmp(a, c) >= 0
  {
    assert cmp(b, a) <= 0;
    assert cmp(c, a) <= 0;
  }

  lemma {:induction false} SortedAround(B: seq<Node>, L: seq<Node>, x: Node, R: seq<Node>, A: seq<Node>, cmp: Cmp)
    requires Sorted(B + (L + [x] + R) + A, cmp)
    ensures forall i :: 0 <= i < |L| ==> cmp(L[i].payload, x.payload) <= 0
    ensures forall i :: 0 <= i < |R| ==> cmp(x.payload, R[i].payload) <= 0
  {
    var w, n := B + (L + [x] + R) + A, |B| + |L|;
    assert w[n] == x;
    forall i | 0 <= i < |L| ensures cmp(L[i].payload, x.payload) <= 0 {
      assert w[|B| + i] == L[i];
    }
    forall i | 0 <= i < |R| ensures cmp(x.payload, R[i].payload) <= 0 {
      assert w[n + 1 + i] == R[i];
    }
  }

  /** `tree'` is `tree` with `node` placed after everything that does not compare greater. */
  ghost predicate Added(tree: Tree, tree': Tree, node: Node, cmp: Cmp, a: seq<Node>, b: seq<Node>) {
    && Inorder(tree) == a + b && Inorder(tree') == a + [node] + b
    && (TotalPreorder(cmp) && Sorted(Inorder(tree), cmp) ==>
      Sorted(Inorder(tree'), cmp) && AllLe(a, node, cmp) && AllGt(b, node, cmp))
  }

  lemma {:induction false} AddedOf(tree: Tree, tree': Tree, node: Node, cmp: Cmp, k: Ctx, a: int, cb: Callbacks)
    requires Plug(k, Leaf) == tree && Keeps(Plug(k, NewLeaf(node, a)), tree', cb)
    requires TotalPreorder(cmp) && Sorted(Inorder(tree), cmp) ==>
      AllLe(Before(k), node, cmp) && AllGt(After(k), node, cmp)
    ensures Added(tree, tree', node, cmp, Before(k), After(k))
  {
    PlugInorder(k, Leaf);
    PlugInorder(k, NewLeaf(node, a));
    assert Inorder(NewLeaf(node, a)) == [node];
    assert Before(k) + [] + After(k) == Before(k) + After(k);
    if TotalPreorder(cmp) && Sorted(Inorder(tree), cmp) {
      SortedInsert(Before(k), node, After(k), cmp);
    }
  }

  lemma {:induction false} PlaceVacant(m: Mem, root: Node?, tree: Tree, k: Ctx, node: Node)
    requires Whole(m, root, tree) && Plug(k, Leaf) == tree && Zipper(m, k, Leaf, null) && node in m
      && node !in Nodes(tree)
    ensures Vacant(m, root, k, node)
  {
    PlugNodes(k, Leaf);
    PlugRep(m, k, Leaf, null);
  }

  /** `rb_add`: at most two rotations, and a descent no longer than the tree is high. */
  method Add(root: Root, node: Node, cmp: Cmp, ghost tree: Tree, ghost S: set<Node>)
    returns (ghost tree': Tree, ghost a: seq<Node>, ghost b: seq<Node>, ghost depth: nat)
    requires Whole(Snap(S), root.node, tree) && node in S && node !in Nodes(tree)
    modifies root, S
    ensures Whole(Snap(S), root.node, tree') && Added(tree, tree', node, cmp, a, b)
    ensures Pow2((depth + 1) / 2) <= |Inorder(tree)| + 1 && root.rotations <= old(root.rotations) + 2
  {
    var parent, link;
    ghost var k;
    parent, link, k, depth := FindPlace(root, node, cmp, tree, S);
    HeightBound(tree);
    Pow2Mono((depth + 1) / 2, (Height(tree) + 1) / 2);
    PlaceVacant(Snap(S), root.node, tree, k, node);
    ghost var v := node.aug;
    tree' := LinkAndInsert(node, parent, link, root, Dummy, k, S);
    a, b := Before(k), After(k);
    AddedOf(tree, tree', node, cmp, k, v, Dummy);
  }

  // --------------------------------------------------------------- search

  /** `cmp(key, .)` for a fixed key. */
  type Probe = seq<int> -> int

  /** Along `s` the key compares first greater, then equal, then less. */
  ghost predicate Monotone(s: seq<Node>, probe: Probe) {
    forall i, j :: 0 <= i < j < |s| ==>
      (probe(s[i].payload) <= 0 ==> probe(s[j].payload) <= 0) && (probe(s[i].payload) < 0 ==> probe(s[j].payload) < 0)
  }

  ghost predicate AllAbove(s: seq<Node>, probe: Probe) {
    forall i :: 0 <= i < |s| ==> probe(s[i].payload) > 0
  }

  ghost predicate AllBelow(s: seq<Node>, probe: Probe) {
    forall i :: 0 <= i < |s| ==> probe(s[i].payload) < 0
  }

  /** `match_` is the first node equal to the key among those known not to precede it. */
  ghost predicate BestSoFar(k: Ctx, match_: Node?, probe: Probe) {
    && AllAbove(Before(k), probe)
    && (match_ == null ==> AllBelow(After(k), probe))
    && (match_ != null ==> After(k) != [] && After(k)[0] == match_ && probe(match_.payload) == 0)
  }

  lemma {:induction false} MonotoneAround(B: seq<Node>, L: seq<Node>, x: Node, R: seq<Node>, A: seq<Node>, probe: Probe)
    requires Monotone(B + (L + [x] + R) + A, probe)
    ensures probe(x.payload) < 0 ==> AllBelow([x] + R + A, probe)
    ensures probe(x.payload) > 0 ==> AllAbove(B + L + [x], probe)
  {
    var s, n := B + (L + [x] + R) + A, |B| + |L|;
    assert s[n] == x;
    forall i | 0 <= i < |[x] + R + A| ensures ([x] + R + A)[i] == s[n + i] {}
    forall i | 0 <= i < |B + L + [x]| ensures (B + L + [x])[i] == s[i] {}
  }

  lemma {:induction false} SearchLeft(k: Ctx, t: Tree, match_: Node?, probe: Probe)
    requires t.Bin? && Monotone(Inorder(Plug(k, t)), probe) && BestSoFar(k, match_, probe) && probe(t.n.payload) <= 0
    ensures BestSoFar(Step(Left, t.n, t.c, t.a, t.r, k), if probe(t.n.payload) == 0 then t.n else match_, probe)
  {
    PlugInorder(k, t);
    MonotoneAround(Before(k), Inorder(t.l), t.n, Inorder(t.r), After(k), probe);
    var w := [t.n] + Inorder(t.r) + After(k);
    assert After(k) != [] ==> w[1 + |Inorder(t.r)|] == After(k)[0];
  }

  lemma {:induction false} SearchRight(k: Ctx, t: Tree, match_: Node?, probe: Probe)
    requires t.Bin? && Monotone(Inorder(Plug(k, t)), probe) && BestSoFar(k, match_, probe) && probe(t.n.payload) > 0
    ensures BestSoFar(Step(Right, t.n, t.c, t.a, t.l, k), match_, probe)
  {
    PlugInorder(k, t);
    MonotoneAround(Before(k), Inorder(t.l), t.n, Inorder(t.r), After(k), probe);
  }

  /** `s[..i]` compares below the key and, when there is a match, it is `s[i]`. */
  ghost predicate FirstMatch(s: seq<Node>, probe: Probe, r: Node?) {
    if r == null then forall i :: 0 <= i < |s| ==> probe(s[i].payload) != 0
    else probe(r.payload) == 0 && exists i :: 0 <= i < |s| && s[i] == r && AllAbove(s[..i], probe)
  }

  lemma {:induction false} SearchDone(k: Ctx, match_: Node?, probe: Probe)
    requires BestSoFar(k, match_, probe)
    ensures FirstMatch(Inorder(Plug(k, Leaf)), probe, match_)
  {
    PlugInorder(k, Leaf);
    var B, A := Before(k), After(k);
    var s := B + [] + A;
    assert s == B + A;
    if match_ != null {
      assert s[|B|] == match_ && s[..|B|] == B;
    }
  }

  /** `rb_find_first` */
  method FindFirst(root: Root, probe: Probe, ghost tree: Tree, ghost S: set<Node>)
      returns (match_: Node?, ghost k: Ctx, ghost depth: nat)
    requires Held(Snap(S), root.node, tree)
    ensures Monotone(Inorder(tree), probe) ==> FirstMatch(Inorder(tree), probe, match_)
    ensures Plug(k, Leaf) == tree && depth == Depth(k) <= Height(tree)
  {
    var node := root.node;
    match_ := null;
    depth := 0;
    k := Hole;
    ghost var t := tree;
    while node != null
      invariant Plug(k, t) == tree && Zipper(Snap(S), k, t, null) && node == Top(t)
      invariant Monotone(Inorder(tree), probe) ==> BestSoFar(k, match_, probe)
      invariant depth == Depth(k) && depth + Height(t) <= Height(tree)
      decreases t
    {
      var c := probe(node.payload);
      depth := depth + 1;
      if c <= 0 {
        if Monotone(Inorder(tree), probe) { SearchLeft(k, t, match_, probe); }
        if c == 0 {
          match_ := node;
        }
        node := node.left;
        k, t := Step(Left, t.n, t.c, t.a, t.r, k), t.l;
      } else {
        if Monotone(Inorder(tree), probe) { SearchRight(k, t, match_, probe); }
        node := node.right;
        k, t := Step(Right, t.n, t.c, t.a, t.l, k), t.r;
      }
    }
    if Monotone(Inorder(tree), probe) { SearchDone(k, match_, probe); }
  }

  /** `rb_next_match` */
  method NextMatch(node: Node, probe: Probe, ghost root: Node?, ghost tree: Tree, ghost S: set<Node>) returns (n: Node?)
    requires Held(Snap(S), root, tree) && node in Nodes(tree)
    ensures node in Inorder(tree)
    ensures var next := NextIn(Inorder(tree), node);
      n == if next != null && probe(next.payload) != 0 then null else next
  {
    ghost var k, t := HeldAt(Snap(S), root, tree, node);
    n := Next(node, root, tree, S);
    if n != null && probe(n.payload) != 0 {
      n := null;
    }
  }

  /** The nodes of `s` that equal the key, in order. */
  ghost function Matching(s: seq<Node>, probe: Probe): seq<Node> {
    if s == [] then [] else (if probe(s[0].payload) == 0 then [s[0]] else []) + Matching(s[1..], probe)
  }

  lemma {:induction false} MatchingConcat(s: seq<Node>, s': seq<Node>, probe: Probe)
    ensures Matching(s + s', probe) == Matching(s, probe) + Matching(s', probe)
  {
    if s == [] {
      assert s + s' == s';
    } else {
      assert (s + s')[1..] == s[1..] + s';
      MatchingConcat(s[1..], s', probe);
    }
  }

  lemma {:induction false} MatchingNone(s: seq<Node>, probe: Probe)
    requires forall i :: 0 <= i < |s| ==> probe(s[i].payload) != 0
    ensures Matching(s, probe) == []
  {
    if s != [] { MatchingNone(s[1..], probe); }
  }

  /** `found` holds the matches before position `i`, where the walk stands if not finished. */
  ghost predicate Collected(s: seq<Node>, probe: Probe, found: seq<Node>, i: nat, n: Node?) {
    && i <= |s|
    && var done := found + Matching(s[i..], probe) == Matching(s, probe);
       var here := if n == null then Matching(s[i..], probe) == [] else i < |s| && n == s[i] && probe(n.payload) == 0;
       done && here
  }

  lemma {:induction false} CollectStart(s: seq<Node>, probe: Probe, n: Node?) returns (i: nat)
    requires FirstMatch(s, probe, n)
    ensures Collected(s, probe, [], i, n)
  {
    if n == null {
      i := |s|;
      MatchingNone(s, probe);
    } else {
      i :| 0 <= i < |s| && s[i] == n && AllAbove(s[..i], probe);
      MatchingNone(s[..i], probe);
      MatchingConcat(s[..i], s[i..], probe);
      assert s == s[..i] + s[i..];
    }
  }

  lemma {:induction false} CollectStep(s: seq<Node>, probe: Probe, found: seq<Node>, i: nat, n: Node, n': Node?)
    requires NoDup(s) && Monotone(s, probe) && Collected(s, probe, found, i, n) && n in s
    requires var next := NextIn(s, n); n' == if next != null && probe(next.payload) != 0 then null else next
    ensures Collected(s, probe, found + [n], i + 1, n')
  {
    IndexUnique(s, i);
    assert s[i..][1..] == s[i + 1..];
    assert found + ([n] + Matching(s[i + 1..], probe)) == found + [n] + Matching(s[i + 1..], probe);
    if n' == null && i + 1 < |s| {
      assert probe(s[i + 1].payload) < 0;
      MatchingNone(s[i + 1..], probe);
    }
  }

  /** One round of the walk over the matches. */
  method CollectNext(n: Node, probe: Probe, ghost root: Node?, ghost tree: Tree, ghost S: set<Node>,
      ghost found: seq<Node>, ghost i: nat)
    returns (next: Node?)
    requires Held(Snap(S), root, tree) && Monotone(Inorder(tree), probe) && Collected(Inorder(tree), probe, found, i, n)
    ensures Collected(Inorder(tree), probe, found + [n], i + 1, next)
  {
    DistinctNoDup(tree);
    InorderNodes(tree);
    assert n in Elems(Inorder(tree));
    next := NextMatch(n, probe, root, tree, S);
    CollectStep(Inorder(tree), probe, found, i, n, next);
  }

  /** Searching and walking yields all nodes equal to the key, in in-order sequence. */
  method FindAll(root: Root, probe: Probe, ghost tree: Tree, ghost S: set<Node>) returns (found: seq<Node>)
    requires Held(Snap(S), root.node, tree) && Monotone(Inorder(tree), probe)
    ensures found == Matching(Inorder(tree), probe)
  {
    ghost var s := Inorder(tree);
    var n;
    ghost var k, depth;
    n, k, depth := FindFirst(root, probe, tree, S);
    found := [];
    ghost var i := CollectStart(s, probe, n);
    while n != null
      invariant Collected(s, probe, found, i, n)
      decreases if n == null then 0 else 1 + |s| - i
    {
      var next := CollectNext(n, probe, root.node, tree, S, found, i);
      found, n, i := found + [n], next, i + 1;
    }
  }

  /** The key compares like one of the nodes, so the search order agrees with the tree's. */
  ghost predicate Consistent(probe: Probe, cmp: Cmp) {
    && (forall p, q :: cmp(p, q) <= 0 ==> (probe(p) <= 0 ==> probe(q) <= 0) && (probe(p) < 0 ==> probe(q) < 0))
    && (forall p, q :: probe(p) == 0 && probe(q) == 0 ==> cmp(p, q) == 0)
  }

  lemma {:induction false} SortedMonotone(s: seq<Node>, probe: Probe, cmp: Cmp)
    requires Sorted(s, cmp) && Consistent(probe, cmp)
    ensures Monotone(s, probe)
  {
  }

  /** A node added by `rb_add` becomes the last of its equals: equals stay in insertion order. */
  lemma {:induction false} AddedLast(tree: Tree, tree': Tree, node: Node, cmp: Cmp, a: seq<Node>, b: seq<Node>,
      probe: Probe)
    requires Added(tree, tree', node, cmp, a, b) && TotalPreorder(cmp) && Sorted(Inorder(tree), cmp)
      && Consistent(probe, cmp)
    ensures Matching(Inorder(tree'), probe)
      == Matching(Inorder(tree), probe) + (if probe(node.payload) == 0 then [node] else [])
  {
    if probe(node.payload) == 0 {
      NoneAbove(node, b, cmp, probe);
    }
    MatchingInsert(a, node, b, probe);
  }

  lemma {:induction false} NoneAbove(node: Node, b: seq<Node>, cmp: Cmp, probe: Probe)
    requires AllGt(b, node, cmp) && Consistent(probe, cmp) && probe(node.payload) == 0
    ensures forall i :: 0 <= i < |b| ==> probe(b[i].payload) != 0
  {
  }

  lemma {:induction false} MatchingInsert(a: seq<Node>, x: Node, b: seq<Node>, probe: Probe)
    requires probe(x.payload) == 0 ==> forall i :: 0 <= i < |b| ==> probe(b[i].payload) != 0
    ensures Matching(a + [x] + b, probe) == Matching(a + b, probe) + (if probe(x.payload) == 0 then [x] else [])
  {
    MatchingConcat(a, b, probe);
    MatchingConcat(a + [x], b, probe);
    MatchingConcat(a, [x], probe);
    assert [x][1..] == [];
    if probe(x.payload) == 0 { MatchingNone(b, probe); }
  }
}
