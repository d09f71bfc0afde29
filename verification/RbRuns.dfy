/**
 Runs of `rb_add` and `rb_erase`: sortedness is never lost, and nodes with equal keys are found
 in the order of their insertion.
 */
module RbRuns {
  import opened Sequences
  import opened RbShape
  import opened RbIterate
  import opened RbSearch
  import opened RbTrees
  import RbPrimitives

  datatype Change = Addition(node: Node) | Erasure(node: Node)

  /** Past everything that `x` does not compare less than. */
  ghost function PlaceOf(s: seq<Node>, x: Node, cmp: Cmp): (i: nat)
    ensures i <= |s| && (forall j :: 0 <= j < i ==> cmp(x.payload, s[j].payload) >= 0)
    ensures i < |s| ==> cmp(x.payload, s[i].payload) < 0
  {
    if s == [] || cmp(x.payload, s[0].payload) < 0 then 0 else 1 + PlaceOf(s[1..], x, cmp)
  }

  ghost function Placed(s: seq<Node>, x: Node, cmp: Cmp): seq<Node> {
    s[..PlaceOf(s, x, cmp)] + [x] + s[PlaceOf(s, x, cmp)..]
  }

  /** The in-order sequence that a run of changes of the empty tree leaves. */
  ghost function Final(cs: seq<Change>, cmp: Cmp): seq<Node> {
    if cs == [] then [] else Changed(Final(cs[..|cs| - 1], cmp), cs[|cs| - 1], cmp)
  }

  ghost function Changed(s: seq<Node>, c: Change, cmp: Cmp): seq<Node> {
    if c.Addition? then Placed(s, c.node, cmp) else Without(s, c.node)
  }

  /** The nodes that a run leaves, in the order of their insertion. */
  ghost function Survivors(cs: seq<Change>): seq<Node> {
    if cs == [] then [] else
      var before, c := Survivors(cs[..|cs| - 1]), cs[|cs| - 1];
      if c.Addition? then before + [c.node] else Without(before, c.node)
  }

  lemma {:induction false} PlaceUnique(s: seq<Node>, i: nat, x: Node, cmp: Cmp)
    requires i <= |s| && (forall j :: 0 <= j < i ==> cmp(x.payload, s[j].payload) >= 0)
    requires i < |s| ==> cmp(x.payload, s[i].payload) < 0
    ensures PlaceOf(s, x, cmp) == i
  {
    if i > 0 { PlaceUnique(s[1..], i - 1, x, cmp); }
  }

  /** The place that `rb_add` finds is this one. */
  lemma {:induction false} PlacedBetween(a: seq<Node>, x: Node, b: seq<Node>, cmp: Cmp)
    requires AllLe(a, x, cmp) && AllGt(b, x, cmp)
    ensures Placed(a + b, x, cmp) == a + [x] + b
  {
    PlaceUnique(a + b, |a|, x, cmp);
    assert (a + b)[..|a|] == a && (a + b)[|a|..] == b;
  }

  lemma {:induction false} TailGreater(s: seq<Node>, i: nat, x: Node, cmp: Cmp)
    requires TotalPreorder(cmp) && Sorted(s, cmp) && i <= |s| && (i < |s| ==> cmp(x.payload, s[i].payload) < 0)
    ensures AllGt(s[i..], x, cmp)
  {
    forall j | 0 <= j < |s| - i ensures cmp(x.payload, s[i..][j].payload) < 0 {
      if j > 0 { LtTrans(x.payload, s[i].payload, s[i + j].payload, cmp); }
    }
  }

  lemma {:induction false} HeadNotGreater(s: seq<Node>, x: Node, cmp: Cmp)
    ensures AllLe(s[..PlaceOf(s, x, cmp)], x, cmp)
  {
  }

  /** In a sorted sequence it separates the greater nodes from the others. */
  lemma {:induction false} PlacedSplits(s: seq<Node>, x: Node, cmp: Cmp) returns (a: seq<Node>, b: seq<Node>)
    requires TotalPreorder(cmp) && Sorted(s, cmp)
    ensures s == a + b && Placed(s, x, cmp) == a + [x] + b && AllLe(a, x, cmp) && AllGt(b, x, cmp)
  {
    var i := PlaceOf(s, x, cmp);
    a, b := s[..i], s[i..];
    HeadNotGreater(s, x, cmp);
    TailGreater(s, i, x, cmp);
  }

  lemma {:induction false} MatchingFirst(y: Node, s: seq<Node>, probe: Probe)
    ensures Matching([y] + s, probe) == if probe(y.payload) == 0 then [y] + Matching(s, probe) else Matching(s, probe)
  {
    assert ([y] + s)[1..] == s;
  }

  lemma {:induction false} WithoutFirst(y: Node, s: seq<Node>, x: Node)
    ensures Without([y] + s, x) == if y == x then s else [y] + Without(s, x)
  {
    assert ([y] + s)[1..] == s;
  }

  /** Erasing a node erases it from the matches. */
  lemma {:induction false} MatchingWithout(s: seq<Node>, x: Node, probe: Probe)
    ensures Matching(Without(s, x), probe) == Without(Matching(s, probe), x)
  {
    if s != [] {
      var y, rest := s[0], s[1..];
      assert s == [y] + rest;
      MatchingFirst(y, rest, probe);
      WithoutFirst(y, Matching(rest, probe), x);
      if y == x {
        if probe(x.payload) != 0 { NotMatching(rest, x, probe); }
      } else {
        MatchingWithout(rest, x, probe);
        MatchingFirst(y, Without(rest, x), probe);
      }
    }
  }

  /** A node that does not match is not among the matches. */
  lemma {:induction false} NotMatching(s: seq<Node>, x: Node, probe: Probe)
    requires probe(x.payload) != 0
    ensures Without(Matching(s, probe), x) == Matching(s, probe)
  {
    if s != [] {
      assert s == [s[0]] + s[1..];
      MatchingFirst(s[0], s[1..], probe);
      WithoutFirst(s[0], Matching(s[1..], probe), x);
      NotMatching(s[1..], x, probe);
    }
  }

  lemma {:induction false} MatchingLast(s: seq<Node>, x: Node, probe: Probe)
    ensures Matching(s + [x], probe) == Matching(s, probe) + (if probe(x.payload) == 0 then [x] else [])
  {
    MatchingConcat(s, [x], probe);
    assert [x][1..] == [];
  }

  lemma {:induction false} SortedWithout(a: seq<Node>, x: Node, b: seq<Node>, cmp: Cmp)
    requires Sorted(a + [x] + b, cmp)
    ensures Sorted(a + b, cmp)
  {
    var s, w := a + [x] + b, a + b;
    forall p, q | 0 <= p < q < |w| ensures cmp(w[p].payload, w[q].payload) <= 0 {
      var p', q' := if p < |a| then p else p + 1, if q < |a| then q else q + 1;
      assert w[p] == s[p'] && w[q] == s[q'];
    }
  }

  /** Sortedness survives erasure. */
  lemma {:induction false} SortedErase(s: seq<Node>, x: Node, cmp: Cmp)
    requires Sorted(s, cmp)
    ensures Sorted(Without(s, x), cmp)
  {
    if x in s {
      var i := IndexOf(s, x);
      FirstIndex(s, x);
      WithoutMiddle(s[..i], x, s[i + 1..]);
      assert s == s[..i] + [x] + s[i + 1..];
      SortedWithout(s[..i], x, s[i + 1..], cmp);
    } else {
      WithoutAbsent(s, x);
    }
  }

  lemma {:induction false} FirstIndex(s: seq<Node>, x: Node)
    requires x in s
    ensures x !in s[..IndexOf(s, x)]
  {
    if s[0] != x {
      FirstIndex(s[1..], x);
      assert s[..IndexOf(s, x)] == [s[0]] + s[1..][..IndexOf(s[1..], x)];
    }
  }

  lemma {:induction false} WithoutAbsent(s: seq<Node>, x: Node)
    requires x !in s
    ensures Without(s, x) == s
  {
    if s != [] { WithoutAbsent(s[1..], x); }
  }

  /** Every change keeps the sequence sorted and does to the matches what it does to the survivors. */
  lemma {:induction false} ChangeKeeps(s: seq<Node>, c: Change, cmp: Cmp, probe: Probe)
    requires TotalPreorder(cmp) && Consistent(probe, cmp) && Sorted(s, cmp)
    ensures Sorted(Changed(s, c, cmp), cmp)
    ensures Matching(Changed(s, c, cmp), probe) ==
            if c.Erasure? then Without(Matching(s, probe), c.node)
            else Matching(s, probe) + (if probe(c.node.payload) == 0 then [c.node] else [])
  {
    match c
    case Addition(x) =>
      var a, b := PlacedSplits(s, x, cmp);
      SortedInsert(a, x, b, cmp);
      if probe(x.payload) == 0 { NoneAbove(x, b, cmp, probe); }
      MatchingInsert(a, x, b, probe);
    case Erasure(x) =>
      SortedErase(s, x, cmp);
      MatchingWithout(s, x, probe);
  }

  /** After any run of additions and erasures, whatever rebalancing they caused, the nodes equal to a
      key stand in the order of their insertion. */
  lemma {:induction false} InsertionOrder(cs: seq<Change>, cmp: Cmp, probe: Probe)
    requires TotalPreorder(cmp) && Consistent(probe, cmp)
    ensures Sorted(Final(cs, cmp), cmp) && Matching(Final(cs, cmp), probe) == Matching(Survivors(cs), probe)
  {
    if cs != [] {
      var early, c := cs[..|cs| - 1], cs[|cs| - 1];
      InsertionOrder(early, cmp, probe);
      ChangeKeeps(Final(early, cmp), c, cmp, probe);
      if c.Addition? {
        MatchingLast(Survivors(early), c.node, probe);
      } else {
        MatchingWithout(Survivors(early), c.node, probe);
      }
    }
  }

  /** A run can be made: nodes are added while they are out of the tree and erased while in it. */
  ghost predicate Possible(cs: seq<Change>, cmp: Cmp) {
    cs != [] ==>
      var s, c := Final(cs[..|cs| - 1], cmp), cs[|cs| - 1];
      Possible(cs[..|cs| - 1], cmp) && (c.Addition? <==> c.node !in Elems(s))
  }

  ghost function NodesOf(cs: seq<Change>): set<Node> { set i | 0 <= i < |cs| :: cs[i].node }

  lemma {:induction false} PossiblePrefix(cs: seq<Change>, i: nat, cmp: Cmp)
    requires Possible(cs, cmp) && i <= |cs|
    ensures Possible(cs[..i], cmp)
    decreases |cs|
  {
    if i < |cs| {
      assert cs[..|cs| - 1][..i] == cs[..i];
      PossiblePrefix(cs[..|cs| - 1], i, cmp);
    } else {
      assert cs[..i] == cs;
    }
  }

  lemma {:induction false} FinalNext(cs: seq<Change>, i: nat, cmp: Cmp)
    requires i < |cs| && Possible(cs, cmp)
    ensures Final(cs[..i + 1], cmp) == Changed(Final(cs[..i], cmp), cs[i], cmp)
    ensures cs[i].Addition? <==> cs[i].node !in Elems(Final(cs[..i], cmp))
  {
    PossiblePrefix(cs, i + 1, cmp);
    assert cs[..i + 1][..i] == cs[..i];
  }

  method AddOne(t: PlainTree, x: Node, cmp: Cmp)
    requires t.Valid() && TotalPreorder(cmp) && Sorted(t.Contents(), cmp) && x !in Nodes(t.tree)
    modifies t, t.root, Nodes(t.tree), x
    ensures t.Valid() && t.Contents() == Placed(old(t.Contents()), x, cmp)
  {
    ghost var a, b := t.Add(x, cmp);
    PlacedBetween(a, x, b, cmp);
  }

  method EraseOne(t: PlainTree, x: Node)
    requires t.Valid() && x in Nodes(t.tree)
    modifies t, t.root, Nodes(t.tree)
    ensures t.Valid() && t.Contents() == Without(old(t.Contents()), x)
  {
    t.Erase(x, RbPrimitives.Dummy);
  }

  /** The tree holds what the first i changes leave. */
  ghost predicate Replayed(t: PlainTree, cs: seq<Change>, i: nat, cmp: Cmp)
    reads t, t.root, Nodes(t.tree)
  {
    var all := i <= |cs| && t.Valid() && t.Contents() == Final(cs[..i], cmp) && Nodes(t.tree) <= NodesOf(cs);
    all
  }

  lemma {:induction false} ChangedElems(s: seq<Node>, c: Change, cmp: Cmp)
    ensures Elems(Changed(s, c, cmp)) <= Elems(s) + {c.node}
  {
    if c.Addition? {
      var i := PlaceOf(s, c.node, cmp);
      assert s == s[..i] + s[i..];
    } else {
      WithoutSubset(s, c.node);
    }
  }

  lemma {:induction false} WithoutSubset(s: seq<Node>, x: Node)
    ensures Elems(Without(s, x)) <= Elems(s)
  {
    if s != [] {
      assert s == [s[0]] + s[1..];
      ElemsCons(s[0], s[1..]);
      if s[0] != x {
        WithoutSubset(s[1..], x);
        ElemsCons(s[0], Without(s[1..], x));
      }
    }
  }

  lemma {:induction false} ReplayedNext(t: Tree, s: seq<Node>, t': Tree, cs: seq<Change>, i: nat, cmp: Cmp)
    requires i < |cs| && Possible(cs, cmp) && s == Inorder(t) == Final(cs[..i], cmp) && Nodes(t) <= NodesOf(cs)
    requires Inorder(t') == Changed(s, cs[i], cmp)
    ensures Inorder(t') == Final(cs[..i + 1], cmp) && Nodes(t') <= NodesOf(cs)
  {
    FinalNext(cs, i, cmp);
    InorderNodes(t);
    InorderNodes(t');
    ChangedElems(s, cs[i], cmp);
    assert cs[i].node in NodesOf(cs);
  }

  /** One round of a run. */
  method ReplayOne(t: PlainTree, cs: seq<Change>, i: nat, cmp: Cmp)
    requires i < |cs| && Replayed(t, cs, i, cmp) && Possible(cs, cmp) && TotalPreorder(cmp) && Sorted(t.Contents(), cmp)
    modifies t, t.root, NodesOf(cs)
    ensures Replayed(t, cs, i + 1, cmp)
  {
    ghost var before := t.tree;
    FinalNext(cs, i, cmp);
    InorderNodes(before);
    assert cs[i].node in NodesOf(cs);
    if cs[i].Addition? {
      AddOne(t, cs[i].node, cmp);
    } else {
      EraseOne(t, cs[i].node);
    }
    ReplayedNext(before, Inorder(before), t.tree, cs, i, cmp);
  }

  /** Any possible run on an empty tree, followed by a search: the equal nodes that are left, in the
      order of their insertion. */
  method Replay(cs: seq<Change>, cmp: Cmp, probe: Probe) returns (found: seq<Node>)
    requires TotalPreorder(cmp) && Consistent(probe, cmp) && Possible(cs, cmp)
    modifies NodesOf(cs)
    ensures found == Matching(Survivors(cs), probe)
  {
    var t := new PlainTree();
    for i := 0 to |cs|
      invariant fresh(t) && fresh(t.root) && Replayed(t, cs, i, cmp)
    {
      InsertionOrder(cs[..i], cmp, probe);
      ReplayOne(t, cs, i, cmp);
    }
    assert cs[..|cs|] == cs;
    InsertionOrder(cs, cmp, probe);
    SortedMonotone(t.Contents(), probe, cmp);
    found := t.FindAll(probe);
  }
}
