/**
 The `dtq` list: a ring of nodes through a sentinel.  A ring stands for the sequence of its
 nodes from the sentinel's `next` on.
 */
module RingList {
  import opened Sequences

  class Node {
    var prev: Node?
    var next: Node?

    constructor ()
      ensures prev == null && next == null
    {
      prev, next := null, null;
    }
  }

  /** Once around, from the sentinel back to it. */
  ghost function Round(h: Node, s: seq<Node>): seq<Node> { [h] + s + [h] }

  /** `x` is followed by `y`, both ways. */
  ghost predicate Joined(x: Node, y: Node)
    reads x, y
  {
    x.next == y && y.prev == x
  }

  ghost predicate Ring(h: Node, s: seq<Node>)
    reads h, s
  {
    var c := Round(h, s);
    var apart := NoDup([h] + s);
    var joined := forall i :: 0 <= i <= |s| ==> Joined(c[i], c[i + 1]);
    apart && joined
  }

  /** `dtq_init` */
  method InitList(h: Node)
    modifies h
    ensures Ring(h, [])
  {
    h.next := h;
    h.prev := h;
  }

  /** The first and last stops of a ring's two-way walk. */
  ghost function First(s: seq<Node>): Node? { if s == [] then null else s[0] }
  ghost function Last(s: seq<Node>): Node? { if s == [] then null else s[|s| - 1] }

  lemma RoundInserted(h: Node, s: seq<Node>, i: nat, x: Node)
    requires i <= |s| && NoDup([h] + s) && x !in [h] + s
    ensures NoDup([h] + Inserted(s, i, x))
    ensures var c, d := Round(h, s), Round(h, Inserted(s, i, x));
      d[i + 1] == x && (forall j :: 0 <= j <= i ==> d[j] == c[j]) && forall j :: i + 2 <= j < |d| ==> d[j] == c[j - 1]
  {
    InsertedNoDup([h] + s, i + 1, x);
    assert Inserted([h] + s, i + 1, x) == [h] + Inserted(s, i, x);
  }

  lemma RoundRemoved(h: Node, s: seq<Node>, i: nat)
    requires i < |s| && NoDup([h] + s)
    ensures NoDup([h] + Removed(s, i)) && s[i] !in [h] + Removed(s, i)
    ensures Round(h, Removed(s, i)) == Removed(Round(h, s), i + 1)
  {
    RemovedNoDup([h] + s, i + 1);
    assert Removed([h] + s, i + 1) == [h] + Removed(s, i);
  }

  /** `dtq_add_after`: after the i-th stop of the ring, the sentinel being stop 0. */
  method AddAfter(prev: Node, insert: Node, ghost h: Node, ghost s: seq<Node>, ghost i: nat)
    requires Ring(h, s) && i <= |s| && prev == ([h] + s)[i] && insert !in [h] + s
    modifies insert, prev, prev.next
    ensures Ring(h, Inserted(s, i, insert))
  {
    RoundInserted(h, s, i, insert);
    assert Joined(Round(h, s)[i], Round(h, s)[i + 1]);
    insert.prev := prev;
    insert.next := prev.next;
    prev.next := insert;
    insert.next.prev := insert;
  }

  /** `dtq_add_before`: before the stop after the i-th, which is the sentinel for i == |s|. */
  method AddBefore(next: Node, insert: Node, ghost h: Node, ghost s: seq<Node>, ghost i: nat)
    requires Ring(h, s) && i <= |s| && next == (s + [h])[i] && insert !in [h] + s
    modifies insert, next, next.prev
    ensures Ring(h, Inserted(s, i, insert))
  {
    RoundInserted(h, s, i, insert);
    assert Round(h, s)[i + 1] == next;
    assert Joined(Round(h, s)[i], Round(h, s)[i + 1]);
    insert.prev := next.prev;
    insert.next := next;
    insert.prev.next := insert;
    insert.next.prev := insert;
  }

  /** `dtq_del`: the node keeps its own, now stale, links. */
  method Del(node: Node, ghost h: Node, ghost s: seq<Node>, ghost i: nat)
    requires Ring(h, s) && i < |s| && node == s[i]
    modifies node.prev, node.next
    ensures Ring(h, Removed(s, i)) && s[i] !in [h] + Removed(s, i)
  {
    RoundRemoved(h, s, i);
    assert Round(h, s)[i + 1] == node;
    assert Joined(Round(h, s)[i], node) && Joined(node, Round(h, s)[i + 2]);
    node.prev.next := node.next;
    node.next.prev := node.prev;
  }

  /** `dtq_first` and `dtq_last` */
  method FirstNode(h: Node, ghost s: seq<Node>) returns (n: Node?)
    requires Ring(h, s)
    ensures n == First(s)
  {
    assert Joined(Round(h, s)[0], Round(h, s)[1]);
    n := if h.next == h then null else h.next;
  }

  method LastNode(h: Node, ghost s: seq<Node>) returns (n: Node?)
    requires Ring(h, s)
    ensures n == Last(s)
  {
    assert Joined(Round(h, s)[|s|], Round(h, s)[|s| + 1]);
    assert s != [] ==> ([h] + s)[0] != ([h] + s)[|s|];
    assert Round(h, s)[|s|] == ([h] + s)[|s|];
    n := if h.prev == h then null else h.prev;
  }

  /** `dtq_add_head` */
  method AddHead(h: Node, node: Node, ghost s: seq<Node>)
    requires Ring(h, s) && node !in [h] + s
    modifies node, h, h.next
    ensures Ring(h, [node] + s)
  {
    AddAfter(h, node, h, s, 0);
    assert Inserted(s, 0, node) == [node] + s;
  }

  /** `dtq_add_tail` */
  method AddTail(h: Node, node: Node, ghost s: seq<Node>)
    requires Ring(h, s) && node !in [h] + s
    modifies node, h, h.prev
    ensures Ring(h, s + [node])
  {
    AddBefore(h, node, h, s, |s|);
    assert Inserted(s, |s|, node) == s + [node];
  }

  lemma Linked(h: Node, s: seq<Node>, i: nat)
    requires Ring(h, s) && i < |s|
    ensures s[i].next != null && s[i].prev != null
    ensures s[i].next in [h] + s && s[i].prev in [h] + s
  {
    var c := Round(h, s);
    assert Joined(c[i], c[i + 1]) && Joined(c[i + 1], c[i + 2]);
    assert c[i] == ([h] + s)[i] && c[i + 2] == (s + [h])[i + 1];
  }

  /** `dta_del_head` and, with init, `dtq_del_head_and_init_node` */
  method DelHead(h: Node, init: bool, ghost s: seq<Node>) returns (node: Node?)
    requires Ring(h, s)
    modifies h, s
    ensures node == First(s) && Ring(h, if s == [] then [] else s[1..])
    ensures node != null && init ==> node.next == null && node.prev == null
  {
    node := FirstNode(h, s);
    if node != null {
      Linked(h, s, 0);
      Del(node, h, s, 0);
      assert Removed(s, 0) == s[1..];
      if init { node.next, node.prev := null, null; }
    }
  }

  /** `dtq_del_tail` */
  method DelTail(h: Node, ghost s: seq<Node>) returns (node: Node?)
    requires Ring(h, s)
    modifies h, s
    ensures node == Last(s) && Ring(h, if s == [] then [] else s[..|s| - 1])
  {
    node := LastNode(h, s);
    if node != null {
      Linked(h, s, |s| - 1);
      Del(node, h, s, |s| - 1);
      assert Removed(s, |s| - 1) == s[..|s| - 1];
    }
  }

  /** A node is unlinked, or it is the i-th of some ring. */
  ghost predicate Placed(node: Node, linked: bool, g: Node, t: seq<Node>, i: nat)
    reads node, g, t
  {
    if linked then Ring(g, t) && i < |t| && t[i] == node else node.next == null
  }

  /** `dtq_del_and_init_node` */
  method DelAndInit(node: Node, ghost linked: bool, ghost g: Node, ghost t: seq<Node>, ghost i: nat)
    requires Placed(node, linked, g, t, i)
    modifies node, g, t
    ensures node.next == null && node.prev == null
    ensures linked ==> Ring(g, Removed(t, i)) && node !in [g] + Removed(t, i)
  {
    if linked { Linked(g, t, i); }
    if node.next != null {
      Del(node, g, t, i);
    }
    node.next, node.prev := null, null;
  }

  /** Taking a node from one list to the end of another loses and duplicates nothing. */
  lemma MoveConserves(s: seq<Node>, t: seq<Node>, i: nat)
    requires i < |t| && NoDup(t)
    ensures multiset(Removed(t, i)) + multiset(s + [t[i]]) == multiset(t) + multiset(s)
  {
    RemovedNoDup(t, i);
  }

  /** `dtq_move_and_add_tail` from another ring. */
  method MoveToTail(h: Node, node: Node, ghost s: seq<Node>, ghost g: Node, ghost t: seq<Node>, ghost i: nat)
    requires Ring(h, s) && Placed(node, true, g, t, i) && forall x :: x in [g] + t ==> x !in [h] + s
    modifies h, s, g, t
    ensures Ring(g, Removed(t, i)) && Ring(h, s + [node])
    ensures multiset(Removed(t, i)) + multiset(s + [node]) == multiset(t) + multiset(s)
  {
    Linked(g, t, i);
    RoundRemoved(g, t, i);
    assert node in [g] + t;
    assert NoDup(t) by { assert forall j :: 0 <= j < |t| ==> ([g] + t)[j + 1] == t[j]; }
    MoveConserves(s, t, i);
    if node.next != null {
      Del(node, g, t, i);
    }
    Ends(h, s);
    assert h.prev in [h] + s;
    ghost var c := Round(g, Removed(t, i));
    assert forall j :: 0 <= j < |c| ==> c[j] in [g] + t && c[j] != node;
    AddTail(h, node, s);
  }

  lemma Ends(h: Node, s: seq<Node>)
    requires Ring(h, s)
    ensures h.prev != null && h.prev == ([h] + s)[|s|] && h.next != null && h.next == (s + [h])[0]
    ensures s == [] <==> h.next == h
  {
    var c := Round(h, s);
    assert Joined(c[0], c[1]) && Joined(c[|s|], c[|s| + 1]);
    assert c[|s|] == ([h] + s)[|s|] && c[1] == (s + [h])[0];
    assert s != [] ==> ([h] + s)[0] != ([h] + s)[1];
  }

  /** `dtq_move_and_add_tail` within a ring. */
  method MoveToOwnTail(h: Node, node: Node, ghost s: seq<Node>, ghost i: nat)
    requires Placed(node, true, h, s, i)
    modifies h, s
    ensures Ring(h, Removed(s, i) + [node])
    ensures multiset(Removed(s, i) + [node]) == multiset(s)
  {
    Linked(h, s, i);
    assert NoDup(s) by { assert forall j :: 0 <= j < |s| ==> ([h] + s)[j + 1] == s[j]; }
    RemovedNoDup(s, i);
    if node.next != null {
      Del(node, h, s, i);
    }
    Ends(h, Removed(s, i));
    assert forall x :: x in Removed(s, i) ==> x in s;
    AddTail(h, node, Removed(s, i));
  }

  /** `dtq_move_and_add_tail` of a node that is in no ring. */
  method MoveUnlinked(h: Node, node: Node, ghost s: seq<Node>)
    requires Ring(h, s) && node.next == null && node !in [h] + s
    modifies h, s, node
    ensures Ring(h, s + [node])
  {
    Ends(h, s);
    AddTail(h, node, s);
  }

  lemma Apart(h: Node, s: seq<Node>, g: Node, t: seq<Node>)
    requires NoDup([h] + s) && NoDup([g] + t) && forall x :: x in [g] + t ==> x !in [h] + s
    ensures NoDup([h] + (s + t))
  {
    assert forall j :: 0 <= j < |t| ==> ([g] + t)[j + 1] == t[j];
    JoinedNoDup([h] + s, t);
    assert [h] + s + t == [h] + (s + t);
  }

  /** `dtq_append`: the whole source moves to the end of the destination, and the source is empty. */
  method Append(h: Node, g: Node, ghost s: seq<Node>, ghost t: seq<Node>)
    requires Ring(h, s) && Ring(g, t) && forall x :: x in [g] + t ==> x !in [h] + s
    modifies h, s, g, t
    ensures Ring(h, s + t) && Ring(g, [])
  {
    Ends(g, t);
    if g.next != g {
      Ends(h, s);
      Apart(h, s, g, t);
      ghost var last := h.prev;
      assert Joined(Round(h, s)[|s|], Round(h, s)[|s| + 1]);
      assert last.next == h && g.next == t[0] && g.prev == t[|t| - 1];
      assert ([g] + t)[0] == g && ([g] + t)[1] == t[0] && ([g] + t)[|t|] == t[|t| - 1];
      assert ([h] + s)[0] == h && ([h] + s)[|s|] == last;
      assert g in [g] + t && t[0] in [g] + t && t[|t| - 1] in [g] + t && h in [h] + s && last in [h] + s;
      g.next.prev := h.prev;
      g.prev.next := h.prev.next;
      h.prev.next := g.next;
      h.prev := g.prev;
      InitList(g);
      ghost var c, all := Round(h, s + t), [h] + (s + t);
      assert last.next == t[0] && t[0].prev == last && t[|t| - 1].next == h && h.prev == t[|t| - 1];
      assert all[|s|] == last && all[|s| + 1] == t[0] && all[|s + t|] == t[|t| - 1];
      forall j | 0 <= j <= |s + t| ensures Joined(c[j], c[j + 1]) {
        assert c[j] == all[j] && (j < |s + t| ==> c[j + 1] == all[j + 1]);
        if j < |s| {
          assert old(Joined(Round(h, s)[j], Round(h, s)[j + 1]));
          assert all[j] == ([h] + s)[j] && all[j + 1] == ([h] + s)[j + 1];
        } else if |s| < j < |s + t| {
          assert old(Joined(Round(g, t)[j - |s|], Round(g, t)[j - |s| + 1]));
        }
      }
    } else {
      assert s + t == s;
    }
  }

  lemma HeadApart(h: Node, s: seq<Node>)
    requires NoDup([h] + s)
    ensures forall i :: 0 <= i < |s| ==> s[i] != h && ([h] + s)[i + 1] == s[i]
  {
    var c := [h] + s;
    forall i | 0 <= i < |s| ensures s[i] != h && c[i + 1] == s[i] {
      assert c[0] != c[i + 1];
    }
  }

  /** `DTQ_FOREACH` visits the nodes in order and stops at the sentinel. */
  method ForEach(h: Node, ghost s: seq<Node>) returns (visited: seq<Node>)
    requires Ring(h, s)
    ensures visited == s
  {
    Ends(h, s);
    HeadApart(h, s);
    visited := [];
    var node := h.next;
    while node != h
      invariant |visited| <= |s| && node == (s + [h])[|visited|] && visited == s[..|visited|]
      decreases |s| - |visited|
    {
      ghost var i := |visited|;
      assert Joined(Round(h, s)[i + 1], Round(h, s)[i + 2]);
      visited := visited + [node];
      node := node.next;
    }
  }

  /** `DTQ_FOREACH_REVERSE` visits them backwards. */
  method ForEachReverse(h: Node, ghost s: seq<Node>) returns (visited: seq<Node>)
    requires Ring(h, s)
    ensures |visited| == |s| && forall i :: 0 <= i < |s| ==> visited[i] == s[|s| - 1 - i]
  {
    Ends(h, s);
    HeadApart(h, s);
    visited := [];
    var node := h.prev;
    while node != h
      invariant |visited| <= |s| && node == ([h] + s)[|s| - |visited|]
      invariant forall i :: 0 <= i < |visited| ==> visited[i] == s[|s| - 1 - i]
      decreases |s| - |visited|
    {
      ghost var i := |s| - |visited|;
      assert Joined(Round(h, s)[i - 1], Round(h, s)[i]);
      visited := visited + [node];
      node := node.prev;
    }
  }
}
