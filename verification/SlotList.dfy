/**
 The `dl` list: each node's `prev` is the address of the slot that holds it, which is the
 list's `first` or the previous node's `next`.
 */
module SlotList {
  import opened Sequences

  class Node {
    var prev: Slot
    var next: Node?

    constructor ()
      ensures prev == NoSlot && next == null
    {
      prev, next := NoSlot, null;
    }
  }

  class Head {
    var first: Node?

    /** `dl_init` */
    constructor ()
      ensures first == null
    {
      first := null;
    }
  }

  /** What a `dl_node_t **` points at. */
  datatype Slot = NoSlot | FirstOf(head: Head) | NextOf(node: Node)

  /** Assigning through a pointer to a slot. */
  method Assign(p: Slot, value: Node?)
    requires p != NoSlot
    modifies if p.FirstOf? then {p.head as object} else if p.NextOf? then {p.node} else {}
    ensures p.FirstOf? ==> p.head.first == value
    ensures p.NextOf? ==> p.node.next == value && p.node.prev == old(p.node.prev)
  {
    match p
    case FirstOf(h) => h.first := value;
    case NextOf(n) => n.next := value;
  }

  ghost function At(s: seq<Node>, i: nat): Node? { if i < |s| then s[i] else null }

  /** The slot that holds index i. */
  ghost function SlotAt(h: Head, s: seq<Node>, i: nat): Slot
    requires i <= |s|
  {
    if i == 0 then FirstOf(h) else NextOf(s[i - 1])
  }

  /** Index i is linked to what follows and knows the slot that holds it. */
  ghost predicate Fits(h: Head, s: seq<Node>, i: nat)
    requires i < |s|
    reads s[i]
  {
    s[i].next == At(s, i + 1) && s[i].prev == SlotAt(h, s, i)
  }

  /** Every node is held by the slot its `prev` names. */
  ghost predicate Holds(h: Head, s: seq<Node>)
    reads h, s
  {
    NoDup(s) && h.first == At(s, 0)
    && forall i :: 0 <= i < |s| ==> Fits(h, s, i)
  }

  /** A node is the i-th of some list, or it is initialised and in none. */
  ghost predicate Placed(node: Node, linked: bool, h: Head, s: seq<Node>, i: nat)
    reads node, h, s
  {
    if linked then Holds(h, s) && i < |s| && s[i] == node else node.prev == NoSlot && node.next == null
  }

  /** `dl_del`: a node in no list is left alone, and so is everything else. */
  method Del(node: Node, ghost linked: bool, ghost h: Head, ghost s: seq<Node>, ghost i: nat)
    requires Placed(node, linked, h, s, i)
    modifies h, s
    ensures linked ==> Holds(h, Removed(s, i))
    ensures !linked ==> unchanged(h) && unchanged(s)
    ensures node.next == old(node.next) && node.prev == old(node.prev)
  {
    if linked {
      RemovedNoDup(s, i);
      RemovedAt(s, i);
      assert Fits(h, s, i) && (i > 0 ==> Fits(h, s, i - 1)) && (i + 1 < |s| ==> Fits(h, s, i + 1));
    }
    if node.prev != NoSlot {
      Assign(node.prev, node.next);
    }
    if node.next != null {
      node.next.prev := node.prev;
    }
    if linked {
      ghost var w := Removed(s, i);
      forall j | 0 <= j < |w| ensures Fits(h, w, j) {
        assert old(Fits(h, s, if j < i then j else j + 1));
      }
    }
  }

  /** `dl_del_and_init_node` */
  method DelAndInit(node: Node, ghost linked: bool, ghost h: Head, ghost s: seq<Node>, ghost i: nat)
    requires Placed(node, linked, h, s, i)
    modifies node, h, s
    ensures linked ==> Holds(h, Removed(s, i))
    ensures node.next == null && node.prev == NoSlot
  {
    if linked { RemovedNoDup(s, i); }
    Del(node, linked, h, s, i);
    node.prev, node.next := NoSlot, null;
  }

  /** `dl_del_head` */
  method DelHead(h: Head, ghost s: seq<Node>) returns (node: Node?)
    requires Holds(h, s)
    modifies h, s
    ensures node == At(s, 0) && Holds(h, if s == [] then [] else s[1..])
  {
    node := h.first;
    if node != null {
      Del(node, true, h, s, 0);
      assert Removed(s, 0) == s[1..];
    }
  }

  /** `dl_add_head` */
  method AddHead(h: Head, node: Node, ghost s: seq<Node>)
    requires Holds(h, s) && node !in s
    modifies h, node, s
    ensures Holds(h, [node] + s)
  {
    InsertedNoDup(s, 0, node);
    assert s != [] ==> Fits(h, s, 0);
    assert Inserted(s, 0, node) == [node] + s;
    node.prev := FirstOf(h);
    node.next := h.first;
    if node.next != null {
      node.next.prev := NextOf(node);
    }
    h.first := node;
    ghost var w := [node] + s;
    forall j | 0 <= j < |w| ensures Fits(h, w, j) {
      if j > 0 { assert old(Fits(h, s, j - 1)); }
    }
  }

  /** `dl_add_after` */
  method AddAfter(prev: Node, insert: Node, ghost h: Head, ghost s: seq<Node>, ghost i: nat)
    requires Holds(h, s) && i < |s| && s[i] == prev && insert !in s
    modifies insert, s
    ensures Holds(h, Inserted(s, i + 1, insert))
  {
    InsertedNoDup(s, i + 1, insert);
    InsertedAt(s, i + 1, insert);
    assert Fits(h, s, i) && (i + 1 < |s| ==> Fits(h, s, i + 1));
    insert.prev := NextOf(prev);
    insert.next := prev.next;
    prev.next := insert;
    if insert.next != null {
      insert.next.prev := NextOf(insert);
    }
    ghost var w := Inserted(s, i + 1, insert);
    forall j | 0 <= j < |w| ensures Fits(h, w, j) {
      if j < i + 1 { assert old(Fits(h, s, j)); }
      if j > i + 1 { assert old(Fits(h, s, j - 1)); }
    }
  }

  /** `dl_add_after_prevptr`: into the slot of index i. */
  method AddAtSlot(p: Slot, insert: Node, ghost h: Head, ghost s: seq<Node>, ghost i: nat)
    requires Holds(h, s) && i <= |s| && p == SlotAt(h, s, i) && insert !in s
    modifies h, insert, s
    ensures Holds(h, Inserted(s, i, insert))
  {
    InsertedNoDup(s, i, insert);
    InsertedAt(s, i, insert);
    assert (i > 0 ==> Fits(h, s, i - 1)) && (i < |s| ==> Fits(h, s, i));
    insert.prev := p;
    insert.next := if p.FirstOf? then p.head.first else p.node.next;
    Assign(p, insert);
    if insert.next != null {
      insert.next.prev := NextOf(insert);
    }
    ghost var w := Inserted(s, i, insert);
    forall j | 0 <= j < |w| ensures Fits(h, w, j) {
      if j < i { assert old(Fits(h, s, j)); }
      if j > i { assert old(Fits(h, s, j - 1)); }
    }
  }

  /** `dl_add_before` */
  method AddBefore(next: Node, insert: Node, ghost h: Head, ghost s: seq<Node>, ghost i: nat)
    requires Holds(h, s) && i < |s| && s[i] == next && insert !in s
    modifies h, insert, s
    ensures Holds(h, Inserted(s, i, insert))
  {
    InsertedNoDup(s, i, insert);
    InsertedAt(s, i, insert);
    assert (i > 0 ==> Fits(h, s, i - 1)) && Fits(h, s, i);
    insert.prev := next.prev;
    insert.next := next;
    if insert.prev != NoSlot {
      Assign(insert.prev, insert);
    }
    insert.next.prev := NextOf(insert);
    ghost var w := Inserted(s, i, insert);
    forall j | 0 <= j < |w| ensures Fits(h, w, j) {
      if j < i { assert old(Fits(h, s, j)); }
      if j > i { assert old(Fits(h, s, j - 1)); }
    }
  }

  /** `dl_append`: finds the last slot and hangs the whole source there. */
  method Append(dest: Head, src: Head, ghost s: seq<Node>, ghost t: seq<Node>)
    requires dest != src && Holds(dest, s) && Holds(src, t) && forall x :: x in t ==> x !in s
    modifies dest, src, s, t
    ensures Holds(dest, s + t) && Holds(src, [])
  {
    JoinedNoDup(s, t);
    if src.first != null {
      var node, prev := dest.first, FirstOf(dest);
      ghost var i := 0;
      while node != null
        invariant i <= |s| && node == At(s, i) && prev == SlotAt(dest, s, i)
        decreases |s| - i
      {
        assert Fits(dest, s, i);
        prev := NextOf(node);
        node, i := node.next, i + 1;
      }
      Assign(prev, src.first);
      src.first.prev := prev;
      src.first := null;
      ghost var w := s + t;
      assert forall k :: 0 <= k < |s| ==> w[k] == s[k];
      assert t[0].prev == SlotAt(dest, w, |s|) && t[0] in t && t[0] !in s;
      forall j | 0 <= j < |w| ensures Fits(dest, w, j) {
        if j < |s| {
          assert old(Fits(dest, s, j)) && w[j] == s[j] && (j + 1 < |s| ==> s[j] != s[|s| - 1]);
        } else {
          assert old(Fits(src, t, j - |s|)) && w[j] == t[j - |s|] && w[j] in t && (j > |s| ==> t[j - |s|] != t[0]);
          assert j > |s| ==> w[j - 1] == t[j - |s| - 1];
        }
      }
    } else {
      assert s + t == s;
    }
  }
}
