/**
 The `stq` list: singly linked, with pointers to the first and the last node.  It stands for
 the sequence of its nodes, and `last` always is the final one.
 */
module TailQueue {
  import opened Sequences

  class Node {
    var next: Node?

    constructor ()
      ensures next == null
    {
      next := null;
    }
  }

  /** The node at index i; past the end, null. */
  ghost function At(s: seq<Node>, i: nat): Node? { if i < |s| then s[i] else null }

  ghost function Last(s: seq<Node>): Node? { if s == [] then null else s[|s| - 1] }

  /** Consecutive nodes of s are linked and the last one ends the list. */
  ghost predicate Chain(s: seq<Node>)
    reads s
  {
    NoDup(s) && forall i :: 0 <= i < |s| ==> s[i].next == At(s, i + 1)
  }

  class Head {
    var first: Node?
    var last: Node?

    ghost predicate Holds(s: seq<Node>)
      reads this, s
    {
      Chain(s) && first == At(s, 0) && last == Last(s)
    }

    constructor ()
      ensures Holds([])
    {
      first, last := null, null;
    }

    /** `stq_init` */
    method Init()
      modifies this
      ensures Holds([])
    {
      first, last := null, null;
    }

    /** `stq_add_head` */
    method AddHead(node: Node, ghost s: seq<Node>)
      requires Holds(s) && node !in s
      modifies this, node
      ensures Holds([node] + s)
    {
      node.next := first;
      first := node;
      if last == null {
        last := node;
      }
    }

    /** `stq_del_head` */
    method DelHead(ghost s: seq<Node>) returns (node: Node?)
      requires Holds(s)
      modifies this
      ensures node == At(s, 0) && Holds(if s == [] then [] else s[1..])
    {
      node := first;
      if node != null {
        first := node.next;
      }
      if first == null {
        last := null;
      }
    }

    /** `stq_add_tail` */
    method AddTail(node: Node, ghost s: seq<Node>)
      requires Holds(s) && node !in s
      modifies this, node, last
      ensures Holds(s + [node])
    {
      node.next := null;
      if last != null {
        last.next := node;
        last := node;
      } else {
        last := node;
        first := node;
      }
    }

    /** `stq_add_after`: after the (i-1)-th node, or at the head when there is none. */
    method AddAfter(prev: Node?, insert: Node, ghost s: seq<Node>, ghost i: nat)
      requires Holds(s) && i <= |s| && insert !in s && prev == (if i == 0 then null else s[i - 1])
      modifies this, insert, prev
      ensures Holds(Inserted(s, i, insert))
    {
      InsertedNoDup(s, i, insert);
      InsertedAt(s, i, insert);
      if prev == null {
        AddHead(insert, s);
        assert Inserted(s, 0, insert) == [insert] + s;
      } else {
        insert.next := prev.next;
        prev.next := insert;
        if last == prev {
          last := insert;
        }
      }
    }

    /** `stq_del_after` a node. */
    method Unhook(prev: Node, ghost s: seq<Node>, ghost i: nat) returns (node: Node?)
      requires Holds(s) && 0 < i <= |s| && prev == s[i - 1]
      modifies this, prev
      ensures node == At(s, i) && Holds(if i < |s| then Removed(s, i) else s)
    {
      if i < |s| {
        RemovedNoDup(s, i);
        RemovedAt(s, i);
      }
      assert prev.next == At(s, i);
      node := prev.next;
      if node != null {
        prev.next := node.next;
      }
      if last == node {
        last := prev;
      }
    }

    /** `stq_del_after` */
    method DelAfter(prev: Node?, ghost s: seq<Node>, ghost i: nat) returns (node: Node?)
      requires Holds(s) && i <= |s| && prev == (if i == 0 then null else s[i - 1])
      modifies this, prev
      ensures node == At(s, i) && Holds(if i < |s| then Removed(s, i) else s)
    {
      if prev == null {
        node := DelHead(s);
        assert s != [] ==> Removed(s, 0) == s[1..];
      } else {
        node := Unhook(prev, s, i);
      }
    }

    /** `stq_del`: searches for the node; a node that is not there changes nothing. */
    method Del(node: Node, ghost s: seq<Node>)
      requires Holds(s)
      modifies this, s
      ensures node !in s ==> Holds(s)
      ensures forall i :: 0 <= i < |s| && s[i] == node ==> Holds(Removed(s, i))
    {
      var cur, prev: Node? := first, null;
      ghost var i := 0;
      while cur != null
        invariant i <= |s| && cur == At(s, i) && prev == (if i == 0 then null else s[i - 1])
        invariant node !in s[..i] && Holds(s)
        decreases |s| - i
      {
        if cur == node {
          var _ := DelAfter(prev, s, i);
          break;
        }
        prev, cur, i := cur, cur.next, i + 1;
      }
    }
  }

  /** `stq_append` moves the whole source to the end of the destination and empties it. */
  method Append(dest: Head, src: Head, ghost s: seq<Node>, ghost t: seq<Node>)
    requires dest != src && dest.Holds(s) && src.Holds(t) && forall x :: x in t ==> x !in s
    modifies dest, src, s
    ensures dest.Holds(s + t) && src.Holds([])
  {
    JoinedNoDup(s, t);
    if src.first != null {
      var node, prev: Node? := dest.first, null;
      ghost var i := 0;
      while node != null
        invariant i <= |s| && node == At(s, i) && prev == (if i == 0 then null else s[i - 1])
        decreases |s| - i
      {
        prev, node, i := node, node.next, i + 1;
      }
      if prev == null {
        dest.first := src.first;
        dest.last := src.last;
      } else {
        prev.next := src.first;
        dest.last := src.last;
      }
      src.Init();
      ghost var w := s + t;
      forall j | 0 <= j < |w| ensures w[j].next == At(w, j + 1) {
        if j < |s| {
          assert w[j] == s[j] && (j + 1 < |s| ==> s[j] != s[|s| - 1]);
        } else {
          assert w[j] == t[j - |s|] && w[j] in t;
        }
      }
    } else {
      assert s + t == s;
    }
  }
}
