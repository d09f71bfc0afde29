/**
 The fault registry: records in a red-black tree ordered by name.  Every operation refines the
 corresponding step on a finite map.
 */
module FaultInject {
  import opened Sequences
  import opened RbShape
  import opened RbSearch
  import opened RbTrees
  import opened RbPrimitives
  import opened FaultSpec
  import opened Bytes
  import Strncmp
  import RbRuns

  /** `nodes` takes each name to the one node of `s` that carries it. */
  ghost predicate Named(s: seq<Node>, nodes: map<Name, Node>) {
    var there := forall i ::
      0 <= i < |s| ==> s[i].payload in nodes && nodes[s[i].payload] == s[i] && Strncmp.ShortName(s[i].payload);
    var back := forall name :: name in nodes ==> nodes[name] in s && nodes[name].payload == name;
    there && back
  }

  /** In a sorted tree of distinct names, a search finds the node of the name. */
  lemma FindNamed(s: seq<Node>, nodes: map<Name, Node>, name: Name, r: Node?)
    requires Named(s, nodes) && NulFree(name) && FirstMatch(s, b => Strncmp.Compare(name, b), r)
    ensures if r == null then name !in nodes else name in nodes && nodes[name] == r && r in s
  {
    forall i | 0 <= i < |s| ensures Strncmp.Compare(name, s[i].payload) == 0 <==> name == s[i].payload {
      Strncmp.EqualNames(name, s[i].payload);
    }
  }

  lemma SearchOrder(s: seq<Node>, name: Name)
    requires Sorted(s, Strncmp.Compare)
    ensures Monotone(s, b => Strncmp.Compare(name, b))
  {
    Strncmp.KeyConsistent(name);
    SortedMonotone(s, b => Strncmp.Compare(name, b), Strncmp.Compare);
  }

  lemma NamedAdd(a: seq<Node>, x: Node, b: seq<Node>, nodes: map<Name, Node>)
    requires Named(a + b, nodes) && x.payload !in nodes && Strncmp.ShortName(x.payload)
    ensures Named(a + [x] + b, nodes[x.payload := x])
  {
    var s, w, nodes' := a + b, a + [x] + b, nodes[x.payload := x];
    forall i | 0 <= i < |w| ensures w[i].payload in nodes' && nodes'[w[i].payload] == w[i]
      && Strncmp.ShortName(w[i].payload) {
      if i != |a| { assert w[i] == s[if i < |a| then i else i - 1]; }
    }
    forall name | name in nodes' ensures nodes'[name] in w && nodes'[name].payload == name {
      if name != x.payload { assert nodes[name] in s; }
      assert w[|a|] == x;
    }
  }

  lemma {:induction false} WithoutElems(s: seq<Node>, x: Node)
    requires NoDup(s)
    ensures Elems(Without(s, x)) == Elems(s) - {x}
  {
    if s != [] {
      WithoutElems(s[1..], x);
      ElemsCons(s[0], s[1..]);
      ElemsCons(s[0], Without(s[1..], x));
      assert s == [s[0]] + s[1..];
      assert s[0] !in Elems(s[1..]);
    }
  }

  lemma NamedErase(s: seq<Node>, x: Node, nodes: map<Name, Node>)
    requires NoDup(s) && Named(s, nodes) && x in s
    ensures Named(Without(s, x), nodes - {x.payload})
  {
    WithoutElems(s, x);
    var w, nodes' := Without(s, x), nodes - {x.payload};
    forall i | 0 <= i < |w| ensures w[i].payload in nodes' && nodes'[w[i].payload] == w[i]
      && Strncmp.ShortName(w[i].payload) {
      assert w[i] in Elems(w);
      assert w[i] in Elems(s) && w[i] != x;
    }
    forall name | name in nodes' ensures nodes'[name] in w && nodes'[name].payload == name {
      assert nodes[name] in Elems(s) - {x};
    }
  }

  /** What the registry keeps about the nodes in order, the records and the names. */
  ghost predicate Kept(s: seq<Node>, items: map<Node, Fault>, nodes: map<Name, Node>) {
    var sorted := Sorted(s, Strncmp.Compare);
    var named := Named(s, nodes);
    var recorded := items.Keys == Elems(s);
    var all := sorted && named && recorded;
    all
  }

  /** The finite map that records and names stand for. */
  ghost function ViewOf(items: map<Node, Fault>, nodes: map<Name, Node>): View {
    map name | name in nodes && nodes[name] in items :: items[nodes[name]]
  }

  lemma ViewNames(s: seq<Node>, items: map<Node, Fault>, nodes: map<Name, Node>)
    requires Kept(s, items, nodes)
    ensures ViewOf(items, nodes).Keys == nodes.Keys
    ensures forall name :: name in nodes ==> nodes[name] in items && nodes[name].payload == name
  {
  }

  lemma ViewUpdate(s: seq<Node>, items: map<Node, Fault>, nodes: map<Name, Node>, name: Name, n: Node, f: Fault)
    requires Kept(s, items, nodes) && name in nodes && nodes[name] == n
    ensures Kept(s, items[n := f], nodes) && ViewOf(items[n := f], nodes) == ViewOf(items, nodes)[name := f]
  {
    ViewNames(s, items, nodes);
    assert items[n := f].Keys == items.Keys;
  }

  lemma ViewAdd(a: seq<Node>, x: Node, b: seq<Node>, items: map<Node, Fault>, nodes: map<Name, Node>, f: Fault)
    requires Kept(a + b, items, nodes) && x !in a + b && x.payload !in nodes && Strncmp.ShortName(x.payload)
    requires Sorted(a + [x] + b, Strncmp.Compare)
    ensures items[x := f].Keys == Elems(a + [x] + b)
    ensures Kept(a + [x] + b, items[x := f], nodes[x.payload := x])
    ensures ViewOf(items[x := f], nodes[x.payload := x]) == ViewOf(items, nodes)[x.payload := f]
  {
    ViewNames(a + b, items, nodes);
    NamedAdd(a, x, b, nodes);
    assert Elems(a + [x] + b) == Elems(a + b) + {x};
  }

  lemma ViewErase(s: seq<Node>, x: Node, items: map<Node, Fault>, nodes: map<Name, Node>)
    requires NoDup(s) && Kept(s, items, nodes) && x in s
    ensures (items - {x}).Keys == Elems(Without(s, x))
    ensures Kept(Without(s, x), items - {x}, nodes - {x.payload})
    ensures ViewOf(items - {x}, nodes - {x.payload}) == ViewOf(items, nodes) - {x.payload}
  {
    ViewNames(s, items, nodes);
    NamedErase(s, x, nodes);
    RbRuns.SortedErase(s, x, Strncmp.Compare);
    WithoutElems(s, x);
  }

  /** Operations that write to the record of a registered fault, and what they write. */
  lemma Applied(v: View, op: Op, f: Fault)
    requires op.name in v && !op.Register? && !op.Unregister?
    requires f == match op
                  case Enable(_) => v[op.name].(enable := true)
                  case Disable(_) => v[op.name].(enable := false)
                  case Reinit(_) => Reset(v[op.name])
                  case Init(_, values) => Overwrite(v[op.name], values)
                  case _ => Called(v[op.name])
    ensures Apply(v, op) == v[op.name := f]
  {
  }

  class Registry {
    const tree: PlainTree
    /** The records that enclose the nodes. */
    var items: map<Node, Fault>
    ghost var nodes: map<Name, Node>
    /** The finite map that the registry stands for. */
    ghost var faults: View

    ghost predicate Valid()
      reads this, tree, tree.root, Nodes(tree.tree)
    {
      var all := tree.Valid() && items.Keys == Nodes(tree.tree) && Kept(tree.Contents(), items, nodes)
        && faults == ViewOf(items, nodes);
      all
    }

    constructor ()
      ensures Valid() && faults == map[] && fresh(tree) && fresh(tree.root) && nodes == map[]
    {
      tree := new PlainTree();
      items, nodes, faults := map[], map[], map[];
    }

    /** `fault_inject_find` */
    method Find(name: Name) returns (n: Node?)
      requires Valid() && NulFree(name)
      ensures Valid()
      ensures n == null <==> name !in faults
      ensures n != null ==>
        name in nodes && n == nodes[name] && n in items && n.payload == name && faults[name] == items[n]
    {
      ViewNames(tree.Contents(), items, nodes);
      SearchOrder(tree.Contents(), name);
      ghost var depth;
      n, depth := tree.Find(b => Strncmp.Compare(name, b));
      FindNamed(tree.Contents(), nodes, name, n);
    }

    /** Writing to the record of a registered fault. */
    method Update(name: Name, n: Node, f: Fault)
      requires Valid() && name in nodes && nodes[name] == n
      modifies this`items, this`faults
      ensures Valid() && faults == old(faults)[name := f]
    {
      ViewUpdate(tree.Contents(), items, nodes, name, n, f);
      items := items[n := f];
      faults := faults[name := f];
    }

    /** `fault_inject_enable` */
    method Enable(name: Name)
      requires Valid() && NulFree(name)
      modifies this`items, this`faults
      ensures Valid() && faults == Apply(old(faults), Op.Enable(name))
    {
      var n := Find(name);
      if n != null {
        var f := items[n].(enable := true);
        Applied(faults, Op.Enable(name), f);
        Update(name, n, f);
      }
    }

    /** `fault_inject_disable` */
    method Disable(name: Name)
      requires Valid() && NulFree(name)
      modifies this`items, this`faults
      ensures Valid() && faults == Apply(old(faults), Op.Disable(name))
    {
      var n := Find(name);
      if n != null {
        var f := items[n].(enable := false);
        Applied(faults, Op.Disable(name), f);
        Update(name, n, f);
      }
    }

    /** `fault_inject_reinit` */
    method Reinit(name: Name)
      requires Valid() && NulFree(name)
      modifies this`items, this`faults
      ensures Valid() && faults == Apply(old(faults), Op.Reinit(name))
    {
      var n := Find(name);
      if n != null {
        var f := Reset(items[n]);
        Applied(faults, Op.Reinit(name), f);
        Update(name, n, f);
      }
    }

    /** `fault_inject_init` */
    method Init(name: Name, values: Fault)
      requires Valid() && NulFree(name)
      modifies this`items, this`faults
      ensures Valid() && faults == Apply(old(faults), Op.Init(name, values))
    {
      var n := Find(name);
      if n != null {
        var f := items[n].(sleepTime := values.sleepTime, enableTimes := values.enableTimes,
          afterTimes := values.afterTimes);
        f := f.(enable := values.enable, injectErr := values.injectErr, hitTimes := values.hitTimes);
        Applied(faults, Op.Init(name, values), f);
        Update(name, n, f);
      }
    }

    /** A call of a registered fault. */
    method Call(name: Name, n: Node, arg: int) returns (fires: bool)
      requires Valid() && name in nodes && nodes[name] == n && n in items
      modifies this`items, this`faults
      ensures Valid() && faults == old(faults)[name := Called(old(items[n]))]
      ensures fires == Fires(old(items[n]), arg)
    {
      var f := items[n];
      fires := false;
      if f.enable {
        var times := Increment(f.hitTimes);
        fires := times > f.afterTimes && times - f.afterTimes <= f.enableTimes
          && (f.callback.NoCallback? || f.callback.answers(arg));
        Update(name, n, f.(hitTimes := times));
      } else {
        ViewUpdate(tree.Contents(), items, nodes, name, n, f);
        assert items[n := f] == items;
      }
    }

    /** `fault_inject_cond_get` */
    method CondGet(name: Name, arg: int) returns (r: Node?)
      requires Valid() && NulFree(name)
      modifies this`items, this`faults
      ensures Valid() && faults == Apply(old(faults), Op.CondGet(name, arg))
      ensures r != null <==> Returned(old(faults), Op.CondGet(name, arg))
      ensures r != null ==> name in nodes && r == nodes[name]
    {
      r := null;
      var n := Find(name);
      if n != null {
        Applied(faults, Op.CondGet(name, arg), Called(items[n]));
        var fires := Call(name, n, arg);
        if fires { r := n; }
      }
    }

    /** Keeping a new record; the tree is not touched. */
    method Remember(name: Name, n: Node, f: Fault)
      requires tree.Valid() && items.Keys == Nodes(tree.tree)
      modifies this`items, this`nodes, this`faults
      ensures tree.Valid()
      ensures items == old(items)[n := f] && nodes == old(nodes)[name := n] && faults == old(faults)[name := f]
    {
      items := items[n := f];
      nodes := nodes[name := n];
      faults := faults[name := f];
    }

    /** Adding a node by its name; the records are not touched. */
    method Link(n: Node) returns (ghost a: seq<Node>, ghost b: seq<Node>)
      requires tree.Valid() && n !in Nodes(tree.tree) && Sorted(tree.Contents(), Strncmp.Compare)
      modifies tree, tree.root, Nodes(tree.tree), n
      ensures tree.Valid() && old(tree.Contents()) == a + b && tree.Contents() == a + [n] + b
      ensures Sorted(tree.Contents(), Strncmp.Compare)
      ensures items == old(items) && nodes == old(nodes) && faults == old(faults)
    {
      Strncmp.CompareTotal();
      a, b := tree.Add(n, Strncmp.Compare);
    }

    /** `fault_inject_insert` with a new node, for a name that is not registered. */
    method Insert(name: Name, n: Node, callback: Callback)
      requires Valid() && Strncmp.ShortName(name) && name !in nodes && n.payload == name && n !in Nodes(tree.tree)
      modifies this, tree, tree.root, Nodes(tree.tree), n
      ensures Valid() && faults == old(faults)[name := Fresh.(callback := callback)]
      ensures nodes == old(nodes)[name := n] && items == old(items)[n := Fresh.(callback := callback)]
    {
      InorderNodes(tree.tree);
      ghost var names, records := nodes, items;
      var f := Reset(Fresh).(callback := callback);
      Remember(name, n, f);
      ghost var a, b := Link(n);
      ViewAdd(a, n, b, records, names, f);
      InorderNodes(tree.tree);
    }

    /** `fault_inject_register` and, with a callback, `fault_inject_register_priv` */
    method Register(name: Name, callback: Callback)
      requires Valid() && Strncmp.ShortName(name)
      modifies this, tree, tree.root, Nodes(tree.tree)
      ensures Valid() && faults == Apply(old(faults), Op.Register(name, callback))
      ensures if name in old(nodes) then nodes == old(nodes)
        else name in nodes && nodes == old(nodes)[name := nodes[name]]
      ensures fresh(items.Keys - old(items.Keys))
    {
      ViewNames(tree.Contents(), items, nodes);
      var n := Find(name);
      if n == null {
        var node := new Node(0, name);
        Insert(name, node, callback);
      }
    }

    /** Forgetting a record; the tree is not touched. */
    method Forget(name: Name, n: Node)
      requires tree.Valid() && items.Keys == Nodes(tree.tree)
      modifies this`items, this`nodes, this`faults
      ensures tree.Valid()
      ensures items == old(items) - {n} && nodes == old(nodes) - {name} && faults == old(faults) - {name}
    {
      items := items - {n};
      nodes := nodes - {name};
      faults := faults - {name};
    }

    /** Erasing a node; the records are not touched. */
    method Unlink(n: Node)
      requires tree.Valid() && n in Nodes(tree.tree)
      modifies tree, tree.root, Nodes(tree.tree)
      ensures tree.Valid() && tree.Contents() == Without(old(tree.Contents()), n)
      ensures items == old(items) && nodes == old(nodes) && faults == old(faults)
    {
      tree.Erase(n, Dummy);
    }

    /** Taking a registered record out of the tree. */
    method Remove(name: Name, n: Node)
      requires Valid() && name in nodes && nodes[name] == n && n in items && n.payload == name
      modifies this, tree, tree.root, Nodes(tree.tree)
      ensures Valid() && faults == old(faults) - {name}
      ensures nodes == old(nodes) - {name} && items.Keys <= old(items.Keys)
    {
      ghost var t, names, records := tree.tree, nodes, items;
      Forget(name, n);
      Unlink(n);
      InorderNodes(t);
      DistinctNoDup(t);
      ViewErase(Inorder(t), n, records, names);
      InorderNodes(tree.tree);
    }

    /** `fault_inject_unregister` */
    method Unregister(name: Name)
      requires Valid() && NulFree(name)
      modifies this, tree, tree.root, Nodes(tree.tree)
      ensures Valid() && faults == Apply(old(faults), Op.Unregister(name))
      ensures forall other ::
        other in old(nodes) && other != name ==> other in nodes && nodes[other] == old(nodes[other])
      ensures items.Keys <= old(items.Keys)
    {
      var n := Find(name);
      if n != null { Remove(name, n); }
    }

    /** Any operation. */
    method Perform(op: Op) returns (answer: bool)
      requires Valid() && NulFree(op.name) && (op.Register? ==> Strncmp.ShortName(op.name))
      modifies this, tree, tree.root, Nodes(tree.tree)
      ensures Valid() && faults == Apply(old(faults), op) && answer == Returned(old(faults), op)
      ensures fresh(items.Keys - old(items.Keys))
    {
      answer := false;
      match op
      case Register(name, callback) => Register(name, callback);
      case Unregister(name) => Unregister(name);
      case Enable(name) => Enable(name);
      case Disable(name) => Disable(name);
      case Reinit(name) => Reinit(name);
      case Init(name, values) => Init(name, values);
      case CondGet(name, arg) =>
        var r := CondGet(name, arg);
        answer := r != null;
    }
  }

  /** The names of a run are C strings, and those registered fit a record. */
  ghost predicate ValidOps(ops: seq<Op>) {
    forall i :: 0 <= i < |ops| ==> NulFree(ops[i].name) && (ops[i].Register? ==> Strncmp.ShortName(ops[i].name))
  }

  /** The registry after the first i operations on a registry that stood for v. */
  ghost predicate Performed(r: Registry, v: View, ops: seq<Op>, i: nat, answers: seq<bool>)
    reads r, r.tree, r.tree.root, Nodes(r.tree.tree)
  {
    var all := i <= |ops| && r.Valid() && r.faults == Run(v, ops[..i]) && answers == Answers(v, ops[..i]);
    all
  }

  method PerformNext(r: Registry, ghost v: View, ops: seq<Op>, i: nat, answers: seq<bool>) returns (answers': seq<bool>)
    requires i < |ops| && Performed(r, v, ops, i, answers) && ValidOps(ops)
    modifies r, r.tree, r.tree.root, Nodes(r.tree.tree)
    ensures Performed(r, v, ops, i + 1, answers') && fresh(r.items.Keys - old(r.items.Keys))
  {
    RunNext(v, ops[..i], ops[i]);
    AnswersNext(v, ops[..i], ops[i]);
    assert ops[..i + 1] == ops[..i] + [ops[i]];
    var answer := r.Perform(ops[i]);
    answers' := answers + [answer];
  }

  /** Any list of operations on a registry does to it, and answers, what it does to the finite map. */
  method PerformAll(r: Registry, ops: seq<Op>) returns (answers: seq<bool>)
    requires r.Valid() && ValidOps(ops)
    modifies r, r.tree, r.tree.root, Nodes(r.tree.tree)
    ensures r.Valid() && r.faults == Run(old(r.faults), ops) && answers == Answers(old(r.faults), ops)
    ensures forall name :: Count(ops, answers, name) == Firings(old(r.faults), ops, name)
  {
    ghost var v := r.faults;
    answers := [];
    for i := 0 to |ops|
      invariant Performed(r, v, ops, i, answers) && fresh(r.items.Keys - old(r.items.Keys))
    {
      answers := PerformNext(r, v, ops, i, answers);
    }
    assert ops[..|ops|] == ops;
    forall name ensures Count(ops, answers, name) == Firings(v, ops, name) { AnswersCount(v, ops, name); }
  }
}
