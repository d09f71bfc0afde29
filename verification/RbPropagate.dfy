/**
 The `propagate` and `copy` callbacks of RB_DECLARE_CALLBACKS with `compute_max`:
 recomputing stored maxima along the path from a changed subtree towards `stop`, and why
 stopping at the first unchanged value is enough.
 */
module RbPropagate {
  import opened RbShape
  import opened RbBalance
  import opened RbPrimitives

  /** Context `d` inside context `k`. */
  ghost function Onto(d: Ctx, k: Ctx): Ctx {
    if d.Hole? then k else d.(up := Onto(d.up, k))
  }

  lemma {:induction false} OntoAll(d: Ctx, k: Ctx, t: Tree)
    ensures Plug(Onto(d, k), t) == Plug(k, Plug(d, t))
    ensures CNodes(Onto(d, k)) == CNodes(d) + CNodes(k)
    ensures AugC(Onto(d, k), t) <==> AugC(d, t) && AugC(k, Plug(d, t))
  {
    if d.Step? {
      OntoAll(d.up, k, Mk(d.s, t, d.n, d.c, d.a, d.sib));
    }
  }

  lemma {:induction false} OntoRep(m: Mem, d: Ctx, k: Ctx, x: Node?, base: Node?)
    ensures RepC(m, Onto(d, k), x, base) <==> RepC(m, d, x, Above(k, base)) && RepC(m, k, Apex(d, x), base)
    ensures Above(Onto(d, k), base) == Above(d, Above(k, base)) && Apex(Onto(d, k), x) == Apex(k, Apex(d, x))
  {
    if d.Step? {
      OntoRep(m, d.up, k, d.n, base);
    }
  }

  lemma {:induction false} OntoAssoc(d: Ctx, e: Ctx, k: Ctx)
    ensures Onto(Onto(d, e), k) == Onto(d, Onto(e, k))
  {
    if d.Step? {
      OntoAssoc(d.up, e, k);
    }
  }

  /** Contexts that differ at most in their stored augmented values. */
  ghost predicate SameShape(k: Ctx, k': Ctx) {
    if k.Hole? then k' == Hole
    else k'.Step? && k' == Step(k.s, k.n, k.c, k'.a, k.sib, k'.up) && SameShape(k.up, k'.up)
  }

  lemma {:induction false} ShapeFacts(k: Ctx, k': Ctx, t: Tree, x: Node?, base: Node?, h: nat)
    requires SameShape(k, k')
    ensures CNodes(k) == CNodes(k') && CDistinct(k) == CDistinct(k') && RBC(k, h) == RBC(k', h)
      && BlackTop(k) == BlackTop(k')
    ensures Apex(k, x) == Apex(k', x) && Above(k, base) == Above(k', base)
    ensures Before(k) == Before(k') && After(k) == After(k')
  {
    if k.Step? {
      ShapeFacts(k.up, k'.up, t, k.n, base, if k.c == Black then h + 1 else h);
    }
  }

  lemma {:induction false} ShapeOnto(d: Ctx, k: Ctx, k': Ctx)
    requires SameShape(k, k')
    ensures SameShape(Onto(d, k), Onto(d, k'))
  {
    if d.Step? {
      ShapeOnto(d.up, k, k');
    }
  }

  lemma {:induction false} ShapeTrans(k: Ctx, k': Ctx, k'': Ctx)
    requires SameShape(k, k') && SameShape(k', k'')
    ensures SameShape(k, k'')
  {
    if k.Step? {
      ShapeTrans(k.up, k'.up, k''.up);
    }
  }

  lemma {:induction false} ShapeRefl(k: Ctx)
    ensures SameShape(k, k)
  {
    if k.Step? {
      ShapeRefl(k.up);
    }
  }

  /** The nodes on the path itself. */
  ghost function Path(k: Ctx): set<Node> {
    if k.Hole? then {} else {k.n} + Path(k.up)
  }

  /** `m'` differs from `m` only in augmented values on the path of `k`. */
  ghost predicate OnPath(m: Mem, m': Mem, k: Ctx) {
    && m.Keys == m'.Keys
    && forall n :: n in m ==> m'[n] == m[n].(aug := m'[n].aug) && (n !in Path(k) ==> m'[n] == m[n])
  }

  /** Half way up: `d` (below) is consistent above `t`, only the innermost frame of `k`
      may be stale, and together they have the shape of `k0`. */
  ghost predicate Climb(m: Mem, d: Ctx, k: Ctx, k0: Ctx, t: Tree, base: Node?, ok: bool) {
    var heap := RepC(m, d, Top(t), Above(k, base)) && RepC(m, k, Apex(d, Top(t)), base)
      && (t.Bin? ==> t.n in m && m[t.n].aug == t.a);
    var apart := CDistinct(k) && CNodes(d) !! CNodes(k) && OffC(Top(t), k);
    var maxima := ok ==> AugC(d, t) && AugStale(k);
    heap && apart && maxima && SameShape(k0, Onto(d, k))
  }

  ghost function Frame1(k: Ctx, a: int): Ctx
    requires k.Step?
  {
    Step(k.s, k.n, k.c, a, k.sib, Hole)
  }

  lemma {:induction false} ApexAug(m: Mem, d: Ctx, t: Tree, b: Node?)
    requires RepC(m, d, Top(t), b) && (t.Bin? ==> t.n in m && m[t.n].aug == t.a)
    ensures Top(Plug(d, t)) == Apex(d, Top(t))
      && (Plug(d, t).Bin? ==> Plug(d, t).n in m && m[Plug(d, t).n].aug == Plug(d, t).a)
    ensures d.Step? ==> Apex(d, Top(t)) in Path(d)
  {
    if d.Step? {
      ApexAug(m, d.up, Mk(d.s, t, d.n, d.c, d.a, d.sib), b);
    }
  }

  lemma {:induction false} PathNodes(k: Ctx)
    ensures Path(k) <= CNodes(k)
  {
    if k.Step? { PathNodes(k.up); }
  }

  /** What `compute_max` sees at the frame above. */
  lemma {:induction false} ClimbFlat(m: Mem, d: Ctx, k: Ctx, k0: Ctx, t: Tree, base: Node?, ok: bool)
    requires Climb(m, d, k, k0, t, base, ok) && k.Step?
    ensures k.n in m && m[k.n].aug == k.a && m[k.n].parent == Above(k.up, base) && m[k.n].left != k.n
      && m[k.n].right != k.n
    ensures {k.n} + Opt(m[k.n].left) + Opt(m[k.n].right) <= m.Keys
    ensures MaxStored(m, MaxStored(m, k.n.val, m[k.n].left), m[k.n].right)
      == MaxWith(MaxWith(k.n.val, Plug(d, t)), k.sib)
  {
    ApexAug(m, d, t, Above(k, base));
    PathNodes(d);
  }

  lemma {:induction false} ClimbRep(m: Mem, m': Mem, d: Ctx, k: Ctx, x: Node?, base: Node?, a: int)
    requires k.Step? && RepC(m, d, x, k.n) && RepC(m, k, Apex(d, x), base) && UniqueC(k) && OffC(k.n, d)
    requires k.n in m && k.n in m' && m'[k.n] == m[k.n].(aug := a) && Agree(m, m', k.n, null, null, null)
    ensures RepC(m', Onto(d, Frame1(k, a)), x, Above(k.up, base))
    ensures RepC(m', k.up, Apex(Onto(d, Frame1(k, a)), x), base)
  {
    FrameRepC(m, m', d, x, k.n, k.n, null, null, null);
    FrameRep(m, m', k.sib, k.n, k.n, null, null, null);
    FrameRepC(m, m', k.up, k.n, base, k.n, null, null, null);
    assert RepC(m', Frame1(k, a), Apex(d, x), Above(k.up, base));
    OntoRep(m', d, Frame1(k, a), x, Above(k.up, base));
    assert Apex(Frame1(k, a), Apex(d, x)) == k.n;
  }

  lemma {:induction false} ClimbAug(d: Ctx, k: Ctx, t: Tree, a: int)
    requires k.Step? && AugC(d, t) && AugStale(k) && a == MaxWith(MaxWith(k.n.val, Plug(d, t)), k.sib)
    ensures AugC(Onto(d, Frame1(k, a)), t) && AugStale(k.up)
    ensures a == k.a ==> AugC(Onto(d, k), t)
  {
    OntoAll(d, Frame1(k, a), t);
    assert AugC(Frame1(k, a), Plug(d, t));
    var F := Mk(k.s, Leaf, k.n, k.c, k.a, k.sib);
    assert AugC(k.up, F);
    if k.up.Step? {
      AugCong(k.up.up, Mk(k.up.s, F, k.up.n, k.up.c, k.up.a, k.up.sib),
        Mk(k.up.s, Leaf, k.up.n, k.up.c, k.up.a, k.up.sib));
    }
    if a == k.a {
      AugCong(k.up, F, Mk(k.s, Plug(d, t), k.n, k.c, k.a, k.sib));
      OntoAll(d, k, t);
    }
  }

  lemma {:induction false} ClimbShape(d: Ctx, k: Ctx, k0: Ctx, a: int)
    requires k.Step? && SameShape(k0, Onto(d, k))
    ensures SameShape(k0, Onto(Onto(d, Frame1(k, a)), k.up))
  {
    OntoAssoc(d, Frame1(k, a), k.up);
    ShapeRefl(k.up);
    assert Onto(Frame1(k, a), k.up) == k.(a := a);
    ShapeOnto(d, k, k.(a := a));
    ShapeTrans(k0, Onto(d, k), Onto(d, k.(a := a)));
  }

  lemma {:induction false} ClimbStep(m: Mem, m': Mem, d: Ctx, k: Ctx, k0: Ctx, t: Tree, base: Node?, a: int, ok: bool)
    requires Climb(m, d, k, k0, t, base, ok) && k.Step? && a == MaxWith(MaxWith(k.n.val, Plug(d, t)), k.sib)
    requires k.n in m && k.n in m' && m'[k.n] == m[k.n].(aug := a) && Agree(m, m', k.n, null, null, null)
    ensures Climb(m', Onto(d, Frame1(k, a)), k.up, k0, t, base, ok)
    ensures ok && a == k.a ==> AugC(Onto(d, k), t)
  {
    ClimbRep(m, m', d, k, Top(t), base, a);
    if ok { ClimbAug(d, k, t, a); }
    ClimbShape(d, k, k0, a);
    OntoAll(d, Frame1(k, a), t);
  }

  lemma {:induction false} OntoPath(d: Ctx, k: Ctx, k0: Ctx)
    requires k.Step? && SameShape(k0, Onto(d, k))
    ensures k.n in Path(k0)
  {
    if d.Step? {
      OntoPath(d.up, k, k0.up);
    }
  }

  /** A context in memory, consistent except perhaps for its innermost frame. */
  ghost predicate StaleCtx(m: Mem, k: Ctx, t: Tree, base: Node?) {
    var heap := RepC(m, k, Top(t), base) && (t.Bin? ==> t.n in m && m[t.n].aug == t.a);
    var apart := CDistinct(k) && OffC(Top(t), k) && OffC(base, k);
    var all := heap && apart;
    all
  }

  lemma {:induction false} ClimbStart(m: Mem, k: Ctx, t: Tree, base: Node?, ok: bool)
    requires StaleCtx(m, k, t, base) && (ok ==> AugStale(k))
    ensures Climb(m, Hole, k, k, t, base, ok)
  {
    ShapeRefl(k);
  }

  lemma {:induction false} ClimbDone(m: Mem, d: Ctx, k: Ctx, k0: Ctx, t: Tree, base: Node?, ok: bool)
    requires Climb(m, d, k, k0, t, base, ok)
    ensures RepC(m, Onto(d, k), Top(t), base) && SameShape(k0, Onto(d, k))
    ensures ok && k.Hole? ==> AugC(Onto(d, k), t)
  {
    OntoRep(m, d, k, Top(t), base);
    OntoAll(d, k, t);
  }

  /** One round of `propagate`. */
  method Recompute(rb: Node, ghost d: Ctx, ghost k: Ctx, ghost k0: Ctx, ghost t: Tree, ghost base: Node?,
      ghost m0: Mem, ghost ok: bool, ghost S: set<Node>)
    returns (stop: bool)
    requires Climb(Snap(S), d, k, k0, t, base, ok) && k.Step? && rb == k.n && OnPath(m0, Snap(S), k0)
    modifies S`aug
    ensures Climb(Snap(S), Onto(d, Frame1(k, rb.aug)), k.up, k0, t, base, ok) && OnPath(m0, Snap(S), k0)
    ensures stop <==> rb.aug == k.a
    ensures ok && rb.aug == k.a ==> AugC(Onto(d, k), t)
    ensures rb.parent == Above(k.up, base)
  {
    ghost var m := Snap(S);
    ClimbFlat(m, d, k, k0, t, base, ok);
    OntoPath(d, k, k0);
    stop := ComputeMax(rb, true, S);
    ClimbStep(m, Snap(S), d, k, k0, t, base, rb.aug, ok);
  }

  /** `propagate`: recompute from `rb_` up to but excluding `stop`, giving up at the first
      value that is already right.  If (`ok`) only the innermost stored value was stale, every
      stored value on the path is right afterwards, and no other node has changed. */
  method Propagate(rb_: Node?, stop: Node?, cb: Callbacks, ghost k: Ctx, ghost t: Tree, ghost ok: bool,
      ghost S: set<Node>)
    returns (ghost k': Ctx)
    requires StaleCtx(Snap(S), k, t, stop) && rb_ == Above(k, stop)
    requires ok ==> AugStale(k)
    modifies S`aug
    ensures SameShape(k, k') && RepC(Snap(S), k', Top(t), stop) && OnPath(old(Snap(S)), Snap(S), k)
    ensures cb == Max && ok ==> AugC(k', t)
  {
    ShapeRefl(k);
    k' := k;
    if cb == Dummy {
      return;
    }
    ghost var m0 := Snap(S);
    ghost var d, kr := Hole, k;
    ClimbStart(m0, k, t, stop, ok);
    var rb := rb_;
    while rb != stop
      invariant Climb(Snap(S), d, kr, k, t, stop, ok) && OnPath(m0, Snap(S), k) && rb == Above(kr, stop)
        && OffC(stop, kr)
      decreases kr
    {
      ghost var a := kr.a;
      var quit := Recompute(rb, d, kr, k, t, stop, m0, ok, S);
      if quit {
        OntoAssoc(d, Frame1(kr, a), kr.up);
        assert Onto(Frame1(kr, a), kr.up) == kr;
        k' := Onto(d, kr);
        ClimbDone(Snap(S), Onto(d, Frame1(kr, a)), kr.up, k, t, stop, ok);
        return;
      }
      d, kr := Onto(d, Frame1(kr, rb.aug)), kr.up;
      rb := rb.parent;
    }
    ClimbDone(Snap(S), d, kr, k, t, stop, ok);
    k' := Onto(d, kr);
  }

  /** `copy`: the replacement takes over the replaced node's stored value. */
  method Copy(cb: Callbacks, old_: Node, new_: Node)
    modifies new_`aug
    ensures new_.aug == if cb == Max then old_.aug else old(new_.aug)
  {
    if cb == Max {
      new_.aug := old_.aug;
    }
  }
}
