/**
 The lock-free multi-producer, single-consumer queue of `benchmark/cas_queue.cc`, as a
 transition system: every atomic read, store or compare-and-swap is one step, and steps of
 any number of producers interleave with those of the consumer in any order.

 Pointers are numbers; 0 is the embedded `queue->head`.  A pointer missing from `next`
 has a NULL `next` field.
 */
module CasQueue {
  import opened Sequences

  type Ptr = nat

  /** Where a producer stands in `cas_queue_push(node)`. */
  datatype Producer =
    | Load(node: Ptr)                 // about to load `last`
    | Link(node: Ptr, tail: Ptr)       // about to CAS `tail->next` from NULL to `node`
    | Swing(node: Ptr, tail: Ptr)      // linked; about to CAS `last` from `tail` to `node`

  /** Where the consumer stands in `cas_queue_pop` and its walk over the popped chain. */
  datatype Consumer =
    | Idle                            // about to test `last == &head`
    | ReadHead                        // about to read `head.next`
    | LoadLast(ret: Ptr)              // about to load `last`
    | CasLast(ret: Ptr, tail: Ptr)     // about to CAS `last` from `tail` to `&head`
    | ReadNext(ret: Ptr, tail: Ptr)    // CAS failed: about to read `tail->next`
    | StoreNext(ret: Ptr, tail: Ptr, nx: Ptr)  // about to store that value in `head.next`
    | StoreNull(ret: Ptr, tail: Ptr)   // CAS succeeded: about to store NULL in `head.next`
    | Walk(cur: Ptr, end: Ptr)        // visiting the chain from `cur` to `end`

  /** The shared memory and all threads, with three history variables: `order` lists the
      nodes by successful CAS on `last`, `popped` counts those taken off the queue and
      `delivered` lists those the consumer has visited. */
  datatype State = State(next: map<Ptr, Ptr>, last: Ptr, producers: map<nat, Producer>, consumer: Consumer,
                         used: set<Ptr>, order: seq<Ptr>, popped: nat, delivered: seq<Ptr>)

  function Init(): State {
    State(map[], 0, map[], Idle, {}, [], 0, [])
  }

  datatype Event = Begin(tid: nat, node: Ptr) | Produce(tid: nat) | Consume

  predicate Enabled(s: State, e: Event) {
    match e
    case Begin(tid, node) => tid !in s.producers && node != 0 && node !in s.used
    case Produce(tid) => tid in s.producers
    case Consume => true
  }

  /** One step of `cas_queue_push`. */
  function ProducerStep(s: State, tid: nat): State
    requires tid in s.producers
  {
    match s.producers[tid]
    case Load(node) =>
      s.(producers := s.producers[tid := Link(node, s.last)])
    case Link(node, tail) =>
      if tail in s.next then s.(producers := s.producers[tid := Load(node)])
      else s.(next := s.next[tail := node], producers := s.producers[tid := Swing(node, tail)])
    case Swing(node, tail) =>
      if s.last == tail then s.(last := node, order := s.order + [node], producers := s.producers - {tid})
      else s.(producers := s.producers[tid := Load(node)])
  }

  /** Position of `x` in `q`, or its length. */
  function Find(q: seq<Ptr>, x: Ptr): (i: nat)
    ensures i <= |q| && (i < |q| ==> q[i] == x) && (x in q ==> i < |q|)
  {
    if q == [] || q[0] == x then 0 else 1 + Find(q[1..], x)
  }

  function NextOf(s: State, x: Ptr): Ptr {
    if x in s.next then s.next[x] else 0
  }

  /** One step of `cas_queue_pop` or of the consumer's walk.  A NULL pointer reads as 0,
      which no reachable state ever follows. */
  function ConsumerStep(s: State): State {
    match s.consumer
    case Idle =>
      if s.last == 0 then s else s.(consumer := ReadHead)
    case ReadHead =>
      s.(consumer := LoadLast(NextOf(s, 0)))
    case LoadLast(ret) =>
      s.(consumer := CasLast(ret, s.last))
    case CasLast(ret, tail) =>
      if s.last == tail then s.(last := 0, popped := |s.order|, consumer := StoreNull(ret, tail))
      else s.(popped := Find(s.order, tail) + 1, consumer := ReadNext(ret, tail))
    case ReadNext(ret, tail) =>
      s.(consumer := StoreNext(ret, tail, NextOf(s, tail)))
    case StoreNext(ret, tail, nx) =>
      s.(next := if nx == 0 then s.next - {0} else s.next[0 := nx], consumer := Walk(ret, tail))
    case StoreNull(ret, tail) =>
      s.(next := s.next - {0}, consumer := Walk(ret, tail))
    case Walk(cur, end) =>
      s.(delivered := s.delivered + [cur], consumer := if cur == end then Idle else Walk(NextOf(s, cur), end))
  }

  function Exec(s: State, e: Event): State
    requires Enabled(s, e)
  {
    match e
    case Begin(tid, node) => s.(producers := s.producers[tid := Load(node)], used := s.used + {node})
    case Produce(tid) => ProducerStep(s, tid)
    case Consume => ConsumerStep(s)
  }

  // --------------------------------------------------------------- invariant

  /** `order[lo..hi]` is linked through `next`. */
  ghost predicate Linked(s: State, lo: nat, hi: nat) {
    forall i :: lo <= i && i + 1 < hi <= |s.order| ==> s.order[i] in s.next && s.next[s.order[i]] == s.order[i + 1]
  }

  /** Nodes enter `order` once; active producers own distinct nodes that are not in it. */
  ghost predicate Unshared(s: State) {
    && NoDup(s.order) && 0 !in s.order
    && (forall i :: 0 <= i < |s.order| ==> s.order[i] in s.used)
    && (forall t ::
      t in s.producers ==> var n := s.producers[t].node; n != 0 && n in s.used && n !in s.order && n !in s.next)
    && (forall t, u :: t in s.producers && u in s.producers && t != u ==> s.producers[t].node != s.producers[u].node)
    && (forall x :: x in s.next ==> x == 0 || x in s.order)
  }

  ghost predicate Seen(s: State, tail: Ptr) {
    tail == 0 || tail in s.order
  }

  ghost predicate Popped(s: State, x: Ptr) {
    s.popped <= |s.order| && x != 0 && x in s.order[..s.popped]
  }

  /** A linked but not yet swung node hangs off the current tail, or off a tail that has
      been popped since. */
  ghost predicate Pending(s: State) {
    forall t :: t in s.producers ==>
      match s.producers[t]
      case Load(_) => true
      case Link(_, tail) => Seen(s, tail)
      case Swing(node, tail) =>
        Seen(s, tail) && tail in s.next && s.next[tail] == node && (tail == s.last || Popped(s, tail))
  }

  ghost predicate Busy(c: Consumer) {
    c.ReadNext? || c.StoreNext? || c.StoreNull?
  }

  /** The order splits into what the consumer has visited, the rest of the last batch and the live
      chain; `last` is the end of the live chain, and both unvisited parts are linked. */
  ghost predicate Shape(s: State) {
    && |s.delivered| <= s.popped <= |s.order|
    && s.delivered == s.order[..|s.delivered|]
    && s.last == (if s.popped == |s.order| then 0 else s.order[|s.order| - 1])
    && Linked(s, |s.delivered|, s.popped) && Linked(s, s.popped, |s.order|)
  }

  /** The queue's first pointer. */
  ghost predicate Head(s: State) {
    && (!Busy(s.consumer) && s.popped < |s.order| ==> 0 in s.next && s.next[0] == s.order[s.popped])
    && (Busy(s.consumer) ==> 0 in s.next && |s.delivered| < |s.order| && s.next[0] == s.order[|s.delivered|])
    && (s.consumer.StoreNull? ==> s.popped == |s.order|)
    && (s.consumer.ReadNext? || s.consumer.StoreNext? ==> s.popped < |s.order| && Linked(s, |s.delivered|, |s.order|))
  }

  /** What the consumer's local variables mean. */
  ghost predicate Local(s: State) {
    var d := |s.delivered|;
    match s.consumer
    case Idle => d == s.popped
    case ReadHead => d == s.popped < |s.order|
    case LoadLast(ret) => d == s.popped < |s.order| && ret == s.order[d]
    case CasLast(ret, tail) => d == s.popped < |s.order| && ret == s.order[d] && tail in s.order[d..]
    case ReadNext(ret, tail) => d < s.popped <= |s.order| && ret == s.order[d] && tail == s.order[s.popped - 1]
    case StoreNext(ret, tail, nx) =>
      d < s.popped < |s.order| && ret == s.order[d] && tail == s.order[s.popped - 1] && nx == s.order[s.popped]
    case StoreNull(ret, tail) => d < s.popped <= |s.order| && ret == s.order[d] && tail == s.order[s.popped - 1]
    case Walk(cur, end) => d < s.popped <= |s.order| && cur == s.order[d] && end == s.order[s.popped - 1]
  }

  ghost predicate Inv(s: State) {
    var threads := Unshared(s) && Pending(s);
    var queue := Shape(s) && Head(s) && Local(s);
    threads && queue
  }

  lemma InitInv()
    ensures Inv(Init())
  {
  }

  // ------------------------------------------------- every step keeps it

  lemma {:induction false} BeginInv(s: State, tid: nat, node: Ptr)
    requires Inv(s) && Enabled(s, Begin(tid, node))
    ensures Inv(Exec(s, Begin(tid, node)))
  {
    var s' := Exec(s, Begin(tid, node));
    assert node !in s.order && node !in s.next;
  }

  lemma {:induction false} LoadInv(s: State, tid: nat)
    requires Inv(s) && tid in s.producers && s.producers[tid].Load?
    ensures Inv(ProducerStep(s, tid))
  {
    LoadThreads(s, tid);
  }

  lemma {:induction false} LoadThreads(s: State, tid: nat)
    requires Unshared(s) && Pending(s) && Shape(s) && tid in s.producers && s.producers[tid].Load?
    ensures Unshared(ProducerStep(s, tid)) && Pending(ProducerStep(s, tid))
  {
  }

  /** Where a NULL `next` can be found: at the tail of the queue or at a popped tail. */
  lemma {:induction false} NullNext(s: State, tail: Ptr)
    requires Inv(s) && Seen(s, tail) && tail !in s.next
    ensures tail == s.last || Popped(s, tail)
    ensures tail == 0 ==> !Busy(s.consumer) && s.popped == |s.order|
  {
    if tail != 0 {
      var i :| 0 <= i < |s.order| && s.order[i] == tail;
      if i < s.popped {
        assert s.order[..s.popped][i] == tail;
      }
    }
  }

  lemma {:induction false} LinkInv(s: State, tid: nat)
    requires Inv(s) && tid in s.producers && s.producers[tid].Link?
    ensures Inv(ProducerStep(s, tid))
  {
    var Link(node, tail) := s.producers[tid];
    if tail !in s.next {
      NullNext(s, tail);
      LinkStep(s, tid, node, tail);
    }
  }

  lemma {:induction false} LinkStep(s: State, tid: nat, node: Ptr, tail: Ptr)
    requires Inv(s) && tid in s.producers && s.producers[tid] == Link(node, tail) && tail !in s.next
    requires tail == s.last || Popped(s, tail)
    requires tail == 0 ==> !Busy(s.consumer) && s.popped == |s.order|
    ensures Inv(ProducerStep(s, tid))
  {
    LinkThreads(s, tid, node, tail);
    LinkQueue(s, tid, node, tail);
  }

  lemma {:induction false} LinkThreads(s: State, tid: nat, node: Ptr, tail: Ptr)
    requires Unshared(s) && Pending(s) && tid in s.producers && s.producers[tid] == Link(node, tail) && tail !in s.next
    requires tail == s.last || Popped(s, tail)
    ensures Unshared(ProducerStep(s, tid)) && Pending(ProducerStep(s, tid))
  {
    var s' := ProducerStep(s, tid);
    forall t | t in s'.producers && t != tid ensures s'.producers[t] == s.producers[t] && t in s.producers {}
    forall t | t in s.producers ensures s'.producers[t].node == s.producers[t].node && s.producers[t].node != tail {}
  }

  lemma {:induction false} LinkQueue(s: State, tid: nat, node: Ptr, tail: Ptr)
    requires 0 !in s.order && Shape(s) && Head(s) && Local(s) && tid in s.producers
      && s.producers[tid] == Link(node, tail) && tail !in s.next
    requires tail == 0 ==> !Busy(s.consumer) && s.popped == |s.order|
    ensures Shape(ProducerStep(s, tid)) && Head(ProducerStep(s, tid)) && Local(ProducerStep(s, tid))
  {
    var s' := ProducerStep(s, tid);
    forall x | x in s.next ensures x in s'.next && s'.next[x] == s.next[x] {}
    LinkedGrow(s, s', |s.delivered|, s.popped);
    LinkedGrow(s, s', s.popped, |s.order|);
    if s.consumer.ReadNext? || s.consumer.StoreNext? { LinkedGrow(s, s', |s.delivered|, |s.order|); }
  }

  lemma {:induction false} LinkedGrow(s: State, s': State, lo: nat, hi: nat)
    requires Linked(s, lo, hi) && hi <= |s.order| && s.order <= s'.order && forall x ::
      x in s.next && x != 0 ==> x in s'.next && s'.next[x] == s.next[x]
    requires 0 !in s.order
    ensures Linked(s', lo, hi)
  {
  }

  lemma {:induction false} SwingInv(s: State, tid: nat)
    requires Inv(s) && tid in s.producers && s.producers[tid].Swing?
    ensures Inv(ProducerStep(s, tid))
  {
    var Swing(node, tail) := s.producers[tid];
    if tail == s.last {
      SwingThreads(s, tid, node, tail);
      SwingQueue(s, tid, node, tail);
    }
  }

  lemma {:induction false} SwingThreads(s: State, tid: nat, node: Ptr, tail: Ptr)
    requires Unshared(s) && Pending(s) && Shape(s) && tid in s.producers && s.producers[tid] == Swing(node, tail)
      && s.last == tail
    ensures Unshared(ProducerStep(s, tid)) && Pending(ProducerStep(s, tid))
  {
    var s' := ProducerStep(s, tid);
    assert s'.order[..s.popped] == s.order[..s.popped];
    forall t | t in s'.producers ensures t in s.producers && t != tid && s'.producers[t] == s.producers[t] {}
    forall t | t in s'.producers && s'.producers[t].Swing? ensures s'.producers[t].tail != tail {
      assert s.next[tail] == node;
    }
  }

  lemma {:induction false} SwingQueue(s: State, tid: nat, node: Ptr, tail: Ptr)
    requires 0 !in s.order && node !in s.order && Pending(s) && Shape(s) && Head(s) && Local(s)
    requires tid in s.producers && s.producers[tid] == Swing(node, tail) && s.last == tail
    ensures Shape(ProducerStep(s, tid)) && Head(ProducerStep(s, tid)) && Local(ProducerStep(s, tid))
  {
    var s' := ProducerStep(s, tid);
    assert tail in s.next && s.next[tail] == node;
    assert s.consumer.StoreNull? ==> tail == 0 && node in s.order;
    LinkedGrow(s, s', |s.delivered|, s.popped);
    LinkedSnoc(s, s', s.popped, node);
    if s.consumer.ReadNext? || s.consumer.StoreNext? { LinkedSnoc(s, s', |s.delivered|, node); }
    if s.consumer.CasLast? { assert s'.order[|s.delivered|..] == s.order[|s.delivered|..] + [node]; }
  }

  lemma {:induction false} LinkedSnoc(s: State, s': State, lo: nat, node: Ptr)
    requires Linked(s, lo, |s.order|) && s'.order == s.order + [node] && s'.next == s.next && lo <= |s.order|
    requires lo < |s.order| ==> s.order[|s.order| - 1] in s.next && s.next[s.order[|s.order| - 1]] == node
    ensures Linked(s', lo, |s'.order|)
  {
  }

  // the consumer, one program point at a time

  lemma {:induction false} ThreadsKeep(s: State, s': State)
    requires Unshared(s) && Pending(s) && s'.producers == s.producers && s'.used == s.used && s'.order == s.order
      && s'.last == s.last
    requires s'.popped == s.popped && forall x ::
      x != 0 ==> (x in s'.next <==> x in s.next) && (x in s.next ==> s'.next[x] == s.next[x])
    requires forall t :: t in s.producers && s.producers[t].Swing? ==> s.producers[t].tail != 0 || s'.next == s.next
    ensures Unshared(s') && Pending(s')
  {
  }

  lemma {:induction false} EarlyInv(s: State)
    requires Inv(s) && (s.consumer.Idle? || s.consumer.ReadHead? || s.consumer.LoadLast? || s.consumer.ReadNext?)
    ensures Inv(ConsumerStep(s))
  {
    ThreadsKeep(s, ConsumerStep(s));
    EarlyQueue(s);
  }

  lemma {:induction false} EarlyQueue(s: State)
    requires Shape(s) && Head(s) && Local(s)
    requires s.consumer.Idle? || s.consumer.ReadHead? || s.consumer.LoadLast? || s.consumer.ReadNext?
    ensures Shape(ConsumerStep(s)) && Head(ConsumerStep(s)) && Local(ConsumerStep(s))
  {
    if s.consumer.LoadLast? {
      assert s.order[|s.delivered|..][|s.order| - |s.delivered| - 1] == s.last;
    }
  }

  lemma {:induction false} WalkInv(s: State)
    requires Inv(s) && s.consumer.Walk?
    ensures Inv(ConsumerStep(s))
  {
    var s' := ConsumerStep(s);
    var d := |s.delivered|;
    ThreadsKeep(s, s');
    assert s.order[..d + 1] == s.order[..d] + [s.order[d]];
    if d + 1 == s.popped {
      assert s.consumer.cur == s.consumer.end;
    } else {
      assert s.consumer.cur != s.consumer.end;
    }
  }

  lemma {:induction false} CasInv(s: State)
    requires Inv(s) && s.consumer.CasLast?
    ensures Inv(ConsumerStep(s))
  {
    if s.last == s.consumer.tail {
      TakeThreads(s);
      TakeQueue(s);
    } else {
      SplitThreads(s);
      SplitQueue(s);
    }
  }

  /** The consumer's CAS succeeds: the whole chain is taken. */
  lemma {:induction false} TakeThreads(s: State)
    requires Unshared(s) && Pending(s) && Shape(s) && Local(s) && s.consumer.CasLast? && s.last == s.consumer.tail
    ensures Unshared(ConsumerStep(s)) && Pending(ConsumerStep(s))
  {
    var s' := ConsumerStep(s);
    assert s.order[..|s.order|] == s.order && s.last != 0;
    forall t | t in s.producers && s.producers[t].Swing? ensures Popped(s', s.producers[t].tail) {
      var tail := s.producers[t].tail;
      assert tail == s.last || Popped(s, tail);
      assert tail in s.order && tail != 0;
    }
  }

  lemma {:induction false} TakeQueue(s: State)
    requires Shape(s) && Head(s) && Local(s) && s.consumer.CasLast? && s.last == s.consumer.tail && 0 !in s.order
    ensures Shape(ConsumerStep(s)) && Head(ConsumerStep(s)) && Local(ConsumerStep(s))
  {
  }

  /** The consumer's CAS fails: producers have added nodes behind the tail it had loaded. */
  lemma {:induction false} SplitThreads(s: State)
    requires Unshared(s) && Pending(s) && Shape(s) && Local(s) && s.consumer.CasLast? && s.last != s.consumer.tail
    ensures Unshared(ConsumerStep(s)) && Pending(ConsumerStep(s))
  {
    var s' := ConsumerStep(s);
    var i := SplitPoint(s);
    forall x | Popped(s, x) ensures Popped(s', x) {
      var j :| 0 <= j < s.popped && s.order[..s.popped][j] == x;
      assert s'.order[..s'.popped][j] == x;
    }
  }

  lemma {:induction false} SplitPoint(s: State) returns (i: nat)
    requires NoDup(s.order) && Shape(s) && Local(s) && s.consumer.CasLast? && s.last != s.consumer.tail
    ensures i == Find(s.order, s.consumer.tail) && s.popped <= i < |s.order| - 1 && s.order[i] == s.consumer.tail
  {
    var d := |s.delivered|;
    i := Find(s.order, s.consumer.tail);
    var j :| 0 <= j < |s.order[d..]| && s.order[d..][j] == s.consumer.tail;
    assert s.order[d + j] == s.consumer.tail;
  }

  lemma {:induction false} SplitQueue(s: State)
    requires NoDup(s.order) && Shape(s) && Head(s) && Local(s) && s.consumer.CasLast? && s.last != s.consumer.tail
      && 0 !in s.order
    ensures Shape(ConsumerStep(s)) && Head(ConsumerStep(s)) && Local(ConsumerStep(s))
  {
    var i := SplitPoint(s);
  }

  lemma {:induction false} StoreThreads(s: State)
    requires Inv(s) && (s.consumer.StoreNext? || s.consumer.StoreNull?)
    ensures Unshared(ConsumerStep(s)) && Pending(ConsumerStep(s))
  {
  }

  lemma {:induction false} StoreQueue(s: State)
    requires Inv(s) && (s.consumer.StoreNext? || s.consumer.StoreNull?)
    ensures Shape(ConsumerStep(s)) && Head(ConsumerStep(s)) && Local(ConsumerStep(s))
  {
  }

  lemma {:induction false} StoreInv(s: State)
    requires Inv(s) && (s.consumer.StoreNext? || s.consumer.StoreNull?)
    ensures Inv(ConsumerStep(s))
  {
    StoreThreads(s);
    StoreQueue(s);
  }

  lemma {:induction false} ConsumerInv(s: State)
    requires Inv(s)
    ensures Inv(ConsumerStep(s))
  {
    match s.consumer
    case Idle => EarlyInv(s);
    case ReadHead => EarlyInv(s);
    case LoadLast(_) => EarlyInv(s);
    case ReadNext(_, _) => EarlyInv(s);
    case CasLast(_, _) => CasInv(s);
    case StoreNext(_, _, _) => StoreInv(s);
    case StoreNull(_, _) => StoreInv(s);
    case Walk(_, _) => WalkInv(s);
  }

  lemma {:induction false} StepInv(s: State, e: Event)
    requires Inv(s) && Enabled(s, e)
    ensures Inv(Exec(s, e))
  {
    match e
    case Begin(tid, node) => BeginInv(s, tid, node);
    case Produce(tid) =>
      match s.producers[tid] {
        case Load(_) => LoadInv(s, tid);
        case Link(_, _) => LinkInv(s, tid);
        case Swing(_, _) => SwingInv(s, tid);
      }
    case Consume => ConsumerInv(s);
  }

  // ----------------------------------------------------------- all runs

  /** The states of every run: any number of threads, any interleaving. */
  ghost predicate Run(es: seq<Event>, s: State, s': State)
    decreases |es|
  {
    if es == [] then s' == s else Enabled(s, es[0]) && Run(es[1..], Exec(s, es[0]), s')
  }

  lemma {:induction false} RunInv(es: seq<Event>, s: State, s': State)
    requires Inv(s) && Run(es, s, s')
    ensures Inv(s')
    decreases |es|
  {
    if es != [] {
      StepInv(s, es[0]);
      RunInv(es[1..], Exec(s, es[0]), s');
    }
  }

  /** `path` is what one finds by following `next` from `from` up to `to`. */
  ghost predicate Chain(next: map<Ptr, Ptr>, from: Ptr, to: Ptr, path: seq<Ptr>) {
    && path != [] && path[0] == from && path[|path| - 1] == to
    && forall i :: 0 <= i < |path| - 1 ==> path[i] in next && next[path[i]] == path[i + 1]
  }

  lemma {:induction false} LinkedChain(s: State, lo: nat, hi: nat)
    requires Linked(s, lo, hi) && lo < hi <= |s.order|
    ensures Chain(s.next, s.order[lo], s.order[hi - 1], s.order[lo..hi])
  {
    var path := s.order[lo..hi];
    forall i | 0 <= i < |path| - 1 ensures path[i] in s.next && s.next[path[i]] == path[i + 1] {
      assert path[i] == s.order[lo + i] && path[i + 1] == s.order[lo + i + 1];
    }
  }

  /** What is stored where: visited nodes, the rest of the consumer's batch, the live chain. */
  ghost predicate Accounted(s: State) {
    && NoDup(s.order) && |s.delivered| <= s.popped <= |s.order|
    && var batch, live := s.order[|s.delivered|..s.popped], s.order[s.popped..];
       && s.delivered + batch + live == s.order
       && (s.consumer.Idle? ==> batch == [])
       && (s.consumer.Walk? ==> Chain(s.next, s.consumer.cur, s.consumer.end, batch))
       && (s.last == 0 ==> live == [])
       && (s.last != 0 && !Busy(s.consumer) ==> 0 in s.next && Chain(s.next, s.next[0], s.last, live))
  }

  lemma {:induction false} InvSplit(s: State)
    requires Inv(s)
    ensures |s.delivered| <= s.popped <= |s.order|
    ensures s.delivered + s.order[|s.delivered|..s.popped] + s.order[s.popped..] == s.order
  {
    ThreeParts(s.order, |s.delivered|, s.popped);
  }

  lemma {:induction false} ThreeParts(q: seq<Ptr>, d: nat, p: nat)
    requires d <= p <= |q|
    ensures q[..d] + q[d..p] + q[p..] == q
  {
  }

  lemma {:induction false} InvBatch(s: State)
    requires Inv(s)
    ensures |s.delivered| <= s.popped <= |s.order|
    ensures s.consumer.Walk? ==> Chain(s.next, s.consumer.cur, s.consumer.end, s.order[|s.delivered|..s.popped])
  {
    if s.consumer.Walk? { LinkedChain(s, |s.delivered|, s.popped); }
  }

  lemma {:induction false} InvLive(s: State)
    requires Inv(s)
    ensures s.popped <= |s.order| && (s.last == 0 ==> s.order[s.popped..] == [])
    ensures s.last != 0 && !Busy(s.consumer) ==> 0 in s.next && Chain(s.next, s.next[0], s.last, s.order[s.popped..])
  {
    var p, n := s.popped, |s.order|;
    if p < n {
      LinkedChain(s, p, n);
      assert s.order[p..n] == s.order[p..];
    }
  }

  lemma {:induction false} InvAccounted(s: State)
    requires Inv(s)
    ensures Accounted(s)
  {
    InvSplit(s);
    InvBatch(s);
    InvLive(s);
  }

  /** In every reachable state, whatever the interleaving: what the consumer has visited,
      followed by the rest of the batch it holds, followed by the chain from `head.next` to
      `last`, is exactly the nodes in the order of their successful CAS on `last`, each
      once.  Nothing is lost, duplicated or reordered. */
  lemma {:induction false} NothingLost(es: seq<Event>, s: State)
    requires Run(es, Init(), s)
    ensures Accounted(s)
  {
    InitInv();
    RunInv(es, Init(), s);
    InvAccounted(s);
  }

  /** The nodes handed to `push` are those in the order and those of producers still at
      work, so a push that has returned has put its node into the order. */
  ghost predicate Conserved(s: State) {
    forall x :: x in s.used ==> x in s.order || exists t :: t in s.producers && s.producers[t].node == x
  }

  /** A non-NULL `next` at the current tail belongs to a producer about to swing `last`. */
  ghost predicate TailClaimed(s: State) {
    s.last in s.next && !s.consumer.StoreNull? ==>
      exists t :: t in s.producers && s.producers[t] == Swing(s.next[s.last], s.last)
  }

  lemma {:induction false} StepConserved(s: State, e: Event)
    requires Enabled(s, e) && Conserved(s)
    ensures Conserved(Exec(s, e))
  {
    var s' := Exec(s, e);
    forall x | x in s'.used ensures x in s'.order || exists t :: t in s'.producers && s'.producers[t].node == x {
      if x in s.used {
        if x !in s.order {
          var t :| t in s.producers && s.producers[t].node == x;
          if t in s'.producers {
            assert s'.producers[t].node == x;
          } else {
            assert s'.order == s.order + [x];
          }
        }
      } else {
        assert s'.producers[e.tid].node == x;
      }
    }
  }

  lemma {:induction false} StepTail(s: State, e: Event)
    requires Inv(s) && Enabled(s, e) && TailClaimed(s)
    ensures TailClaimed(Exec(s, e))
  {
    match e
    case Begin(tid, _) => KeepClaim(s, Exec(s, e), tid);
    case Produce(tid) => ProduceTail(s, tid);
    case Consume => ConsumeTail(s);
  }

  lemma {:induction false} KeepClaim(s: State, s': State, tid: nat)
    requires TailClaimed(s) && s'.last == s.last && s'.next == s.next && s'.consumer == s.consumer
    requires tid in s'.producers && s'.producers == s.producers[tid := s'.producers[tid]]
    requires tid in s.producers && s.producers[tid].Swing? ==> s.producers[tid].tail != s.last
    ensures TailClaimed(s')
  {
    if s.last in s.next && !s.consumer.StoreNull? {
      var t :| t in s.producers && s.producers[t] == Swing(s.next[s.last], s.last);
      assert t in s'.producers && s'.producers[t] == s.producers[t];
    }
  }

  lemma {:induction false} ProduceTail(s: State, tid: nat)
    requires Unshared(s) && TailClaimed(s) && tid in s.producers
    ensures TailClaimed(ProducerStep(s, tid))
  {
    var s' := ProducerStep(s, tid);
    match s.producers[tid]
    case Load(_) => KeepClaim(s, s', tid);
    case Link(node, tail) =>
      if tail in s.next {
        KeepClaim(s, s', tid);
      } else if tail == s.last {
        assert tid in s'.producers && s'.producers[tid] == Swing(s'.next[s'.last], s'.last);
      } else if s.last in s.next && !s.consumer.StoreNull? {
        var t :| t in s.producers && s.producers[t] == Swing(s.next[s.last], s.last);
        assert t in s'.producers && s'.producers[t] == Swing(s'.next[s'.last], s'.last);
      }
    case Swing(node, tail) =>
      if s.last != tail { KeepClaim(s, s', tid); }
  }

  lemma {:induction false} ConsumeTail(s: State)
    requires Shape(s) && Head(s) && Local(s) && 0 !in s.order && TailClaimed(s)
    ensures TailClaimed(ConsumerStep(s))
  {
    var s' := ConsumerStep(s);
    if s'.last in s'.next && !s'.consumer.StoreNull? {
      assert s'.last == s.last && s'.next[s.last] == s.next[s.last] && s.last in s.next;
    }
  }

  lemma {:induction false} RunConserved(es: seq<Event>, s: State, s': State)
    requires Inv(s) && Conserved(s) && TailClaimed(s) && Run(es, s, s')
    ensures Conserved(s') && TailClaimed(s')
    decreases |es|
  {
    if es != [] {
      StepInv(s, es[0]);
      StepConserved(s, es[0]);
      StepTail(s, es[0]);
      RunConserved(es[1..], Exec(s, es[0]), s');
    }
  }

  /** Once every push has returned and the consumer is idle, every node ever pushed has been
      delivered or is on the chain, and the tail is NULL-terminated. */
  lemma {:induction false} Quiescent(es: seq<Event>, s: State)
    requires Run(es, Init(), s) && s.producers == map[] && s.consumer.Idle?
    ensures forall x :: x in s.used <==> x in s.order
    ensures |s.delivered| <= |s.order| && s.order == s.delivered + s.order[|s.delivered|..] && s.last !in s.next
    ensures s.last != 0 ==> 0 in s.next && Chain(s.next, s.next[0], s.last, s.order[|s.delivered|..])
  {
    InitInv();
    RunInv(es, Init(), s);
    RunConserved(es, Init(), s);
    InvAccounted(s);
  }

  // ------------------------------------- refinement of the spinlock-protected queue

  /** What one step does to the reference queue. */
  datatype Action = Skip | Push(node: Ptr) | Pop(batch: seq<Ptr>) | FindEmpty

  /** The reference queue: a push appends its node, a pop takes a non-empty prefix off the front, and a
      pop that answers NULL has found the queue empty. */
  ghost predicate Allows(q: seq<Ptr>, a: Action, q': seq<Ptr>) {
    match a
    case Skip => q' == q
    case Push(node) => q' == q + [node]
    case Pop(batch) => batch != [] && q == batch + q'
    case FindEmpty => q == [] && q' == []
  }

  ghost function Live(s: State): seq<Ptr>
    requires s.popped <= |s.order|
  {
    s.order[s.popped..]
  }

  /** A push takes effect at its CAS on `last` and appends the producer's own node; a pop takes
      effect at the consumer's CAS, which takes everything up to `last` if it succeeds and up to
      the tail loaded before it if it fails; a pop whose test finds `last == &head` answers NULL. */
  ghost function ActionOf(s: State, e: Event): Action
    requires Enabled(s, e)
  {
    if e.Produce? && s.producers[e.tid].Swing? && s.last == s.producers[e.tid].tail then Push(s.producers[e.tid].node)
    else if e.Consume? && s.consumer.CasLast? then
      if s.last == s.consumer.tail then Pop(if s.popped <= |s.order| then Live(s) else [])
      else Pop(if s.popped <= |s.order| then Upto(Live(s), s.consumer.tail) else [])
    else if e.Consume? && s.consumer.Idle? && s.last == 0 then FindEmpty
    else Skip
  }

  /** The nodes of `q` up to and including `x`. */
  ghost function Upto(q: seq<Ptr>, x: Ptr): seq<Ptr> {
    if q == [] then [] else if q[0] == x then [x] else [q[0]] + Upto(q[1..], x)
  }

  lemma {:induction false} UptoIndex(q: seq<Ptr>, i: nat)
    requires NoDup(q) && i < |q|
    ensures Upto(q, q[i]) == q[..i + 1]
    decreases i
  {
    if i > 0 {
      assert q[1..][i - 1] == q[i];
      UptoIndex(q[1..], i - 1);
      assert q[..i + 1] == [q[0]] + q[1..][..i];
    } else {
      assert q[..1] == [q[0]];
    }
  }

  lemma {:induction false} ProduceRefines(s: State, tid: nat)
    requires s.popped <= |s.order| && tid in s.producers
    ensures var s' := ProducerStep(s, tid);
      s'.popped <= |s'.order| && Allows(Live(s), ActionOf(s, Produce(tid)), Live(s'))
  {
    var s' := ProducerStep(s, tid);
    if s'.order != s.order {
      assert Live(s') == Live(s) + [s.producers[tid].node];
    }
  }

  lemma {:induction false} LiveNoDup(s: State)
    requires NoDup(s.order) && s.popped <= |s.order|
    ensures NoDup(Live(s))
  {
    var live := Live(s);
    forall a, b | 0 <= a < b < |live| ensures live[a] != live[b] {
      assert live[a] == s.order[s.popped + a] && live[b] == s.order[s.popped + b];
    }
  }

  /** Cutting a queue after one of its nodes. */
  lemma {:induction false} CutAt(q: seq<Ptr>, p: nat, i: nat)
    requires p <= i < |q| && NoDup(q[p..])
    ensures Upto(q[p..], q[i]) == q[p..i + 1]
    ensures q[p..] == q[p..i + 1] + q[i + 1..]
  {
    var t, n := q[p..], i - p;
    UptoIndex(t, n);
    assert t[n] == q[i] && t[..n + 1] == q[p..i + 1];
  }

  lemma {:induction false} SplitRefines(s: State, i: nat)
    requires s.popped <= i < |s.order| && NoDup(s.order) && s.consumer.CasLast? && s.last != s.consumer.tail
    requires s.order[i] == s.consumer.tail && i == Find(s.order, s.consumer.tail)
    ensures ConsumerStep(s).popped <= |s.order| && Allows(Live(s), ActionOf(s, Consume), Live(ConsumerStep(s)))
  {
    LiveNoDup(s);
    CutAt(s.order, s.popped, i);
  }

  lemma {:induction false} TakeRefines(s: State)
    requires Shape(s) && Local(s) && s.consumer.CasLast? && s.last == s.consumer.tail
    ensures var s' := ConsumerStep(s);
      s'.popped <= |s'.order| && Allows(Live(s), ActionOf(s, Consume), Live(s')) && Live(s') == []
  {
    assert Live(s) + [] == Live(s);
  }

  lemma {:induction false} ConsumeRefines(s: State)
    requires NoDup(s.order) && Shape(s) && Local(s) && (s.last == 0 ==> Live(s) == [])
    ensures ConsumerStep(s).popped <= |ConsumerStep(s).order|
    ensures Allows(Live(s), ActionOf(s, Consume), Live(ConsumerStep(s)))
  {
    if s.consumer.CasLast? {
      if s.last == s.consumer.tail {
        TakeRefines(s);
      } else {
        var i := SplitPoint(s);
        SplitRefines(s, i);
      }
    }
  }

  /** Each step of the lock-free queue is the step of the reference queue that `ActionOf` names. */
  lemma {:induction false} Refines(s: State, e: Event)
    requires Inv(s) && Enabled(s, e)
    ensures var s' := Exec(s, e);
      s.popped <= |s.order| && s'.popped <= |s'.order| && Allows(Live(s), ActionOf(s, e), Live(s'))
  {
    match e
    case Begin(_, _) =>
    case Produce(tid) => ProduceRefines(s, tid);
    case Consume =>
      InvLive(s);
      ConsumeRefines(s);
  }

  ghost function Actions(es: seq<Event>, s: State, s': State): seq<Action>
    requires Run(es, s, s')
    decreases |es|
  {
    if es == [] then [] else [ActionOf(s, es[0])] + Actions(es[1..], Exec(s, es[0]), s')
  }

  /** A run of the reference queue. */
  ghost predicate QueueRun(q: seq<Ptr>, actions: seq<Action>, q': seq<Ptr>)
    decreases |actions|
  {
    if actions == [] then q' == q
    else exists q1 :: Allows(q, actions[0], q1) && QueueRun(q1, actions[1..], q')
  }

  /** Every run of the lock-free queue, in any interleaving, is a run of the reference queue. */
  lemma {:induction false} RunRefines(es: seq<Event>, s: State, s': State)
    requires Inv(s) && Run(es, s, s')
    ensures s.popped <= |s.order| && s'.popped <= |s'.order| && QueueRun(Live(s), Actions(es, s, s'), Live(s'))
    decreases |es|
  {
    if es != [] {
      var s1 := Exec(s, es[0]);
      StepInv(s, es[0]);
      Refines(s, es[0]);
      RunRefines(es[1..], s1, s');
      QueueRunFirst(Live(s), ActionOf(s, es[0]), Live(s1), Actions(es[1..], s1, s'), Live(s'));
    }
  }

  lemma {:induction false} QueueRunFirst(q: seq<Ptr>, a: Action, q1: seq<Ptr>, actions: seq<Action>, q': seq<Ptr>)
    requires Allows(q, a, q1) && QueueRun(q1, actions, q')
    ensures QueueRun(q, [a] + actions, q')
  {
    assert ([a] + actions)[1..] == actions;
  }

  ghost function PushedIn(a: Action): seq<Ptr> { if a.Push? then [a.node] else [] }

  ghost function PoppedIn(a: Action): seq<Ptr> { if a.Pop? then a.batch else [] }

  ghost function PushedBy(actions: seq<Action>): seq<Ptr> {
    if actions == [] then [] else PushedIn(actions[0]) + PushedBy(actions[1..])
  }

  ghost function PoppedBy(actions: seq<Action>): seq<Ptr> {
    if actions == [] then [] else PoppedIn(actions[0]) + PoppedBy(actions[1..])
  }

  lemma {:induction false} FifoStep(q: seq<Ptr>, a: Action, q1: seq<Ptr>, pushed: seq<Ptr>, popped: seq<Ptr>,
      q': seq<Ptr>)
    requires Allows(q, a, q1) && q1 + pushed == popped + q'
    ensures q + (PushedIn(a) + pushed) == (PoppedIn(a) + popped) + q'
  {
    assert q + PushedIn(a) == PoppedIn(a) + q1;
    assert q + (PushedIn(a) + pushed) == (q + PushedIn(a)) + pushed == PoppedIn(a) + (q1 + pushed);
    assert (PoppedIn(a) + popped) + q' == PoppedIn(a) + (popped + q');
  }

  /** A run of the reference queue is first in, first out. */
  lemma {:induction false} QueueFifo(q: seq<Ptr>, actions: seq<Action>, q': seq<Ptr>)
    requires QueueRun(q, actions, q')
    ensures q + PushedBy(actions) == PoppedBy(actions) + q'
    decreases |actions|
  {
    if actions == [] {
      assert q + [] == [] + q;
    } else {
      var q1 :| Allows(q, actions[0], q1) && QueueRun(q1, actions[1..], q');
      QueueFifo(q1, actions[1..], q');
      FifoStep(q, actions[0], q1, PushedBy(actions[1..]), PoppedBy(actions[1..]), q');
    }
  }

  /** The pushes of a run are what it appends to the order of successful CAS operations. */
  lemma {:induction false} RunPushes(es: seq<Event>, s: State, s': State)
    requires Run(es, s, s')
    ensures s'.order == s.order + PushedBy(Actions(es, s, s'))
    decreases |es|
  {
    if es == [] {
      assert s.order + [] == s.order;
    } else {
      var s1 := Exec(s, es[0]);
      var actions := Actions(es[1..], s1, s');
      RunPushes(es[1..], s1, s');
      StepPushes(s, es[0]);
      PushesFirst(s.order, ActionOf(s, es[0]), actions);
    }
  }

  lemma {:induction false} PushesFirst(q: seq<Ptr>, a: Action, actions: seq<Action>)
    ensures q + PushedBy([a] + actions) == q + PushedIn(a) + PushedBy(actions)
  {
    assert ([a] + actions)[1..] == actions;
    assert q + (PushedIn(a) + PushedBy(actions)) == q + PushedIn(a) + PushedBy(actions);
  }

  lemma {:induction false} StepPushes(s: State, e: Event)
    requires Enabled(s, e)
    ensures Exec(s, e).order == s.order + PushedIn(ActionOf(s, e))
  {
    assert s.order + [] == s.order;
  }

  lemma {:induction false} SameSuffix(a: seq<Ptr>, b: seq<Ptr>, c: seq<Ptr>)
    requires a + c == b + c
    ensures a == b
  {
    assert a == (a + c)[..|a|] && b == (b + c)[..|b|];
  }

  /** From the initial state: the run is one of the reference queue; the batches popped so far, followed
      by the live chain, are the nodes pushed so far in the order of their pushes; and those batches are
      what the consumer has visited followed by the rest of the batch it is visiting. */
  lemma {:induction false} RunFifo(es: seq<Event>, s: State)
    requires Run(es, Init(), s)
    ensures |s.delivered| <= s.popped <= |s.order|
    ensures QueueRun([], Actions(es, Init(), s), Live(s))
    ensures PushedBy(Actions(es, Init(), s)) == s.order == PoppedBy(Actions(es, Init(), s)) + Live(s)
    ensures PoppedBy(Actions(es, Init(), s)) == s.delivered + s.order[|s.delivered|..s.popped]
  {
    var actions := Actions(es, Init(), s);
    InitInv();
    RunInv(es, Init(), s);
    RunRefines(es, Init(), s);
    QueueFifo([], actions, Live(s));
    RunPushes(es, Init(), s);
    assert [] + PushedBy(actions) == PushedBy(actions);
    InvSplit(s);
    SameSuffix(PoppedBy(actions), s.delivered + s.order[|s.delivered|..s.popped], Live(s));
  }

  // ------------------------------------------ what a pop takes, and progress

  /** One thread running alone for n steps. */
  function Times(e: Event, n: nat): (es: seq<Event>) {
    if n == 0 then [] else [e] + Times(e, n - 1)
  }

  lemma {:induction false} RunFirst(e: Event, es: seq<Event>, s: State, s': State)
    requires Enabled(s, e) && Run(es, Exec(s, e), s')
    ensures Run([e] + es, s, s')
  {
    assert ([e] + es)[1..] == es;
  }

  lemma {:induction false} RunJoin(es: seq<Event>, fs: seq<Event>, s: State, s1: State, s2: State)
    requires Run(es, s, s1) && Run(fs, s1, s2)
    ensures Run(es + fs, s, s2)
    decreases |es|
  {
    if es == [] {
      assert [] + fs == fs;
    } else {
      RunJoin(es[1..], fs, Exec(s, es[0]), s1, s2);
      RunFirst(es[0], es[1..] + fs, s, s2);
      assert [es[0]] + (es[1..] + fs) == es + fs;
    }
  }

  /** With the consumer idle, its next step starts a pop exactly when the queue is not empty. */
  lemma {:induction false} PopStarts(es: seq<Event>, s: State)
    requires Run(es, Init(), s) && s.consumer.Idle?
    ensures s.popped <= |s.order|
    ensures if Live(s) == [] then Exec(s, Consume) == s else Exec(s, Consume).consumer.ReadHead?
  {
    InitInv();
    RunInv(es, Init(), s);
  }

  /** One step more in front. */
  lemma {:induction false} TimesMore(e: Event, n: nat, s: State, s': State)
    requires Enabled(s, e) && Run(Times(e, n), Exec(s, e), s')
    ensures Run(Times(e, n + 1), s, s')
  {
    RunFirst(e, Times(e, n), s, s');
  }

  /** The consumer alone walks to the end of its batch. */
  lemma {:induction false} WalkRest(s: State) returns (s': State)
    requires Inv(s) && s.consumer.Walk?
    ensures |s.delivered| < s.popped <= |s.order| && Run(Times(Consume, s.popped - |s.delivered|), s, s')
    ensures s' == s.(consumer := Idle, delivered := s.order[..s.popped])
    decreases if |s.delivered| <= s.popped then s.popped - |s.delivered| else 0
  {
    var s1 := ConsumerStep(s);
    ConsumerInv(s);
    WalkOn(s);
    if s1.consumer.Idle? {
      s' := s1;
      TimesMore(Consume, 0, s, s');
    } else {
      s' := WalkRest(s1);
      TimesMore(Consume, s.popped - |s1.delivered|, s, s');
    }
  }

  lemma {:induction false} WalkOn(s: State)
    requires Inv(s) && s.consumer.Walk?
    ensures var s1 := ConsumerStep(s);
      |s.delivered| < s.popped <= |s.order| && |s1.delivered| == |s.delivered| + 1
      && s1 == s.(consumer := s1.consumer, delivered := s1.delivered)
      && (if |s1.delivered| == s.popped then s1.consumer.Idle? && s1.delivered == s.order[..s.popped]
          else s1.consumer.Walk?)
  {
    ConsumerInv(s);
  }

  /** From any point of a pop or of the walk, the consumer alone comes to rest; it neither changes the
      order nor touches the producers. */
  lemma {:induction false} PopRest(s: State) returns (n: nat, s': State)
    requires Inv(s)
    ensures Run(Times(Consume, n), s, s') && s'.consumer.Idle?
    ensures s'.order == s.order && s'.used == s.used && s'.producers == s.producers
    decreases Phase(s.consumer)
  {
    if s.consumer.Idle? {
      n, s' := 0, s;
    } else if s.consumer.Walk? {
      s' := WalkRest(s);
      n := s.popped - |s.delivered|;
    } else {
      ConsumerInv(s);
      PopOn(s);
      n, s' := PopRest(ConsumerStep(s));
      TimesMore(Consume, n, s, s');
      n := n + 1;
    }
  }

  function Phase(c: Consumer): (n: nat) {
    match c
    case Idle => 0
    case ReadHead => 6
    case LoadLast(_) => 5
    case CasLast(_, _) => 4
    case ReadNext(_, _) => 3
    case StoreNext(_, _, _) => 2
    case StoreNull(_, _) => 2
    case Walk(_, _) => 1
  }

  /** A step of a pop goes on to a later phase. */
  lemma {:induction false} PopOn(s: State)
    requires !s.consumer.Idle? && !s.consumer.Walk?
    ensures var s1 := ConsumerStep(s);
      s1.order == s.order && s1.used == s.used && s1.producers == s.producers && Phase(s1.consumer) < Phase(s.consumer)
  {
  }

  /** A pop that nobody disturbs takes the whole queue: from any reachable state with an idle consumer and a
      non-empty queue, five steps and one for each node deliver everything that is in the order, and
      leave the queue empty. */
  lemma {:induction false} PopAlone(es: seq<Event>, s: State) returns (s': State)
    requires Run(es, Init(), s) && s.consumer.Idle? && s.popped < |s.order|
    ensures Run(Times(Consume, 5 + |Live(s)|), s, s')
    ensures s'.consumer.Idle? && s'.last == 0 && s'.delivered == s'.order == s.order && s'.popped == |s.order|
    ensures s'.producers == s.producers && s'.used == s.used
  {
    InitInv();
    RunInv(es, Init(), s);
    s' := PopWhole(s);
  }

  lemma {:induction false} PopWhole(s: State) returns (s': State)
    requires Inv(s) && s.consumer.Idle? && s.popped < |s.order|
    ensures Run(Times(Consume, 5 + |Live(s)|), s, s')
    ensures s'.consumer.Idle? && s'.last == 0 && s'.delivered == s'.order == s.order && s'.popped == |s.order|
    ensures s'.producers == s.producers && s'.used == s.used
  {
    var s3 := Approach(s);
    var s5 := Take(s3);
    s' := WalkRest(s5);
    assert s.order[..|s.order|] == s.order;
    var n := |Live(s)|;
    TimesTwo(s3, n, s');
    TimesTwo(ConsumerStep(s), n + 2, s');
    TimesMore(Consume, n + 4, s, s');
  }

  lemma {:induction false} TimesTwo(s: State, n: nat, s': State)
    requires Run(Times(Consume, n), ConsumerStep(ConsumerStep(s)), s')
    ensures Run(Times(Consume, n + 2), s, s')
  {
    TimesMore(Consume, n, ConsumerStep(s), s');
    TimesMore(Consume, n + 1, s, s');
  }

  /** The first three steps of a pop: test, read the head, load `last`. */
  lemma {:induction false} Approach(s: State) returns (s3: State)
    requires Inv(s) && s.consumer.Idle? && s.popped < |s.order|
    ensures Inv(s3) && s3 == ConsumerStep(ConsumerStep(ConsumerStep(s)))
    ensures s3.consumer.CasLast? && s3 == s.(consumer := s3.consumer) && s3.consumer.tail == s.last
  {
    var s1 := ConsumerStep(s);
    ConsumerInv(s);
    var s2 := ConsumerStep(s1);
    ConsumerInv(s1);
    s3 := ConsumerStep(s2);
    ConsumerInv(s2);
  }

  /** The next two: the CAS succeeds and the head is cleared. */
  lemma {:induction false} Take(s: State) returns (s2: State)
    requires Inv(s) && s.consumer.CasLast? && s.last == s.consumer.tail
    ensures Inv(s2) && s2 == ConsumerStep(ConsumerStep(s)) && s2.consumer.Walk?
    ensures s2 == s.(consumer := s2.consumer, next := s2.next, last := 0, popped := |s.order|)
    ensures |s.delivered| == s.popped
  {
    var s1 := ConsumerStep(s);
    ConsumerInv(s);
    s2 := ConsumerStep(s1);
    ConsumerInv(s1);
  }

  /** Whatever has been popped since the queue held the first `n` nodes of the order, and the consumer
      stood idle with `p` of them popped, includes all `n`. */
  ghost predicate Takes(s: State, p: nat, n: nat) {
    && n <= |s.order|
    && (n <= s.popped
        || (s.popped == p && (s.consumer.Idle? || s.consumer.ReadHead? || s.consumer.LoadLast?
                              || (s.consumer.CasLast? && 0 < n && s.consumer.tail in s.order[n - 1..]))))
  }

  lemma {:induction false} StepTakes(s: State, e: Event, p: nat, n: nat)
    requires Inv(s) && Enabled(s, e) && Takes(s, p, n)
    ensures Takes(Exec(s, e), p, n)
  {
    if e.Consume? {
      if s.popped < n { ConsumeTakes(s, p, n); } else { PopGrows(s); }
    } else {
      ProduceTakes(s, e, p, n);
    }
  }

  lemma {:induction false} PopGrows(s: State)
    requires Inv(s)
    ensures s.popped <= ConsumerStep(s).popped && ConsumerStep(s).order == s.order
  {
    if s.consumer.CasLast? && s.last != s.consumer.tail { var i := SplitPoint(s); }
  }

  lemma {:induction false} ProduceTakes(s: State, e: Event, p: nat, n: nat)
    requires Enabled(s, e) && !e.Consume? && Takes(s, p, n)
    ensures Takes(Exec(s, e), p, n)
  {
    var s' := Exec(s, e);
    if s.consumer.CasLast? && 0 < n && s.consumer.tail in s.order[n - 1..] && s'.order != s.order {
      var i :| 0 <= i < |s.order[n - 1..]| && s.order[n - 1..][i] == s.consumer.tail;
      assert s'.order[n - 1..][i] == s.consumer.tail;
    }
  }

  lemma {:induction false} ConsumeTakes(s: State, p: nat, n: nat)
    requires NoDup(s.order) && Shape(s) && Local(s) && Takes(s, p, n) && s.popped < n
    ensures Takes(ConsumerStep(s), p, n)
  {
    if s.consumer.LoadLast? {
      assert s.order[n - 1..][|s.order| - n] == s.last;
    } else if s.consumer.CasLast? && s.last != s.consumer.tail {
      var i := SplitPoint(s);
      TailFrom(s.order, n - 1, s.consumer.tail, i);
    }
  }

  lemma {:induction false} TailFrom(q: seq<Ptr>, n: nat, x: Ptr, i: nat)
    requires NoDup(q) && n <= |q| && x in q[n..] && i < |q| && q[i] == x
    ensures n <= i
  {
    var j :| 0 <= j < |q[n..]| && q[n..][j] == x;
    assert q[n + j] == q[i];
  }

  lemma {:induction false} RunTakes(es: seq<Event>, s: State, s': State, p: nat, n: nat)
    requires Inv(s) && Takes(s, p, n) && Run(es, s, s')
    ensures Takes(s', p, n) && Inv(s')
    decreases |es|
  {
    if es != [] {
      StepInv(s, es[0]);
      StepTakes(s, es[0], p, n);
      RunTakes(es[1..], Exec(s, es[0]), s', p, n);
    }
  }

  /** In any interleaving, a pop takes at least everything that was in the queue when the consumer last
      stood idle before it: whatever has been popped since includes it, and so does whatever has been
      delivered once the consumer is idle again. */
  lemma {:induction false} PopTakesAll(es: seq<Event>, s: State, fs: seq<Event>, s': State)
    requires Run(es, Init(), s) && s.consumer.Idle? && Run(fs, s, s')
    ensures s.order <= s'.order && s'.popped <= |s'.order|
    ensures s'.popped == s.popped || s.order <= s'.order[..s'.popped]
    ensures s'.consumer.Idle? ==> s'.delivered == s.delivered || s.order <= s'.delivered
  {
    InitInv();
    RunInv(es, Init(), s);
    RunTakes(fs, s, s', s.popped, |s.order|);
    RunPushes(fs, s, s');
    InvSplit(s);
    InvSplit(s');
    Prefixes(s.order, s'.order, s.popped, s'.popped);
  }

  lemma {:induction false} Prefixes(a: seq<Ptr>, b: seq<Ptr>, p: nat, q: nat)
    requires a <= b && p <= |a| && q <= |b|
    ensures b[..p] == a[..p] && (|a| <= q ==> a <= b[..q])
  {
  }

  /** A push that nobody disturbs takes three steps, if the tail's `next` is NULL, */
  lemma {:induction false} PushAlone(s: State, tid: nat) returns (s': State)
    requires tid in s.producers && s.producers[tid].Load? && s.last !in s.next
    ensures Run(Times(Produce(tid), 3), s, s')
    ensures s'.order == s.order + [s.producers[tid].node] && s'.last == s.producers[tid].node
    ensures s'.next == s.next[s.last := s.producers[tid].node] && s'.producers == s.producers - {tid}
    ensures s'.consumer == s.consumer && s'.used == s.used && s'.delivered == s.delivered
  {
    var e := Produce(tid);
    var s1 := Exec(s, e);
    var s2 := Exec(s1, e);
    s' := Exec(s2, e);
    assert s2.producers - {tid} == s.producers - {tid};
    TimesMore(e, 0, s2, s');
    TimesMore(e, 1, s1, s');
    TimesMore(e, 2, s, s');
  }

  /** and otherwise never ends: it waits for the producer that has linked there, or for the consumer. */
  lemma {:induction false} PushWaits(s: State, tid: nat, n: nat, s': State)
    requires tid in s.producers && (s.producers[tid].Load? || s.producers[tid] == Link(s.producers[tid].node, s.last))
    requires s.last in s.next && Run(Times(Produce(tid), n), s, s')
    ensures tid in s'.producers && s'.order == s.order && s'.next == s.next && s'.last == s.last
    decreases n
  {
    if n > 0 {
      var e := Produce(tid);
      assert Times(e, n)[1..] == Times(e, n - 1);
      PushWaits(Exec(s, e), tid, n - 1, s');
    }
  }

  /** With the consumer idle, some push can be completed. */
  lemma {:induction false} FinishOne(s: State) returns (es: seq<Event>, s': State)
    requires Inv(s) && TailClaimed(s) && s.consumer.Idle? && s.producers != map[]
    ensures Run(es, s, s') && s'.consumer.Idle? && s'.used == s.used && |s'.producers| < |s.producers|
  {
    if s.last in s.next {
      var t :| t in s.producers && s.producers[t] == Swing(s.next[s.last], s.last);
      s' := Exec(s, Produce(t));
      es := [Produce(t)];
      RunFirst(Produce(t), [], s, s');
      assert s'.producers.Keys == s.producers.Keys - {t};
    } else {
      var t :| t in s.producers;
      var fs, s1 := Restart(s, t);
      if t in s1.producers {
        s' := PushAlone(s1, t);
        RunJoin(fs, Times(Produce(t), 3), s, s1, s');
        es := fs + Times(Produce(t), 3);
        assert s'.producers.Keys == s1.producers.Keys - {t};
      } else {
        es, s' := fs, s1;
      }
    }
  }

  /** A producer alone either completes its push or comes back to loading `last`, which is still free. */
  lemma {:induction false} Restart(s: State, t: nat) returns (es: seq<Event>, s': State)
    requires Inv(s) && s.consumer.Idle? && t in s.producers && s.last !in s.next
    ensures Run(es, s, s') && s'.consumer.Idle? && s'.used == s.used
    ensures if t in s'.producers
      then s'.producers.Keys == s.producers.Keys && s'.producers[t].Load? && s'.last !in s'.next
      else s'.producers.Keys == s.producers.Keys - {t}
  {
    es, s' := [], s;
    var e := Produce(t);
    if s.producers[t].Link? {
      var s1 := Exec(s, e);
      if s1.producers[t].Load? {
        es, s' := [e], s1;
        RunFirst(e, [], s, s1);
      } else {
        s' := Exec(s1, e);
        RunFirst(e, [], s1, s');
        RunFirst(e, [e], s, s');
        es := [e] + [e];
      }
    } else if s.producers[t].Swing? {
      s' := Exec(s, e);
      es := [e];
      RunFirst(e, [], s, s');
    }
  }

  /** Everything that holds in a reachable state. */
  ghost predicate Sound(s: State) {
    var all := Inv(s) && Conserved(s) && TailClaimed(s);
    all
  }

  lemma {:induction false} RunSound(es: seq<Event>, s: State, s': State)
    requires Sound(s) && Run(es, s, s')
    ensures Sound(s')
  {
    RunInv(es, s, s');
    RunConserved(es, s, s');
  }

  lemma {:induction false} FinishAll(s: State) returns (es: seq<Event>, s': State)
    requires Sound(s) && s.consumer.Idle?
    ensures Run(es, s, s') && Sound(s') && s'.consumer.Idle? && s'.used == s.used && s'.producers == map[]
    decreases |s.producers|
  {
    if s.producers == map[] {
      es, s' := [], s;
    } else {
      var fs, s1 := FinishOne(s);
      RunSound(fs, s, s1);
      var gs;
      gs, s' := FinishAll(s1);
      RunJoin(fs, gs, s, s1, s');
      es := fs + gs;
    }
  }

  /** No deadlock: from every reachable state there is a way on in which every push under way completes and
      every node ever handed to one is delivered. */
  lemma {:induction false} CanDrain(es: seq<Event>, s: State) returns (fs: seq<Event>, s': State)
    requires Run(es, Init(), s)
    ensures Run(fs, s, s') && s'.producers == map[] && s'.consumer.Idle? && s'.last == 0
    ensures s'.used == s.used && s'.delivered == s'.order && forall x :: x in s.used <==> x in s'.delivered
  {
    InitInv();
    RunSound(es, Init(), s);
    var n, s1 := PopRest(s);
    RunSound(Times(Consume, n), s, s1);
    var gs, s2 := FinishAll(s1);
    RunJoin(Times(Consume, n), gs, s, s1, s2);
    fs, s' := Times(Consume, n) + gs, s2;
    if s2.popped < |s2.order| {
      s' := PopWhole(s2);
      var hs := Times(Consume, 5 + |Live(s2)|);
      RunSound(hs, s2, s');
      RunJoin(fs, hs, s, s2, s');
      fs := fs + hs;
    } else {
      assert s2.order[..|s2.order|] == s2.order;
    }
  }
}
