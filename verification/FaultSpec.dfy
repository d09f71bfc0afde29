/**
 What the fault registry means: a finite map from names to records, and the effect of every
 operation on it.  A fault fires only in a window of its enabled calls.
 */
module FaultSpec {
  /** The bytes of a name, without its terminator. */
  type Name = seq<int>

  const IntMax := 0x7fff_ffff
  const IntMin := -0x8000_0000

  /** What a callback answers for an argument; a fault without one always agrees. */
  datatype Callback = NoCallback | Ask(answers: int -> bool)

  datatype Fault = Fault(enable: bool, sleepTime: int, afterTimes: int, enableTimes: int, injectErr: int,
    hitTimes: int, callback: Callback)

  /** `fault_inject_reset` */
  function Reset(f: Fault): (r: Fault) {
    f.(sleepTime := 0, enableTimes := IntMax, afterTimes := 0, enable := false, injectErr := 0, hitTimes := 0)
  }

  /** `fault_inject_init` keeps the callback and the name. */
  function Overwrite(f: Fault, values: Fault): (r: Fault) { values.(callback := f.callback) }

  /** A signed 32-bit increment. */
  function Increment(h: int): (r: int) { if h == IntMax then IntMin else h + 1 }

  function Called(f: Fault): (r: Fault) {
    if f.enable then f.(hitTimes := Increment(f.hitTimes)) else f
  }

  /** Whether a call returns the fault. */
  predicate Fires(f: Fault, arg: int) {
    f.enable
    && var times := Increment(f.hitTimes);
       !(times <= f.afterTimes || times - f.afterTimes > f.enableTimes)
       && (f.callback.NoCallback? || f.callback.answers(arg))
  }

  const Fresh := Fault(false, 0, 0, IntMax, 0, 0, NoCallback)

  datatype Op =
    | Register(name: Name, callback: Callback)
    | Unregister(name: Name)
    | Enable(name: Name)
    | Disable(name: Name)
    | Reinit(name: Name)
    | Init(name: Name, values: Fault)
    | CondGet(name: Name, arg: int)

  type View = map<Name, Fault>

  function Apply(v: View, op: Op): (r: View) {
    if op.Register? then (if op.name in v then v else v[op.name := Fresh.(callback := op.callback)])
    else if op.name !in v then v
    else
      var f := v[op.name];
      match op
      case Unregister(n) => v - {n}
      case Enable(n) => v[n := f.(enable := true)]
      case Disable(n) => v[n := f.(enable := false)]
      case Reinit(n) => v[n := Reset(f)]
      case Init(n, values) => v[n := Overwrite(f, values)]
      case CondGet(n, _) => v[n := Called(f)]
      case _ => v
  }

  /** Whether the operation is a call that returns the fault. */
  predicate Returned(v: View, op: Op) {
    op.CondGet? && op.name in v && Fires(v[op.name], op.arg)
  }

  function Run(v: View, ops: seq<Op>): (r: View)
    decreases ops
  {
    if ops == [] then v else Run(Apply(v, ops[0]), ops[1..])
  }

  /** An operation leaves every other name alone. */
  lemma OthersUntouched(v: View, op: Op, name: Name)
    requires op.name != name
    ensures name in Apply(v, op) <==> name in v
    ensures name in v ==> Apply(v, op)[name] == v[name]
  {
  }

  // ---- What a history of operations amounts to ----

  /** Whether a name is registered, by the last operation that registered or unregistered it. */
  predicate Listed(was: bool, ops: seq<Op>, name: Name)
    decreases |ops|
  {
    if ops == [] then was else
      var op := ops[|ops| - 1];
      if op.name == name && op.Register? then true
      else if op.name == name && op.Unregister? then false
      else Listed(was, ops[..|ops| - 1], name)
  }

  /** Whether a fault is enabled, by the last operation that said so. */
  predicate SwitchedOn(was: bool, ops: seq<Op>, name: Name)
    decreases |ops|
  {
    if ops == [] then was else
      var op := ops[|ops| - 1];
      if op.name == name && op.Enable? then true
      else if op.name == name && (op.Disable? || op.Reinit?) then false
      else if op.name == name && op.Init? then op.values.enable
      else SwitchedOn(was, ops[..|ops| - 1], name)
  }

  predicate Sets(op: Op, name: Name) { op.name == name && (op.Init? || op.Reinit?) }

  /** The values of a fault and where they were set: by the last initialisation, or before the history. */
  function Settings(was: Fault, ops: seq<Op>, name: Name): (r: (Fault, nat))
    ensures r.1 <= |ops|
    decreases |ops|
  {
    if ops == [] then (was, 0)
    else if !Sets(ops[|ops| - 1], name) then Settings(was, ops[..|ops| - 1], name)
    else if ops[|ops| - 1].Init? then (ops[|ops| - 1].values, |ops|)
    else (Fault(false, 0, 0, 0x7fff_ffff, 0, 0, NoCallback), |ops|)
  }

  /** The calls made since the given point while the fault was enabled. */
  function CallsSince(on: bool, ops: seq<Op>, name: Name, from: nat): (n: nat)
    decreases |ops|
  {
    if |ops| <= from then 0 else
      var op, before := ops[|ops| - 1], ops[..|ops| - 1];
      CallsSince(on, before, name, from)
      + (if op.CondGet? && op.name == name && SwitchedOn(on, before, name) then 1 else 0)
  }

  /** The name is not unregistered. */
  ghost predicate Stays(ops: seq<Op>, name: Name) {
    forall i :: 0 <= i < |ops| ==> ops[i].name == name ==> !ops[i].Unregister?
  }

  /** One operation more. */
  lemma {:induction false} RunNext(v: View, ops: seq<Op>, op: Op)
    ensures Run(v, ops + [op]) == Apply(Run(v, ops), op)
    decreases ops
  {
    if ops == [] {
      assert ops + [op] == [op] && [op][1..] == [];
    } else {
      assert (ops + [op])[0] == ops[0] && (ops + [op])[1..] == ops[1..] + [op];
      RunNext(Apply(v, ops[0]), ops[1..], op);
    }
  }

  lemma {:induction false} RunLast(v: View, ops: seq<Op>)
    requires ops != []
    ensures Run(v, ops) == Apply(Run(v, ops[..|ops| - 1]), ops[|ops| - 1])
  {
    assert ops[..|ops| - 1] + [ops[|ops| - 1]] == ops;
    RunNext(v, ops[..|ops| - 1], ops[|ops| - 1]);
  }

  /** A new name gets a record that is off and whose window is all calls; a registered one keeps its own;
      an unregistered one is gone. */
  lemma Registration(v: View, name: Name, callback: Callback)
    ensures name !in v ==>
      Apply(v, Register(name, callback)) == v[name := Fault(false, 0, 0, 0x7fff_ffff, 0, 0, callback)]
    ensures name in v ==> Apply(v, Register(name, callback)) == v
    ensures Apply(v, Unregister(name)).Keys == v.Keys - {name}
  {
  }

  lemma {:induction false} Membership(v: View, ops: seq<Op>, name: Name)
    ensures name in Run(v, ops) <==> Listed(name in v, ops, name)
    decreases |ops|
  {
    if ops != [] {
      RunLast(v, ops);
      Membership(v, ops[..|ops| - 1], name);
    }
  }

  /** One operation on a record, or on another. */
  lemma FieldsStep(v: View, op: Op, name: Name)
    requires name in v && (op.name == name ==> !op.Unregister?)
    ensures name in Apply(v, op)
    ensures var f, g := v[name], Apply(v, op)[name];
      g.callback == f.callback
      && (if op.name == name && op.Init? then g == op.values.(callback := f.callback)
          else if op.name == name && op.Reinit? then g == Fault(false, 0, 0, 0x7fff_ffff, 0, 0, f.callback)
          else g == f.(enable := g.enable, hitTimes := g.hitTimes)
               && g.enable == (if op.name == name && op.Enable? then true
                               else if op.name == name && op.Disable? then false else f.enable))
  {
  }

  /** After any history of a registered name: every field but the hit count is the one last set, the switch is
      where it was last put, and the callback is still there. */
  lemma {:induction false} FieldsAfter(v: View, ops: seq<Op>, name: Name)
    requires name in v && Stays(ops, name)
    ensures name in Run(v, ops)
    ensures var f, g, set_ := v[name], Run(v, ops)[name], Settings(v[name], ops, name).0;
      g.enable == SwitchedOn(f.enable, ops, name) && g.callback == f.callback && g.sleepTime == set_.sleepTime
      && g.afterTimes == set_.afterTimes && g.enableTimes == set_.enableTimes && g.injectErr == set_.injectErr
    decreases |ops|
  {
    if ops != [] {
      RunLast(v, ops);
      FieldsAfter(v, ops[..|ops| - 1], name);
      FieldsStep(Run(v, ops[..|ops| - 1]), ops[|ops| - 1], name);
    }
  }

  /** And the hit count is the one last set and one more for each call made since while it was enabled. */
  lemma {:induction false} HitsCount(v: View, ops: seq<Op>, name: Name)
    requires name in v && Stays(ops, name)
    requires var (set_, from) := Settings(v[name], ops, name);
      set_.hitTimes + CallsSince(v[name].enable, ops, name, from) <= IntMax
    ensures name in Run(v, ops)
    ensures var (set_, from) := Settings(v[name], ops, name);
      Run(v, ops)[name].hitTimes == set_.hitTimes + CallsSince(v[name].enable, ops, name, from)
    decreases |ops|
  {
    if ops != [] {
      var before := ops[..|ops| - 1];
      RunLast(v, ops);
      FieldsAfter(v, before, name);
      if !Sets(ops[|ops| - 1], name) { HitsCount(v, before, name); }
    }
  }

  // ---- The window ----

  /**
   After any history of a registered name: a call returns the fault if and only if it is enabled, the callback
   (if there is one) agrees, and the call is the n-th enabled one with a < n <= a + e, where after_times a,
   enable_times e and the first number are those last set.
   */
  lemma Window(v: View, ops: seq<Op>, name: Name, arg: int)
    requires name in v && Stays(ops, name)
    requires var (set_, from) := Settings(v[name], ops, name);
      set_.hitTimes + CallsSince(v[name].enable, ops, name, from) < IntMax
    ensures var (set_, from) := Settings(v[name], ops, name);
      var n := set_.hitTimes + CallsSince(v[name].enable, ops, name, from) + 1;
      Returned(Run(v, ops), CondGet(name, arg))
      <==> SwitchedOn(v[name].enable, ops, name) && set_.afterTimes < n <= set_.afterTimes + set_.enableTimes
           && (v[name].callback == NoCallback || (v[name].callback.Ask? && v[name].callback.answers(arg)))
  {
    FieldsAfter(v, ops, name);
    HitsCount(v, ops, name);
  }

  /** Calls that returned the fault. */
  function Firings(v: View, ops: seq<Op>, name: Name): (n: nat)
    decreases ops
  {
    if ops == [] then 0 else
      (if ops[0].name == name && Returned(v, ops[0]) then 1 else 0) + Firings(Apply(v, ops[0]), ops[1..], name)
  }

  lemma {:induction false} FiringsNext(v: View, ops: seq<Op>, op: Op, name: Name)
    ensures Firings(v, ops + [op], name)
      == Firings(v, ops, name) + if op.name == name && Returned(Run(v, ops), op) then 1 else 0
    decreases |ops|
  {
    if ops == [] {
      assert [op] == ops + [op] && [op][1..] == [];
    } else {
      assert (ops + [op])[1..] == ops[1..] + [op];
      FiringsNext(Apply(v, ops[0]), ops[1..], op, name);
    }
  }

  /** How many of the calls numbered h+1..h+n lie in the window. */
  function InWindow(h: int, n: nat, a: int, e: int): (c: int) {
    var hi := if h + n < a + e then h + n else a + e;
    var lo := if h > a then h else a;
    if hi > lo then hi - lo else 0
  }

  /** Nor is it initialised anew. */
  ghost predicate Untouched(ops: seq<Op>, name: Name) {
    Stays(ops, name) && forall i :: 0 <= i < |ops| ==> !Sets(ops[i], name)
  }

  lemma {:induction false} SettingsStay(f: Fault, ops: seq<Op>, name: Name)
    requires Untouched(ops, name)
    ensures Settings(f, ops, name) == (f, 0)
    decreases |ops|
  {
    if ops != [] { SettingsStay(f, ops[..|ops| - 1], name); }
  }

  /** The total over a whole run: exactly the calls of the window, each once. */
  lemma {:induction false} TotalFirings(v: View, ops: seq<Op>, name: Name)
    requires name in v && Untouched(ops, name) && v[name].callback == NoCallback
    requires v[name].afterTimes >= 0 && v[name].enableTimes >= 0
    requires 0 <= v[name].hitTimes && v[name].hitTimes + CallsSince(v[name].enable, ops, name, 0) <= IntMax
    ensures var f := v[name];
      Firings(v, ops, name)
      == InWindow(f.hitTimes, CallsSince(f.enable, ops, name, 0), f.afterTimes, f.enableTimes)
    decreases |ops|
  {
    if ops != [] {
      var before, op := ops[..|ops| - 1], ops[|ops| - 1];
      assert before + [op] == ops;
      TotalFirings(v, before, name);
      FiringsNext(v, before, op, name);
      SettingsStay(v[name], before, name);
      FieldsAfter(v, before, name);
      HitsCount(v, before, name);
    }
  }

  // ---- Answers of a run ----

  /** For each operation, whether it is a call that returns the fault. */
  function Answers(v: View, ops: seq<Op>): (a: seq<bool>)
    ensures |a| == |ops|
    decreases ops
  {
    if ops == [] then [] else [Returned(v, ops[0])] + Answers(Apply(v, ops[0]), ops[1..])
  }

  /** How many operations on a name were answered with the fault. */
  function Count(ops: seq<Op>, answers: seq<bool>, name: Name): (n: nat)
    requires |answers| == |ops|
  {
    if ops == [] then 0 else
      (if ops[0].name == name && answers[0] then 1 else 0) + Count(ops[1..], answers[1..], name)
  }

  lemma {:induction false} AnswersCount(v: View, ops: seq<Op>, name: Name)
    ensures Count(ops, Answers(v, ops), name) == Firings(v, ops, name)
    decreases ops
  {
    if ops != [] {
      assert Answers(v, ops)[1..] == Answers(Apply(v, ops[0]), ops[1..]);
      AnswersCount(Apply(v, ops[0]), ops[1..], name);
    }
  }

  lemma {:induction false} AnswersNext(v: View, ops: seq<Op>, op: Op)
    ensures Answers(v, ops + [op]) == Answers(v, ops) + [Returned(Run(v, ops), op)]
    decreases ops
  {
    if ops == [] {
      assert ops + [op] == [op] && [op][1..] == [];
    } else {
      assert (ops + [op])[0] == ops[0] && (ops + [op])[1..] == ops[1..] + [op];
      AnswersNext(Apply(v, ops[0]), ops[1..], op);
    }
  }
}
